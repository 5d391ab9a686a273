/** The gradient stencil: the per-pixel energy of an image, from the squared
    colour differences between opposite neighbours. */
module Energy {

  /** One colour channel intensity. */
  type Channel = c: int | 0 <= c <= 255

  /** A pixel as its three colour channels. */
  datatype Pixel = Pixel(red: Channel, green: Channel, blue: Channel)

  /** The colour a seam is painted in. */
  const Red := Pixel(255, 0, 0)

  /** A coordinate: column x, row y. */
  datatype Point = Point(x: int, y: int)

  /** The two centres energy uses: h for the horizontal difference (i = 1),
      v for the vertical difference (i = 2). */
  datatype Stencil = Stencil(h: Point, v: Point)

  /** The largest squared difference of one channel. */
  const MaxSquare := 255 * 255

  /** (x, y) lies on a w-by-h image. */
  predicate Inside(w: int, h: int, x: int, y: int) {
    0 <= x < w && 0 <= y < h
  }

  /** Both pixels that the difference along axis i at (x, y) samples lie on a
      w-by-h image: (x + 1, y) and (x - 1, y) for i = 1, (x, y + 1) and
      (x, y - 1) for i = 2. */
  predicate SamplesInside(w: int, h: int, i: int, x: int, y: int) {
    Inside(w, h, x + (2 - i), y + (i - 1)) && Inside(w, h, x - (2 - i), y - (i - 1))
  }

  /** Channel j of the pixel at (x, y): 1 red, 2 green, 3 blue, and -1 for
      any other j. */
  function Color(im: array2<Pixel>, j: int, x: int, y: int): (c: int)
    reads im
    requires Inside(im.Length0, im.Length1, x, y)
    ensures 1 <= j <= 3 ==> 0 <= c <= 255
    ensures c == -1 <==> !(1 <= j <= 3)
  {
    var px := im[x, y];
    if j == 1 then px.red
    else if j == 2 then px.green
    else if j == 3 then px.blue
    else -1
  }

  /** The difference of channel j between the two pixels sampled along axis i. */
  function ColorD(im: array2<Pixel>, i: int, j: int, x: int, y: int): (d: int)
    reads im
    requires SamplesInside(im.Length0, im.Length1, i, x, y)
    ensures 1 <= j <= 3 ==> -255 <= d <= 255
    ensures 1 <= j <= 3 && im[x + (2 - i), y + (i - 1)] == im[x - (2 - i), y - (i - 1)] ==> d == 0
  {
    Color(im, j, x + (2 - i), y + (i - 1)) - Color(im, j, x - (2 - i), y - (i - 1))
  }

  function Square(d: int): nat {
    d * d
  }

  /** Multiplying by a non-negative factor keeps an order. */
  lemma {:induction false} MulMonotone(a: int, b: int, c: nat)
    requires a <= b
    ensures a * c <= b * c
    decreases c
  {
    if c > 0 {
      MulMonotone(a, b, c - 1);
      assert a * c == a * (c - 1) + a && b * c == b * (c - 1) + b;
    }
  }

  lemma SquareBound(d: int)
    requires -255 <= d <= 255
    ensures Square(d) <= MaxSquare
  {
    var a: nat := if d < 0 then -d else d;
    assert Square(d) == a * a;
    MulMonotone(a, 255, a);
    MulMonotone(a, 255, 255);
    assert a * 255 == 255 * a;
  }

  /** The sum that delta has accumulated after channels 1..n. */
  function DeltaUpTo(im: array2<Pixel>, i: int, x: int, y: int, n: nat): (s: nat)
    reads im
    requires SamplesInside(im.Length0, im.Length1, i, x, y) && n <= 3
    ensures s <= n * MaxSquare
    decreases n
  {
    if n == 0 then 0
    else
      var d := ColorD(im, i, n, x, y);
      SquareBound(d);
      DeltaUpTo(im, i, x, y, n - 1) + Square(d)
  }

  /** The squared colour gradient along axis i at (x, y): the sum over the
      three channels of the squared difference. */
  function Gradient(im: array2<Pixel>, i: int, x: int, y: int): (g: nat)
    reads im
    requires SamplesInside(im.Length0, im.Length1, i, x, y)
    ensures g <= 3 * MaxSquare
  {
    DeltaUpTo(im, i, x, y, 3)
  }

  /** delta: accumulates the squared channel differences in a loop. */
  method Delta(im: array2<Pixel>, i: int, x: int, y: int) returns (sum: nat)
    requires SamplesInside(im.Length0, im.Length1, i, x, y)
    ensures sum == Gradient(im, i, x, y)
  {
    sum := 0;
    for j := 1 to 4
      invariant sum == DeltaUpTo(im, i, x, y, j - 1)
    {
      var d := ColorD(im, i, j, x, y);
      sum := sum + d * d;
    }
  }

  /** The gradient along an axis vanishes exactly when its two sampled pixels
      have the same colour. */
  lemma {:induction false} GradientZeroIff(im: array2<Pixel>, i: int, x: int, y: int)
    requires SamplesInside(im.Length0, im.Length1, i, x, y)
    ensures Gradient(im, i, x, y) == 0 <==> im[x + (2 - i), y + (i - 1)] == im[x - (2 - i), y - (i - 1)]
  {
    var p, q := im[x + (2 - i), y + (i - 1)], im[x - (2 - i), y - (i - 1)];
    var dr, dg, db := ColorD(im, i, 1, x, y), ColorD(im, i, 2, x, y), ColorD(im, i, 3, x, y);
    assert DeltaUpTo(im, i, x, y, 1) == Square(dr);
    assert DeltaUpTo(im, i, x, y, 2) == Square(dr) + Square(dg);
    assert Gradient(im, i, x, y) == Square(dr) + Square(dg) + Square(db);
    if Gradient(im, i, x, y) == 0 {
      assert dr * dr == 0 && dg * dg == 0 && db * db == 0;
      assert p.red == q.red && p.green == q.green && p.blue == q.blue;
    }
  }

  function Clamp(c: int, lo: int, hi: int): int {
    if c < lo then lo else if hi < c then hi else c
  }

  /** The stencil centres of energy at (x, y), where w and h are the largest
      column and row indices: one of four corners, four edges or the
      interior.  On a border the centre moves one step inward instead of
      clamping the sample. */
  function Centres(x: int, y: int, w: int, h: int): (s: Stencil)
    ensures 2 <= w && 2 <= h && 0 <= x <= w && 0 <= y <= h ==>
              s.h == Point(Clamp(x, 1, w - 1), y) && s.v == Point(x, Clamp(y, 1, h - 1))
  {
    if x == 0 && y == 0 then Stencil(Point(1, 0), Point(0, 1))
    else if x == w && y == h then Stencil(Point(w - 1, h), Point(w, h - 1))
    else if x == 0 && y == h then Stencil(Point(1, h), Point(0, h - 1))
    else if x == w && y == 0 then Stencil(Point(w - 1, 0), Point(w, 1))
    else if x == 0 then Stencil(Point(1, y), Point(0, y))
    else if y == 0 then Stencil(Point(x, 0), Point(x, 1))
    else if x == w then Stencil(Point(x - 1, y), Point(x, y))
    else if y == h then Stencil(Point(x, y), Point(x, y - 1))
    else Stencil(Point(x, y), Point(x, y))
  }

  /** Every pixel that energy at (x, y) samples lies on a width-by-height image. */
  predicate StencilInside(width: int, height: int, x: int, y: int) {
    var s := Centres(x, y, width - 1, height - 1);
    SamplesInside(width, height, 1, s.h.x, s.h.y) && SamplesInside(width, height, 2, s.v.x, s.v.y)
  }

  /** On a non-empty image, energy samples only pixels of the image at every
      pixel if the image is at least 3 wide and 3 high, and at none otherwise. */
  lemma StencilInsideIff(width: int, height: int, x: int, y: int)
    requires Inside(width, height, x, y)
    ensures StencilInside(width, height, x, y) <==> 3 <= width && 3 <= height
  {
  }

  /** The squared energy delta(1, ...) + delta(2, ...) of the pixel at (x, y);
      the program takes its square root (sqrt). */
  function SquaredEnergy(im: array2<Pixel>, x: int, y: int): (e: nat)
    reads im
    requires 3 <= im.Length0 && 3 <= im.Length1
    requires Inside(im.Length0, im.Length1, x, y)
    ensures e <= 6 * MaxSquare
  {
    var s := Centres(x, y, im.Length0 - 1, im.Length1 - 1);
    Gradient(im, 1, s.h.x, s.h.y) + Gradient(im, 2, s.v.x, s.v.y)
  }

  /** energy: the two deltas the stencil picks, added and passed through
      root, which stands for the program's sqrt. */
  method PixelEnergy(im: array2<Pixel>, root: nat -> nat, x: int, y: int) returns (e: nat)
    requires 3 <= im.Length0 && 3 <= im.Length1
    requires Inside(im.Length0, im.Length1, x, y)
    ensures e == root(SquaredEnergy(im, x, y))
  {
    var s := Centres(x, y, im.Length0 - 1, im.Length1 - 1);
    var dh := Delta(im, 1, s.h.x, s.h.y);
    var dv := Delta(im, 2, s.v.x, s.v.y);
    e := root(dh + dv);
  }

  /** The energy of a pixel is zero exactly when the two horizontal samples
      have one colour and the two vertical samples have one colour. */
  lemma SquaredEnergyZeroIff(im: array2<Pixel>, x: int, y: int)
    requires 3 <= im.Length0 && 3 <= im.Length1
    requires Inside(im.Length0, im.Length1, x, y)
    ensures var s := Centres(x, y, im.Length0 - 1, im.Length1 - 1);
            SquaredEnergy(im, x, y) == 0 <==>
              im[s.h.x + 1, s.h.y] == im[s.h.x - 1, s.h.y] && im[s.v.x, s.v.y + 1] == im[s.v.x, s.v.y - 1]
  {
    var s := Centres(x, y, im.Length0 - 1, im.Length1 - 1);
    GradientZeroIff(im, 1, s.h.x, s.h.y);
    GradientZeroIff(im, 2, s.v.x, s.v.y);
  }

  /** On an image of one colour every pixel has zero energy. */
  lemma UniformImageHasZeroEnergy(im: array2<Pixel>, c: Pixel, x: int, y: int)
    requires 3 <= im.Length0 && 3 <= im.Length1
    requires forall x', y' | 0 <= x' < im.Length0 && 0 <= y' < im.Length1 :: im[x', y'] == c
    requires Inside(im.Length0, im.Length1, x, y)
    ensures SquaredEnergy(im, x, y) == 0
  {
    SquaredEnergyZeroIff(im, x, y);
  }

  /** On an image of one colour every pixel has energy zero, for any square
      root that maps 0 to 0. */
  lemma UniformImagePixelEnergyIsZero(im: array2<Pixel>, root: nat -> nat, c: Pixel, x: int, y: int)
    requires root(0) == 0
    requires 3 <= im.Length0 && 3 <= im.Length1
    requires forall x', y' | 0 <= x' < im.Length0 && 0 <= y' < im.Length1 :: im[x', y'] == c
    requires Inside(im.Length0, im.Length1, x, y)
    ensures root(SquaredEnergy(im, x, y)) == 0
  {
    UniformImageHasZeroEnergy(im, c, x, y);
  }
}

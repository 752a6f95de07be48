/**
 Off-screen colour buffers as the ping-pong stepper sees them: RGBA pixels of
 one unsigned byte per channel, arranged in a width x height grid, together
 with the two foreign operations the stepper performs on them — drawing a
 full-screen quad through a fragment program, and reading one pixel back into
 a four-byte array.
 */
module Textures {

  /** One element of a `Uint8Array`. */
  newtype byte = x: int | 0 <= x < 256

  /** The alpha value the liveness test treats as "alive". */
  const Opaque: byte := 255

  /** One pixel of an RGBA-format render target. */
  datatype Pixel = Pixel(r: byte, g: byte, b: byte, a: byte)

  /** The all-zero pixel: what a freshly allocated WebGL texture holds. */
  const Transparent := Pixel(0, 0, 0, 0)

  /** A colour buffer stored row by row, so that the pixel at (x, y) is rows[y][x]. */
  datatype Texture = Texture(width: nat, height: nat, rows: seq<seq<Pixel>>) {

    /** The grid really has `height` rows of `width` pixels each. */
    predicate Valid() {
      && |rows| == height
      && forall y :: 0 <= y < |rows| ==> |rows[y]| == width
    }

    predicate InBounds(x: int, y: int) {
      0 <= x < width && 0 <= y < height
    }

    predicate SameSize(other: Texture) {
      width == other.width && height == other.height
    }
  }

  /** The texture of the given size whose pixel at (x, y) is f(x, y). */
  function Filled(width: nat, height: nat, f: (int, int) -> Pixel): (t: Texture)
    ensures t.Valid() && t.width == width && t.height == height
    ensures forall x, y :: 0 <= x < width && 0 <= y < height ==> t.rows[y][x] == f(x, y)
  {
    Texture(width, height, seq(height, y => seq(width, x => f(x, y))))
  }

  /** A freshly allocated render target: every pixel transparent black. */
  function Fresh(width: nat, height: nat): (t: Texture)
    ensures t.Valid() && t.width == width && t.height == height
    ensures forall x, y :: t.InBounds(x, y) ==> t.rows[y][x] == Transparent
  {
    Filled(width, height, (x, y) => Transparent)
  }

  /** Two valid textures with the same size and the same pixels are the same texture. */
  lemma {:induction false} Extensionality(t: Texture, u: Texture)
    requires t.Valid() && u.Valid() && t.SameSize(u)
    requires forall x, y :: t.InBounds(x, y) ==> t.rows[y][x] == u.rows[y][x]
    ensures t == u
  {
    forall y | 0 <= y < t.height
      ensures t.rows[y] == u.rows[y]
    {
      assert forall x :: 0 <= x < t.width ==> t.rows[y][x] == u.rows[y][x] by {
        forall x | 0 <= x < t.width
          ensures t.rows[y][x] == u.rows[y][x]
        {
          assert t.InBounds(x, y);
        }
      }
    }
  }

  /**
   The pixel at (x, y), or transparent black where there is none. The second
   case is what a read-back outside the target leaves in its zeroed array.
   */
  function Sample(t: Texture, x: int, y: int): (p: Pixel)
    ensures t.Valid() && t.InBounds(x, y) ==> p == t.rows[y][x]
    ensures !t.InBounds(x, y) ==> p == Transparent
  {
    if t.Valid() && t.InBounds(x, y) then t.rows[y][x] else Transparent
  }

  /**
   A fragment program: the colour it writes at (x, y) of the target, given the
   texture bound to its input sampler.
   */
  type Program = (Texture, int, int) -> Pixel

  /**
   Clearing a width x height target and drawing a full-screen quad into it
   through `program` with `input` bound: every pixel of the target is written.
   */
  function Shade(program: Program, input: Texture, width: nat, height: nat): (t: Texture)
    ensures t.Valid() && t.width == width && t.height == height
    ensures forall x, y :: t.InBounds(x, y) ==> t.rows[y][x] == program(input, x, y)
  {
    Filled(width, height, (x, y) => program(input, x, y))
  }

  /** One generation: `program` applied to a texture, into a target of the same size. */
  function Step(program: Program, t: Texture): (u: Texture)
    ensures u.Valid() && u.SameSize(t)
  {
    Shade(program, t, t.width, t.height)
  }

  /** `n` generations of `program` starting from `t`. */
  function Iterate(program: Program, n: nat, t: Texture): (u: Texture)
    requires t.Valid()
    ensures u.Valid() && u.SameSize(t)
  {
    if n == 0 then t else Step(program, Iterate(program, n - 1, t))
  }

  /**
   `new Uint8Array(4)` followed by a one-pixel read-back at (x, y): the four
   channels of the pixel when (x, y) lies inside the target, otherwise the
   array keeps its zero initialisation.
   */
  function ReadPixel(t: Texture, x: int, y: int): (buffer: seq<byte>)
    requires t.Valid()
    ensures |buffer| == 4
    ensures t.InBounds(x, y) ==> buffer == [t.rows[y][x].r, t.rows[y][x].g, t.rows[y][x].b, t.rows[y][x].a]
    ensures !t.InBounds(x, y) ==> buffer == [0, 0, 0, 0]
  {
    if t.InBounds(x, y) then
      var p := t.rows[y][x];
      [p.r, p.g, p.b, p.a]
    else
      [0, 0, 0, 0]
  }

  /** The program that copies its input pixel for pixel. */
  function Copy(): (program: Program)
    ensures forall t: Texture, x, y :: t.Valid() && t.InBounds(x, y) ==> program(t, x, y) == t.rows[y][x]
    ensures forall t: Texture, x, y :: !t.InBounds(x, y) ==> program(t, x, y) == Transparent
  {
    (t, x, y) => Sample(t, x, y)
  }

  /** Copying a valid texture into a target of its own size reproduces it. */
  lemma CopyStepIsIdentity(t: Texture)
    requires t.Valid()
    ensures Step(Copy(), t) == t
  {
    var u := Step(Copy(), t);
    forall x, y | u.InBounds(x, y)
      ensures u.rows[y][x] == t.rows[y][x]
    {
      assert t.InBounds(x, y);
    }
    Extensionality(u, t);
  }

  /** Any number of copy generations leaves a valid texture as it was. */
  lemma {:induction false} CopyIterateIsIdentity(n: nat, t: Texture)
    requires t.Valid()
    ensures Iterate(Copy(), n, t) == t
  {
    if n > 0 {
      CopyIterateIsIdentity(n - 1, t);
      CopyStepIsIdentity(t);
    }
  }
}

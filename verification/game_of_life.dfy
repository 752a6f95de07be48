/**
 The ping-pong stepper of the `GameOfLife` class: two equally sized render
 targets, `ping` and `pong`, a `current` pointer naming one of them, and the
 texture bound to the fragment program's `tUniverse` sampler.

 The renderer is abstracted: drawing the full-screen quad into a target is
 `Shade` over the bound texture, and the one-pixel read-back is `ReadPixel`.
 Each call of `Render` also appends the (source, target) pair of its draw to
 `draws`, so that properties of whole runs can be stated.
 */
module GameOfLife {
  import opened Textures

  /** Which of the two render targets a reference designates. */
  datatype Buf = Ping | Pong {
    function Other(): (o: Buf)
      ensures o != this
    {
      if this == Ping then Pong else Ping
    }
  }

  /** One draw call: the buffer whose texture was sampled and the buffer written. */
  datatype Draw = Draw(source: Buf, target: Buf)

  /**
   The state of one `GameOfLife` object. `draws` is not a field of the
   JavaScript object: it is the model's record of every draw so far. It is an
   ordinary field rather than a ghost one so that a `Stepper` stays a plain
   value that functions can return and callers can compare.
   */
  datatype Stepper = Stepper(ping: Texture, pong: Texture, current: Buf, input: Buf, draws: seq<Draw>) {

    /** The render target `b` designates. */
    function Buffer(b: Buf): Texture {
      if b == Ping then ping else pong
    }

    /**
     What construction establishes and every render keeps: two well-formed
     buffers of one size, and the sampler bound to the current buffer.
     */
    predicate Valid() {
      && ping.Valid() && pong.Valid()
      && ping.SameSize(pong)
      && input == current
    }
  }

  lemma OtherIsInvolution(b: Buf)
    ensures b.Other().Other() == b
    ensures b.Other() == Ping <==> b == Pong
  {
  }

  /**
   The constructor: two render targets of width x height, `ping` made current
   and its texture bound as the program's input; no draw has happened yet.
   */
  function New(width: nat, height: nat): (s: Stepper)
    ensures s.Valid()
    ensures s.ping.width == width && s.ping.height == height
    ensures s.pong.width == width && s.pong.height == height
    ensures s.current == Ping && s.input == Ping
    ensures s.ping == s.pong == Fresh(width, height)
    ensures s.draws == []
  {
    var ping := Fresh(width, height);
    var pong := Fresh(width, height);
    Stepper(ping, pong, Ping, Ping, [])
  }

  /**
   One step, in the order the code takes it: flip `current`, bind the new
   current's texture as the input, then clear the other buffer — the previous
   current — and draw into it.
   */
  function Render(s: Stepper, program: Program): (r: Stepper)
    ensures r.current == s.current.Other()
    ensures r.input == r.current
    ensures r.draws == s.draws + [Draw(r.current, s.current)]
    ensures r.draws[|s.draws|].source != r.draws[|s.draws|].target
    ensures r.Buffer(r.current) == s.Buffer(r.current)
    ensures var target := s.Buffer(s.current);
      r.Buffer(s.current) == Shade(program, s.Buffer(r.current), target.width, target.height)
    ensures s.Valid() ==> r.Valid()
  {
    var current := if s.current == Ping then Pong else Ping;
    var input := current;
    var nonCurrent := if current == Ping then Pong else Ping;
    var dest := s.Buffer(nonCurrent);
    var written := Shade(program, s.Buffer(input), dest.width, dest.height);
    var ping := if nonCurrent == Ping then written else s.ping;
    var pong := if nonCurrent == Pong then written else s.pong;
    Stepper(ping, pong, current, input, s.draws + [Draw(input, nonCurrent)])
  }

  /** In a valid state, the buffer a render writes holds one generation of what it read. */
  lemma RenderWritesOneGeneration(s: Stepper, program: Program)
    requires s.Valid()
    ensures Render(s, program).Buffer(s.current) == Step(program, s.Buffer(s.current.Other()))
  {
    var r := Render(s, program);
    var src := s.Buffer(s.current.Other());
    var u := Step(program, src);
    forall x, y | u.InBounds(x, y)
      ensures r.Buffer(s.current).rows[y][x] == u.rows[y][x]
    {
    }
    Extensionality(r.Buffer(s.current), u);
  }

  /** The buffer a pointer starting at `c` designates after `n` flips, one at a time. */
  function Flipped(c: Buf, n: nat): (b: Buf)
    ensures b == c <==> n % 2 == 0
    ensures b != c ==> b == c.Other()
  {
    if n == 0 then c else
      OtherIsInvolution(c);
      Flipped(c, n - 1).Other()
  }

  /**
   The draws of `n` renders from a state whose current buffer is `c`: each
   reads the buffer current after its flip and writes the one current before.
   */
  function Schedule(c: Buf, n: nat): (run: seq<Draw>)
    ensures |run| == n
  {
    if n == 0 then [] else
      var before := Flipped(c, n - 1);
      Schedule(c, n - 1) + [Draw(before.Other(), before)]
  }

  /** One unfolding of `Schedule`: the step the proof of `RenderN`'s trace clause relies on. */
  lemma ScheduleGrows(c: Buf, n: nat)
    requires n > 0
    ensures Schedule(c, n) == Schedule(c, n - 1) + [Draw(Flipped(c, n - 1).Other(), Flipped(c, n - 1))]
  {
  }

  /**
   `n` successive renders, as the animation loop performs one per frame: the
   pointer has flipped `n` times — so it is back where it started iff `n` is
   even — and the trace has grown by the scheduled draws.
   */
  function RenderN(s: Stepper, program: Program, n: nat): (r: Stepper)
    ensures r.current == Flipped(s.current, n)
    ensures r.draws == s.draws + Schedule(s.current, n)
    ensures s.Valid() ==> r.Valid()
  {
    if n == 0 then s else
      OtherIsInvolution(s.current);
      ScheduleGrows(s.current, n);
      Render(RenderN(s, program, n - 1), program)
  }

  /**
   `isCellLive`: read back the pixel at (x, y) of the current buffer and
   report whether its alpha byte is 255. Being a function, it changes nothing.
   */
  function IsCellLive(s: Stepper, x: int, y: int): (live: bool)
    requires s.Valid()
    ensures live <==> Sample(s.Buffer(s.current), x, y).a == Opaque
    ensures live ==> s.Buffer(s.current).InBounds(x, y)
  {
    var buffer := ReadPixel(s.Buffer(s.current), x, y);
    buffer[3] == 255
  }

  /** `stampPattern` has an empty body: whatever it is given, the stepper is left as it was. */
  function StampPattern<P>(s: Stepper, x: int, y: int, pattern: P): (r: Stepper)
    ensures r.current == s.current && r.input == s.input
    ensures r.ping == s.ping && r.pong == s.pong && r.draws == s.draws
  {
    s
  }

  /** From construction, `current` is `ping` after `n` renders exactly when `n` is even. */
  lemma CurrentIsPingIffEven(width: nat, height: nat, program: Program, n: nat)
    ensures RenderN(New(width, height), program, n).current == Ping <==> n % 2 == 0
  {
  }

  /**
   The k-th draw of `run` reads the other buffer and writes `c` when k is
   even, and the reverse when k is odd.
   */
  ghost predicate AlternatesFrom(run: seq<Draw>, c: Buf) {
    forall k :: 0 <= k < |run| ==> run[k] == if k % 2 == 0 then Draw(c.Other(), c) else Draw(c, c.Other())
  }

  /** An alternating run stays alternating when the draw due at its end is appended. */
  lemma {:induction false} AlternatesExtend(run: seq<Draw>, c: Buf, d: Draw)
    requires AlternatesFrom(run, c)
    requires d == if |run| % 2 == 0 then Draw(c.Other(), c) else Draw(c, c.Other())
    ensures AlternatesFrom(run + [d], c)
  {
    var longer := run + [d];
    forall k | 0 <= k < |longer|
      ensures longer[k] == if k % 2 == 0 then Draw(c.Other(), c) else Draw(c, c.Other())
    {
      if k < |run| {
        assert longer[k] == run[k];
      }
    }
  }

  lemma {:induction false} ScheduleAlternates(c: Buf, n: nat)
    ensures AlternatesFrom(Schedule(c, n), c)
  {
    if n > 0 {
      ScheduleAlternates(c, n - 1);
      OtherIsInvolution(c);
      AlternatesExtend(Schedule(c, n - 1), c, Schedule(c, n)[n - 1]);
    }
  }

  /**
   In an alternating run every draw reads one buffer and writes the other,
   and each draw reads exactly the buffer the draw before it wrote, writing
   the one that draw read.
   */
  lemma {:induction false} AlternatingRunNeverReadsItsTarget(run: seq<Draw>, c: Buf)
    requires AlternatesFrom(run, c)
    ensures forall k :: 0 <= k < |run| ==> run[k].source != run[k].target
    ensures forall k :: 0 < k < |run| ==> run[k].source == run[k - 1].target && run[k].target == run[k - 1].source
  {
    forall k | 0 < k < |run|
      ensures run[k].source == run[k - 1].target && run[k].target == run[k - 1].source
    {
      assert (k - 1) % 2 == 0 <==> k % 2 != 0;
    }
  }

  /**
   Whatever the state, the n draws of a run of n renders alternate starting
   from the buffer that was current before the run: the first draw writes it.
   */
  lemma {:induction false} DrawsAlternate(s: Stepper, program: Program, n: nat)
    ensures var run := RenderN(s, program, n).draws[|s.draws|..];
      |run| == n && AlternatesFrom(run, s.current)
  {
    ScheduleAlternates(s.current, n);
    assert RenderN(s, program, n).draws[|s.draws|..] == Schedule(s.current, n);
  }

  /**
   Seen from construction: the k-th draw writes `ping` and reads `pong` when
   k is even, and the reverse when k is odd; every draw reads the buffer the
   one before it wrote.
   */
  lemma {:induction false} DrawTargetsFromConstruction(width: nat, height: nat, program: Program, n: nat, k: nat)
    requires k < n
    ensures var r := RenderN(New(width, height), program, n);
      && r.draws[k] == (if k % 2 == 0 then Draw(Pong, Ping) else Draw(Ping, Pong))
      && (k > 0 ==> r.draws[k].source == r.draws[k - 1].target)
  {
    var r := RenderN(New(width, height), program, n);
    DrawsAlternate(New(width, height), program, n);
    assert r.draws == r.draws[0..];
    AlternatingRunNeverReadsItsTarget(r.draws, Ping);
  }

  /**
   The one-generation lag of the code's order. Let `seed` be the buffer that
   is NOT current in a valid state. After n >= 1 renders the current buffer —
   the one the sampler, the display and `IsCellLive` see — holds n - 1
   generations of `seed`, while the freshly written other buffer holds n.
   */
  lemma {:induction false} GenerationLag(s: Stepper, program: Program, n: nat)
    requires s.Valid() && n >= 1
    ensures var r := RenderN(s, program, n);
      var seed := s.Buffer(s.current.Other());
      && r.Buffer(r.current) == Iterate(program, n - 1, seed)
      && r.Buffer(r.current.Other()) == Iterate(program, n, seed)
  {
    var seed := s.Buffer(s.current.Other());
    var q := RenderN(s, program, n - 1);
    var r := Render(q, program);
    RenderWritesOneGeneration(q, program);
    OtherIsInvolution(q.current);
    if n == 1 {
      assert q == s;
    } else {
      GenerationLag(s, program, n - 1);
      assert q.Buffer(q.current.Other()) == Iterate(program, n - 1, seed);
    }
  }

  /** After a render, `IsCellLive` answers about the buffer that render read, not the one it wrote. */
  lemma {:induction false} IsCellLiveSeesRenderInput(s: Stepper, program: Program, x: int, y: int)
    requires s.Valid()
    ensures IsCellLive(Render(s, program), x, y)
        <==> Sample(s.Buffer(s.current.Other()), x, y).a == Opaque
  {
  }

  /**
   A pattern placed in the current buffer is never seen again: with the copy
   program, after any number n >= 1 of renders the current buffer holds what
   the non-current buffer held before the first one.
   */
  lemma {:induction false} CopyRunShowsOnlyOtherBuffer(s: Stepper, n: nat)
    requires s.Valid() && n >= 1
    ensures var r := RenderN(s, Copy(), n);
      r.Buffer(r.current) == s.Buffer(s.current.Other())
  {
    GenerationLag(s, Copy(), n);
    CopyIterateIsIdentity(n - 1, s.Buffer(s.current.Other()));
  }

  /** A 4 x 4 `ping` with a single live cell at (1, 1). */
  function SeededPing(): (t: Texture)
    ensures t.Valid() && t.width == 4 && t.height == 4
    ensures forall x, y :: t.InBounds(x, y) ==> (t.rows[y][x].a == Opaque <==> x == 1 && y == 1)
  {
    Filled(4, 4, (x, y) => if x == 1 && y == 1 then Pixel(0, 0, 0, Opaque) else Transparent)
  }

  /**
   A cell made live in `ping` right after construction is live before the
   first render and dead after every later one, even with the program that
   copies its input: the first render reads `pong` and overwrites `ping`.
   */
  lemma {:induction false} SeededCellIsLost(n: nat)
    requires n >= 1
    ensures var s := New(4, 4).(ping := SeededPing());
      && IsCellLive(s, 1, 1)
      && !IsCellLive(RenderN(s, Copy(), n), 1, 1)
  {
    var s := New(4, 4).(ping := SeededPing());
    assert s.Buffer(s.current.Other()) == Fresh(4, 4);
    CopyRunShowsOnlyOtherBuffer(s, n);
  }

  /**
   The fragment program the code ships: every pixel becomes opaque orange,
   vec4(1.0, 0.5, 0.0, 1.0). The green byte depends on how the GPU rounds 0.5;
   only the alpha byte matters to the liveness test.
   */
  function ConstantOrange(): (program: Program)
    ensures forall t, x, y :: program(t, x, y).a == Opaque
  {
    (t, x, y) => Pixel(255, 128, 0, 255)
  }

  /**
   With the shipped program, from construction, a cell in range reads live
   after n renders exactly when n >= 2: the first render leaves the never-drawn
   `pong` current.
   */
  lemma {:induction false} ConstantOrangeLiveFromSecondFrame(width: nat, height: nat, n: nat, x: int, y: int)
    requires 0 <= x < width && 0 <= y < height
    ensures IsCellLive(RenderN(New(width, height), ConstantOrange(), n), x, y) <==> n >= 2
  {
    var s := New(width, height);
    var r := RenderN(s, ConstantOrange(), n);
    if n == 0 {
      assert r == s;
    } else {
      GenerationLag(s, ConstantOrange(), n);
      var current := r.Buffer(r.current);
      assert current.InBounds(x, y);
      if n == 1 {
        assert current == Fresh(width, height);
      } else {
        var before := Iterate(ConstantOrange(), n - 2, s.pong);
        assert current == Step(ConstantOrange(), before);
        assert current.rows[y][x] == ConstantOrange()(before, x, y);
      }
    }
  }
}

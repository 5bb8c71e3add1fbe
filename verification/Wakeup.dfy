/**
 Frames and the notification pipe of `SharedQueue`.

 Writer and reader agree on the size of the k-th frame, every write notifies and every read
 clears one notification. Then reads return the written frames one for one. The pipe never
 falls behind the queue, so that an empty pipe means an empty queue, exactly when the pipe
 can hold more bytes than the ring can hold frames.
 */
module Wakeup {
  import opened Bits
  import opened RingBuffers
  import opened Spsc
  import opened Sequences

  /** Piece number `r` is found right after the pieces before it. */
  lemma {:induction false} ConcatAt(ps: seq<seq<byte>>, r: nat)
    requires r < |ps|
    ensures var k := |Concat(ps[..r])|;
            k + |ps[r]| <= |Concat(ps)| && Concat(ps)[k..k + |ps[r]|] == ps[r]
  {
    var init := ps[..|ps| - 1];
    if r == |ps| - 1 {
    } else {
      ConcatAt(init, r);
      assert init[..r] == ps[..r];
    }
  }

  /** Frames of at least `f` bytes: many frames are many bytes. */
  lemma {:induction false} ConcatGrows(ps: seq<seq<byte>>, r: nat, f: nat)
    requires r <= |ps| && forall k :: 0 <= k < |ps| ==> |ps[k]| >= f
    ensures f * (|ps| - r) + |Concat(ps[..r])| <= |Concat(ps)|
    decreases |ps|
  {
    if r == |ps| {
      assert ps[..r] == ps;
    } else {
      var init := ps[..|ps| - 1];
      ConcatGrows(init, r, f);
      assert init[..r] == ps[..r];
      assert f * (|ps| - r) == f * (|init| - r) + f;
    }
  }

  // ---------- the discipline ----------

  ghost predicate Sizes(sizes: nat -> nat, f: nat) {
    f > 0 && forall k: nat :: sizes(k) >= f
  }

  /** The calls the two threads make: the agreed sizes, notifying and clearing. */
  predicate Obeys(c: Conf, a: Action, sizes: nat -> nat) {
    match a
    case TryWrite(data, notify) => notify && |data| == sizes(|c.log.wrote|)
    case TryRead(want, clear) => clear && want == sizes(|c.log.read|)
    case StartWrite(_) => false
    case StartRead(_) => false
    case _ => true
  }

  predicate Disciplined(c: Conf, sch: seq<Action>, sizes: nat -> nat)
    requires Legal(c, sch)
    decreases |sch|
  {
    sch == [] || (Obeys(c, sch[0], sizes) && Disciplined(Next(c, sch[0]), sch[1..], sizes))
  }

  /** The bytes are those of the frames, the frames have the agreed sizes, and reads lag behind. */
  ghost predicate LogOk(log: Log, sizes: nat -> nat) {
    && log.sent == Concat(log.wrote) && log.got == Concat(log.read)
    && (forall k :: 0 <= k < |log.wrote| ==> |log.wrote[k]| == sizes(k))
    && log.read <= log.wrote
  }

  ghost predicate Frames(c: Conf, sizes: nat -> nat) {
    var s, log := c.s, c.log;
    && LogOk(log, sizes)
    && (match s.p
        case Admitted(data, kind) => kind == Queued(true) && |data| == sizes(|log.wrote|)
        case Filling(data, kind, _, _) => kind == Queued(true) && |data| == sizes(|log.wrote|)
        case Announcing => |log.wrote| > 0
        case Resting => true)
    && (match s.c
        case Cleared(want, kind) => kind == Queued(true) && want == sizes(|log.read|)
        case Draining(want, kind, _, _) => kind == Queued(true) && want == sizes(|log.read|)
        case Acknowledging => |log.read| > 0
        case Waiting => true)
  }

  ghost predicate Framed(c: Conf, order: nat, sizes: nat -> nat) {
    Inv(c, order) && Frames(c, sizes)
  }

  lemma LogWrote(log: Log, x: seq<byte>, sizes: nat -> nat)
    requires LogOk(log, sizes) && |x| == sizes(|log.wrote|) > 0
    ensures LogOk(log.(sent := log.sent + x, wrote := log.wrote + [x]), sizes)
  {
    ConcatSnoc(log.wrote, x);
  }

  lemma LogRead(log: Log, x: seq<byte>, sizes: nat -> nat)
    requires LogOk(log, sizes) && |log.read| < |log.wrote| && x == log.wrote[|log.read|]
    ensures LogOk(log.(got := log.got + x, read := log.read + [x]), sizes)
  {
    ConcatSnoc(log.read, x);
  }

  lemma FramedPublishIn(c: Conf, order: nat, sizes: nat -> nat, f: nat)
    requires Framed(c, order, sizes) && Sizes(sizes, f) && Enabled(c.s, PublishIn)
    ensures Framed(Next(c, PublishIn), order, sizes)
    ensures Next(c, PublishIn).log.wrote == c.log.wrote + [c.s.p.data]
  {
    PublishInKeeps(c, order);
    var x := c.s.p.data;
    assert x[..c.s.p.len] == x;
    LogWrote(c.log, x, sizes);
    assert Next(c, PublishIn).log == c.log.(sent := c.log.sent + x, wrote := c.log.wrote + [x]);
  }

  lemma AllRead(log: Log)
    requires log.read <= log.wrote && |log.read| == |log.wrote|
    ensures log.read == log.wrote
  {
  }

  /** While bytes are waiting, the first of them are the oldest frame not yet read. */
  lemma NextPiece(log: Log, sizes: nat -> nat)
    requires LogOk(log, sizes) && |log.got| < |log.sent|
    ensures var r, g := |log.read|, |log.got|;
            && r < |log.wrote| && g + sizes(r) <= |log.sent|
            && log.sent[g..g + sizes(r)] == log.wrote[r]
  {
    var r := |log.read|;
    if r == |log.wrote| { AllRead(log); }
    assert log.wrote[..r] == log.read;
    ConcatAt(log.wrote, r);
  }

  lemma DrainsWhole(c: Conf, order: nat, sizes: nat -> nat, f: nat)
    requires Framed(c, order, sizes) && Sizes(sizes, f) && c.s.c.Draining?
    ensures c.s.c.len == sizes(|c.log.read|) && |c.log.got| < |c.log.sent|
  {
  }

  /** A read about to publish holds the oldest frame not yet read. */
  lemma NextFrame(c: Conf, order: nat, sizes: nat -> nat, f: nat)
    requires Framed(c, order, sizes) && Sizes(sizes, f) && Enabled(c.s, PublishOut)
    ensures |c.log.read| < |c.log.wrote| && Taken(c.s.c.len, c.s.c.taken) == c.log.wrote[|c.log.read|]
  {
    DrainsWhole(c, order, sizes, f);
    PublishOutKeeps(c, order);
    NextPiece(c.log, sizes);
  }

  /** The read that publishes now returns the oldest frame not yet read. */
  lemma FramedPublishOut(c: Conf, order: nat, sizes: nat -> nat, f: nat)
    requires Framed(c, order, sizes) && Sizes(sizes, f) && Enabled(c.s, PublishOut)
    ensures Framed(Next(c, PublishOut), order, sizes)
    ensures |c.log.read| < |c.log.wrote|
    ensures Next(c, PublishOut).log.read == c.log.read + [c.log.wrote[|c.log.read|]]
  {
    PublishOutKeeps(c, order);
    NextFrame(c, order, sizes, f);
    LogRead(c.log, c.log.wrote[|c.log.read|], sizes);
  }

  lemma StepFramed(c: Conf, a: Action, order: nat, sizes: nat -> nat, f: nat)
    requires Framed(c, order, sizes) && Sizes(sizes, f) && Enabled(c.s, a) && Obeys(c, a, sizes)
    ensures Framed(Next(c, a), order, sizes)
  {
    match a
    case PublishIn => FramedPublishIn(c, order, sizes, f);
    case PublishOut => FramedPublishOut(c, order, sizes, f);
    case _ => StepKeeps(c, a, order);
  }

  // ---------- the pipe ----------

  /** Writes that have finished notifying, and reads that have finished clearing. */
  function Notified(c: Conf): int {
    |c.log.wrote| - (if c.s.p.Announcing? then 1 else 0)
  }

  function Completed(c: Conf): int {
    |c.log.read| - (if c.s.c.Acknowledging? then 1 else 0)
  }

  /** The pipe is level with the calls, or one notification ahead. */
  ghost predicate PipeOk(c: Conf) {
    Notified(c) - Completed(c) <= c.s.pipe <= Notified(c) - Completed(c) + 1
  }

  lemma QuotientBound(n: nat, f: nat, m: nat)
    requires f > 0
    ensures f * n <= m <==> n <= m / f
  {
    var d := n - m / f;
    MulBound(f, d);
    assert f * d == f * n - f * (m / f);
  }

  lemma FramesHeld(c: Conf, order: nat, sizes: nat -> nat, f: nat)
    requires Framed(c, order, sizes) && Sizes(sizes, f)
    ensures |c.log.wrote| - |c.log.read| <= c.s.size / f
  {
    var log := c.log;
    ConcatGrows(log.wrote, |log.read|, f);
    assert log.wrote[..|log.read|] == log.read;
    var n := |log.wrote| - |log.read|;
    assert f * n <= c.s.size;
    QuotientBound(n, f, c.s.size);
  }

  lemma StepPipe(c: Conf, a: Action, order: nat, sizes: nat -> nat, f: nat)
    requires Framed(c, order, sizes) && Sizes(sizes, f) && Enabled(c.s, a) && Obeys(c, a, sizes)
    requires PipeOk(c) && c.s.pipeCap > c.s.size / f
    ensures PipeOk(Next(c, a)) && Next(c, a).s.pipeCap > Next(c, a).s.size / f
  {
    match a
    case PublishIn => FramedPublishIn(c, order, sizes, f);
    case PublishOut => FramedPublishOut(c, order, sizes, f);
    case Notify => FramesHeld(c, order, sizes, f);
    case _ =>
  }

  lemma {:induction false} RunFramed(c: Conf, sch: seq<Action>, order: nat, sizes: nat -> nat, f: nat)
    requires Framed(c, order, sizes) && Sizes(sizes, f) && Legal(c, sch) && Disciplined(c, sch, sizes)
    ensures Framed(Run(c, sch), order, sizes)
    ensures PipeOk(c) && c.s.pipeCap > c.s.size / f ==> PipeOk(Run(c, sch))
    decreases |sch|
  {
    if sch != [] {
      StepFramed(c, sch[0], order, sizes, f);
      if PipeOk(c) && c.s.pipeCap > c.s.size / f { StepPipe(c, sch[0], order, sizes, f); }
      RunFramed(Next(c, sch[0]), sch[1..], order, sizes, f);
    }
  }

  // ---------- main results ----------

  /** In every interleaving the reads return the written frames, in order, and whole. */
  lemma ReadsRecoverFrames(order: nat, cells: seq<byte>, pipeCap: nat, sch: seq<Action>, sizes: nat -> nat)
    requires order < WORD_BITS && |cells| == Pow2(order) && forall k: nat :: sizes(k) > 0
    requires Legal(Initial(order, cells, pipeCap), sch) && Disciplined(Initial(order, cells, pipeCap), sch, sizes)
    ensures Run(Initial(order, cells, pipeCap), sch).log.read <= Run(Initial(order, cells, pipeCap), sch).log.wrote
  {
    InitialInv(order, cells, pipeCap);
    RunFramed(Initial(order, cells, pipeCap), sch, order, sizes, 1);
  }

  /**
   With a large enough pipe, in every interleaving, the notifications in the pipe exceed the
   notified writes less the completed reads by nothing or by one.
   */
  lemma PipeKeepsLevel(order: nat, cells: seq<byte>, pipeCap: nat, sch: seq<Action>, sizes: nat -> nat, f: nat)
    requires order < WORD_BITS && |cells| == Pow2(order) && Sizes(sizes, f) && pipeCap > |cells| / f
    requires Legal(Initial(order, cells, pipeCap), sch) && Disciplined(Initial(order, cells, pipeCap), sch, sizes)
    ensures PipeOk(Run(Initial(order, cells, pipeCap), sch))
  {
    InitialInv(order, cells, pipeCap);
    RunFramed(Initial(order, cells, pipeCap), sch, order, sizes, f);
  }

  /** No call is in progress, no notification is waiting, yet frames are: nobody will wake up. */
  predicate LostWakeup(c: Conf) {
    c.s.p.Resting? && c.s.c.Waiting? && c.s.pipe == 0 && Queue(c.log) != []
  }

  lemma LevelIsAwake(c: Conf, order: nat, sizes: nat -> nat)
    requires Framed(c, order, sizes) && PipeOk(c)
    ensures !LostWakeup(c)
  {
    if c.s.p.Resting? && c.s.c.Waiting? && c.s.pipe == 0 { AllRead(c.log); }
  }

  /** With a large enough pipe, no schedule leads there, whatever sizes the frames have. */
  lemma NoLostWakeup(order: nat, cells: seq<byte>, pipeCap: nat, sch: seq<Action>, sizes: nat -> nat, f: nat)
    requires order < WORD_BITS && |cells| == Pow2(order) && Sizes(sizes, f) && pipeCap > |cells| / f
    requires Legal(Initial(order, cells, pipeCap), sch) && Disciplined(Initial(order, cells, pipeCap), sch, sizes)
    ensures !LostWakeup(Run(Initial(order, cells, pipeCap), sch))
  {
    InitialInv(order, cells, pipeCap);
    RunFramed(Initial(order, cells, pipeCap), sch, order, sizes, f);
    LevelIsAwake(Run(Initial(order, cells, pipeCap), sch), order, sizes);
  }

  // ---------- the bound is sharp ----------

  /** Some disciplined schedule leads from one configuration to the other. */
  ghost predicate Reaches(c: Conf, d: Conf, sizes: nat -> nat) {
    exists sch: seq<Action> :: Legal(c, sch) && Disciplined(c, sch, sizes) && Run(c, sch) == d
  }

  lemma RunCons(c: Conf, a: Action, rest: seq<Action>, sizes: nat -> nat)
    requires Enabled(c.s, a) && Obeys(c, a, sizes) && Legal(Next(c, a), rest) && Disciplined(Next(c, a), rest, sizes)
    ensures var sch := [a] + rest;
            Legal(c, sch) && Disciplined(c, sch, sizes) && Run(c, sch) == Run(Next(c, a), rest)
  {
    assert ([a] + rest)[1..] == rest;
  }

  lemma {:induction false} RunAppend(c: Conf, a: seq<Action>, b: seq<Action>, sizes: nat -> nat)
    requires Legal(c, a) && Legal(Run(c, a), b)
    requires Disciplined(c, a, sizes) && Disciplined(Run(c, a), b, sizes)
    ensures Legal(c, a + b) && Disciplined(c, a + b, sizes) && Run(c, a + b) == Run(Run(c, a), b)
    decreases |a|
  {
    if a == [] {
      assert a + b == b;
    } else {
      RunAppend(Next(c, a[0]), a[1..], b, sizes);
      RunCons(c, a[0], a[1..] + b, sizes);
      assert a + b == [a[0]] + (a[1..] + b);
    }
  }

  lemma ReachesTrans(c: Conf, d: Conf, e: Conf, sizes: nat -> nat)
    requires Reaches(c, d, sizes) && Reaches(d, e, sizes)
    ensures Reaches(c, e, sizes)
  {
    var a: seq<Action> :| Legal(c, a) && Disciplined(c, a, sizes) && Run(c, a) == d;
    var b: seq<Action> :| Legal(d, b) && Disciplined(d, b, sizes) && Run(d, b) == e;
    RunAppend(c, a, b, sizes);
    assert Legal(c, a + b);
  }

  lemma ReachesSelf(c: Conf, sizes: nat -> nat)
    ensures Reaches(c, c, sizes)
  {
    var sch: seq<Action> := [];
    assert Legal(c, sch) && Disciplined(c, sch, sizes) && Run(c, sch) == c;
  }

  lemma OneStep(d: Conf, a: Action, sizes: nat -> nat)
    requires Enabled(d.s, a) && Obeys(d, a, sizes)
    ensures Reaches(d, Next(d, a), sizes)
  {
    RunCons(d, a, [], sizes);
    assert [a] + [] == [a] && Run(d, [a]) == Next(d, a);
  }

  /** One more step after a reachable configuration. */
  lemma Extend(c: Conf, d: Conf, a: Action, order: nat, sizes: nat -> nat, f: nat)
    requires Reaches(c, d, sizes) && Enabled(d.s, a) && Obeys(d, a, sizes)
    requires Framed(d, order, sizes) && Sizes(sizes, f)
    ensures Reaches(c, Next(d, a), sizes) && Framed(Next(d, a), order, sizes)
  {
    OneStep(d, a, sizes);
    ReachesTrans(c, d, Next(d, a), sizes);
    StepFramed(d, a, order, sizes, f);
  }

  /** The consumer's half of two configurations agrees. */
  predicate SameReader(c: Conf, d: Conf) {
    d.s.c == c.s.c && d.log.read == c.log.read && d.s.size == c.s.size && d.s.pipeCap == c.s.pipeCap
  }

  predicate SameWriter(c: Conf, d: Conf) {
    d.s.p == c.s.p && d.log.wrote == c.log.wrote && d.s.size == c.s.size && d.s.pipeCap == c.s.pipeCap
  }

  function Below(k: nat): (r: set<nat>)
    ensures forall i: nat :: i in r <==> i < k
  {
    if k == 0 then {} else Below(k - 1) + {k - 1}
  }

  lemma FillOne(d: Conf, k: nat, order: nat)
    requires Inv(d, order) && d.s.p.Filling? && k < d.s.p.len && d.s.p.done == Below(k)
    ensures Enabled(d.s, CopyIn(k))
    ensures var e := Next(d, CopyIn(k));
            && SameReader(d, e) && e.log == d.log && e.s.pipe == d.s.pipe
            && e.s.p.Filling? && e.s.p.data == d.s.p.data && e.s.p.kind == d.s.p.kind && e.s.p.len == d.s.p.len
            && e.s.p.done == Below(k + 1)
  {
    CopyInFills(d, k, order);
  }

  lemma {:induction false} FinishFilling(c: Conf, d: Conf, k: nat, order: nat, sizes: nat -> nat, f: nat)
    returns (e: Conf)
    requires Reaches(c, d, sizes) && Framed(d, order, sizes) && Sizes(sizes, f) && d.s.p.Filling?
    requires k <= d.s.p.len && d.s.p.done == Below(k)
    ensures Reaches(c, e, sizes) && Framed(e, order, sizes)
    ensures SameReader(d, e) && e.log == d.log && e.s.pipe == d.s.pipe
    ensures e.s.p.Filling? && e.s.p.data == d.s.p.data && e.s.p.kind == d.s.p.kind && Enabled(e.s, PublishIn)
    decreases d.s.p.len - k
  {
    if k == d.s.p.len { return d; }
    FillOne(d, k, order);
    Extend(c, d, CopyIn(k), order, sizes, f);
    e := FinishFilling(c, Next(d, CopyIn(k)), k + 1, order, sizes, f);
  }

  /** With room for the frame, a write can run up to its index update undisturbed. */
  lemma FillFrame(c: Conf, d: Conf, data: seq<byte>, order: nat, sizes: nat -> nat, f: nat)
    returns (e: Conf)
    requires Reaches(c, d, sizes) && Framed(d, order, sizes) && Sizes(sizes, f)
    requires d.s.p.Resting? && |data| == sizes(|d.log.wrote|) <= d.s.size - |Queue(d.log)|
    ensures Reaches(c, e, sizes) && Framed(e, order, sizes) && SameReader(d, e)
    ensures e.s.p.Filling? && e.s.p.data == data && e.s.p.kind == Queued(true) && Enabled(e.s, PublishIn)
    ensures e.log == d.log && e.s.pipe == d.s.pipe
  {
    Sampled(d, order);
    Extend(c, d, TryWrite(data, true), order, sizes, f);
    var d1 := Next(d, TryWrite(data, true));
    Extend(c, d1, SampleOut, order, sizes, f);
    var d2 := Next(d1, SampleOut);
    assert d2.s.p.done == Below(0);
    e := FinishFilling(c, d2, 0, order, sizes, f);
  }

  /** And then to its end. */
  lemma WriteFrame(c: Conf, d: Conf, data: seq<byte>, order: nat, sizes: nat -> nat, f: nat)
    returns (e: Conf)
    requires Reaches(c, d, sizes) && Framed(d, order, sizes) && Sizes(sizes, f)
    requires d.s.p.Resting? && |data| == sizes(|d.log.wrote|) <= d.s.size - |Queue(d.log)|
    ensures Reaches(c, e, sizes) && Framed(e, order, sizes) && SameReader(d, e)
    ensures e.s.p.Resting? && e.log.wrote == d.log.wrote + [data]
    ensures e.s.pipe == if d.s.pipe < d.s.pipeCap then d.s.pipe + 1 else d.s.pipe
  {
    var filled := FillFrame(c, d, data, order, sizes, f);
    FramedPublishIn(filled, order, sizes, f);
    Extend(c, filled, PublishIn, order, sizes, f);
    var published := Next(filled, PublishIn);
    Extend(c, published, Notify, order, sizes, f);
    e := Next(published, Notify);
  }

  lemma DrainOne(d: Conf, k: nat, order: nat)
    requires Inv(d, order) && d.s.c.Draining? && k < d.s.c.len && d.s.c.taken.Keys == Below(k)
    ensures Enabled(d.s, CopyOut(k))
    ensures var e := Next(d, CopyOut(k));
            && SameWriter(d, e) && e.log == d.log && e.s.pipe == d.s.pipe
            && e.s.c.Draining? && e.s.c.kind == d.s.c.kind && e.s.c.len == d.s.c.len
            && e.s.c.taken.Keys == Below(k + 1)
  {
    CellOfIsSlot(|d.log.got|, order, d.s.c.len, k);
  }

  lemma {:induction false} FinishDraining(c: Conf, d: Conf, k: nat, order: nat, sizes: nat -> nat, f: nat)
    returns (e: Conf)
    requires Reaches(c, d, sizes) && Framed(d, order, sizes) && Sizes(sizes, f) && d.s.c.Draining?
    requires k <= d.s.c.len && d.s.c.taken.Keys == Below(k)
    ensures Reaches(c, e, sizes) && Framed(e, order, sizes)
    ensures SameWriter(d, e) && e.log == d.log && e.s.pipe == d.s.pipe
    ensures e.s.c.Draining? && e.s.c.kind == d.s.c.kind && e.s.c.len == d.s.c.len && Enabled(e.s, PublishOut)
    decreases d.s.c.len - k
  {
    if k == d.s.c.len { return d; }
    DrainOne(d, k, order);
    Extend(c, d, CopyOut(k), order, sizes, f);
    e := FinishDraining(c, Next(d, CopyOut(k)), k + 1, order, sizes, f);
  }

  /** With a frame waiting, a read can run up to its index update undisturbed. */
  lemma ReadFrame(c: Conf, d: Conf, order: nat, sizes: nat -> nat, f: nat)
    returns (e: Conf)
    requires Reaches(c, d, sizes) && Framed(d, order, sizes) && Sizes(sizes, f)
    requires d.s.c.Waiting? && |d.log.read| < |d.log.wrote|
    ensures Reaches(c, e, sizes) && Framed(e, order, sizes) && SameWriter(d, e)
    ensures e.s.c.Acknowledging? && |e.log.read| == |d.log.read| + 1 && e.s.pipe == d.s.pipe
  {
    Sampled(d, order);
    var r := |d.log.read|;
    var want := sizes(r);
    assert want <= |d.log.sent| - |d.log.got| by {
      ConcatAt(d.log.wrote, r);
      assert d.log.wrote[..r] == d.log.read;
    }
    Extend(c, d, TryRead(want, true), order, sizes, f);
    var d1 := Next(d, TryRead(want, true));
    Sampled(d1, order);
    Extend(c, d1, SampleIn, order, sizes, f);
    var d2 := Next(d1, SampleIn);
    assert d2.s.c.taken.Keys == Below(0);
    var d3 := FinishDraining(c, d2, 0, order, sizes, f);
    FramedPublishOut(d3, order, sizes, f);
    Extend(c, d3, PublishOut, order, sizes, f);
    e := Next(d3, PublishOut);
  }

  // ---------- frames of one size ----------

  function Fixed(f: nat): nat -> nat {
    (k: nat) => f
  }

  lemma {:induction false} ConcatFixed(ps: seq<seq<byte>>, f: nat)
    requires forall k :: 0 <= k < |ps| ==> |ps[k]| == f
    ensures |Concat(ps)| == f * |ps|
  {
    if ps != [] {
      ConcatFixed(ps[..|ps| - 1], f);
      assert f * |ps| == f * (|ps| - 1) + f;
    }
  }

  lemma MulSub(f: nat, a: nat, b: nat)
    ensures f * (a - b) == f * a - f * b
  {
  }

  lemma FixedLog(log: Log, f: nat)
    requires LogOk(log, Fixed(f))
    ensures |log.sent| - |log.got| == f * (|log.wrote| - |log.read|)
  {
    ConcatFixed(log.wrote, f);
    ConcatFixed(log.read, f);
    MulSub(f, |log.wrote|, |log.read|);
  }

  lemma QueueFixed(c: Conf, order: nat, f: nat)
    requires Framed(c, order, Fixed(f))
    ensures |Queue(c.log)| == |c.log.sent| - |c.log.got| == f * (|c.log.wrote| - |c.log.read|)
  {
    FixedLog(c.log, f);
  }

  /** There is room for one more frame as long as fewer than `size / f` are held. */
  lemma RoomForFrame(c: Conf, order: nat, f: nat)
    requires Framed(c, order, Fixed(f)) && f > 0 && |c.log.wrote| - |c.log.read| < c.s.size / f
    ensures f <= c.s.size - |Queue(c.log)|
  {
    QueueFixed(c, order, f);
    var n := |c.log.wrote| - |c.log.read|;
    QuotientBound(n + 1, f, c.s.size);
    assert f * (n + 1) == f * n + f;
  }

  lemma WriteOne(c: Conf, d: Conf, order: nat, f: nat) returns (e: Conf)
    requires Reaches(c, d, Fixed(f)) && Framed(d, order, Fixed(f)) && f > 0 && d.s.p.Resting?
    requires |d.log.wrote| - |d.log.read| < d.s.size / f
    ensures Reaches(c, e, Fixed(f)) && Framed(e, order, Fixed(f)) && SameReader(d, e)
    ensures e.s.p.Resting? && |e.log.wrote| == |d.log.wrote| + 1
    ensures e.s.pipe == if d.s.pipe < d.s.pipeCap then d.s.pipe + 1 else d.s.pipe
  {
    RoomForFrame(d, order, f);
    e := WriteFrame(c, d, seq(f, _ => 0), order, Fixed(f), f);
  }

  lemma {:induction false} WriteMany(c: Conf, d: Conf, n: nat, order: nat, f: nat) returns (e: Conf)
    requires Reaches(c, d, Fixed(f)) && Framed(d, order, Fixed(f)) && f > 0 && d.s.p.Resting?
    requires |d.log.wrote| - |d.log.read| + n <= d.s.size / f && d.s.pipe <= d.s.pipeCap
    ensures Reaches(c, e, Fixed(f)) && Framed(e, order, Fixed(f)) && SameReader(d, e)
    ensures e.s.p.Resting? && |e.log.wrote| == |d.log.wrote| + n
    ensures e.s.pipe == Min(d.s.pipe + n, d.s.pipeCap)
    decreases n
  {
    if n == 0 { return d; }
    var d' := WriteOne(c, d, order, f);
    e := WriteMany(c, d', n - 1, order, f);
  }

  /** Each read of a waiting frame takes one notification out of the pipe. */
  lemma {:induction false} ReadMany(c: Conf, d: Conf, n: nat, order: nat, f: nat) returns (e: Conf)
    requires Reaches(c, d, Fixed(f)) && Framed(d, order, Fixed(f)) && f > 0 && d.s.c.Waiting?
    requires n <= |d.log.wrote| - |d.log.read| && n <= d.s.pipe
    ensures Reaches(c, e, Fixed(f)) && Framed(e, order, Fixed(f)) && SameWriter(d, e)
    ensures e.s.c.Waiting? && |e.log.read| == |d.log.read| + n && e.s.pipe == d.s.pipe - n
    decreases n
  {
    if n == 0 { return d; }
    var d1 := ReadFrame(c, d, order, Fixed(f), f);
    Extend(c, d1, ClearNotify, order, Fixed(f), f);
    e := ReadMany(c, Next(d1, ClearNotify), n - 1, order, f);
  }

  lemma StillHeld(c: Conf, order: nat, f: nat)
    requires Framed(c, order, Fixed(f)) && f > 0 && |c.log.read| < |c.log.wrote|
    ensures Queue(c.log) != []
  {
    QueueFixed(c, order, f);
    MulBound(f, |c.log.wrote| - |c.log.read|);
  }

  /**
   A pipe no larger than the number of frames the ring can hold loses a wake-up: fill the
   ring, take one frame out, and write once more before its notification is cleared.
   */
  lemma SmallPipeLosesWakeup(order: nat, cells: seq<byte>, pipeCap: nat, f: nat) returns (e: Conf)
    requires order < WORD_BITS && |cells| == Pow2(order) && f > 0 && 1 <= pipeCap <= |cells| / f
    ensures Reaches(Initial(order, cells, pipeCap), e, Fixed(f)) && LostWakeup(e)
  {
    var c, n := Initial(order, cells, pipeCap), |cells| / f;
    InitialInv(order, cells, pipeCap);
    ReachesSelf(c, Fixed(f));
    var full := WriteMany(c, c, n, order, f);
    var taken := ReadFrame(c, full, order, Fixed(f), f);
    var refilled := WriteOne(c, taken, order, f);
    Extend(c, refilled, ClearNotify, order, Fixed(f), f);
    e := ReadMany(c, Next(refilled, ClearNotify), pipeCap - 1, order, f);
    StillHeld(e, order, f);
  }

  /**
   No reachable state has lost a wake-up if and only if the pipe holds more bytes than the
   ring holds frames.
   */
  lemma WakeupThreshold(order: nat, cells: seq<byte>, pipeCap: nat, f: nat)
    requires order < WORD_BITS && |cells| == Pow2(order) && f > 0 && pipeCap > 0
    ensures (forall d: Conf :: Reaches(Initial(order, cells, pipeCap), d, Fixed(f)) ==> !LostWakeup(d))
            <==> pipeCap > |cells| / f
  {
    var c := Initial(order, cells, pipeCap);
    InitialInv(order, cells, pipeCap);
    if pipeCap > |cells| / f {
      forall d: Conf | Reaches(c, d, Fixed(f)) ensures !LostWakeup(d) {
        var sch: seq<Action> :| Legal(c, sch) && Disciplined(c, sch, Fixed(f)) && Run(c, sch) == d;
        RunFramed(c, sch, order, Fixed(f), f);
        LevelIsAwake(d, order, Fixed(f));
      }
    } else {
      var e := SmallPipeLosesWakeup(order, cells, pipeCap, f);
    }
  }
}

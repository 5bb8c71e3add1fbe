/**
 One producer thread and one consumer thread on the same queue, in every interleaving.

 A step of either thread makes at most one access to memory the other thread writes: it
 samples the other index, copies one byte, publishes its own index, or touches the
 notification pipe. The barriers of ring_buffer.cpp appear as the order of the steps; the
 bytes of one `memcpy` may be copied in any order.
 */
module Spsc {
  import opened Bits
  import opened RingBuffers

  /** A call made on the ring itself, or through `SharedQueue` with its notification flag. */
  datatype Kind = Direct | Queued(signal: bool)

  datatype Producer =
    | Resting
    | Admitted(data: seq<byte>, kind: Kind)
    | Filling(data: seq<byte>, kind: Kind, len: nat, done: set<nat>)
    | Announcing

  datatype Consumer =
    | Waiting
    | Cleared(want: nat, kind: Kind)
    | Draining(want: nat, kind: Kind, len: nat, taken: map<nat, byte>)
    | Acknowledging

  /** The shared memory, the pipe and both program counters; `fault` records a stray access. */
  datatype State = State(
    size: u64, cells: seq<byte>, inIndex: u64, outIndex: u64,
    pipe: nat, pipeCap: nat, p: Producer, c: Consumer, fault: bool)

  datatype Action =
    | TryWrite(data: seq<byte>, notify: bool)
    | StartWrite(data: seq<byte>)
    | SampleOut
    | CopyIn(i: nat)
    | PublishIn
    | Notify
    | TryRead(want: nat, clear: bool)
    | StartRead(want: nat)
    | SampleIn
    | CopyOut(i: nat)
    | PublishOut
    | ClearNotify

  /** What the calls have returned so far: bytes and pieces, in the order they took effect. */
  datatype Log = Log(sent: seq<byte>, got: seq<byte>, wrote: seq<seq<byte>>, read: seq<seq<byte>>)

  datatype Conf = Conf(s: State, log: Log)

  lemma SizeFits(order: nat)
    requires order < WORD_BITS
    ensures Pow2(order) < WORD
  {
    Pow2Word();
    Pow2Mono(order, WORD_BITS);
  }

  function Initial(order: nat, cells: seq<byte>, pipeCap: nat): Conf
    requires order < WORD_BITS && |cells| == Pow2(order)
  {
    SizeFits(order);
    Conf(State(|cells|, cells, 0, 0, 0, pipeCap, Resting, Waiting, false), Log([], [], [], []))
  }

  /** Where byte `i` of a two-piece copy of `len` bytes lies. */
  function CellOf(index: u64, size: u64, len: nat, i: nat): int
    requires size > 0
  {
    var at := And(index, size - 1);
    var l := if len <= size - at then len else size - at;
    if i < l then at + i else i - l
  }

  predicate Enabled(s: State, a: Action) {
    s.size > 0 &&
    match a
    case TryWrite(data, _) => s.p.Resting? && |data| < WORD
    case StartWrite(data) => s.p.Resting? && |data| < WORD
    case SampleOut => s.p.Admitted?
    case CopyIn(i) => s.p.Filling? && i < s.p.len && i < |s.p.data| && i !in s.p.done
    case PublishIn => s.p.Filling? && s.p.len <= |s.p.data| && forall i: nat :: i < s.p.len ==> i in s.p.done
    case Notify => s.p.Announcing?
    case TryRead(want, _) => s.c.Waiting? && want < WORD
    case StartRead(want) => s.c.Waiting? && want < WORD
    case SampleIn => s.c.Cleared?
    case CopyOut(i) => s.c.Draining? && i < s.c.len && i !in s.c.taken
    case PublishOut => s.c.Draining? && forall i: nat :: i < s.c.len ==> i in s.c.taken
    case ClearNotify => s.c.Acknowledging?
  }

  function Apply(s: State, a: Action): State
    requires Enabled(s, a)
  {
    match a
    case TryWrite(data, notify) =>
      if Sub(s.size, Sub(s.inIndex, s.outIndex)) < |data| then s
      else s.(p := Admitted(data, Queued(notify)))
    case StartWrite(data) => s.(p := Admitted(data, Direct))
    case SampleOut =>
      var len := Min(|s.p.data|, Add(Sub(s.size, s.inIndex), s.outIndex));
      s.(p := Filling(s.p.data, s.p.kind, len, {}))
    case CopyIn(i) =>
      var x := CellOf(s.inIndex, s.size, s.p.len, i);
      if 0 <= x < |s.cells|
      then s.(cells := s.cells[x := s.p.data[i]], p := s.p.(done := s.p.done + {i}))
      else s.(fault := true)
    case PublishIn =>
      s.(inIndex := Add(s.inIndex, s.p.len),
         p := if s.p.kind == Queued(true) && s.p.len > 0 then Announcing else Resting)
    case Notify => s.(pipe := if s.pipe < s.pipeCap then s.pipe + 1 else s.pipe, p := Resting)
    case TryRead(want, clear) =>
      if Sub(s.inIndex, s.outIndex) < want then s else s.(c := Cleared(want, Queued(clear)))
    case StartRead(want) => s.(c := Cleared(want, Direct))
    case SampleIn =>
      s.(c := Draining(s.c.want, s.c.kind, Min(s.c.want, Sub(s.inIndex, s.outIndex)), map[]))
    case CopyOut(i) =>
      var x := CellOf(s.outIndex, s.size, s.c.len, i);
      if 0 <= x < |s.cells| then s.(c := s.c.(taken := s.c.taken[i := s.cells[x]])) else s.(fault := true)
    case PublishOut =>
      s.(outIndex := Add(s.outIndex, s.c.len),
         c := if s.c.kind == Queued(true) && s.c.len > 0 then Acknowledging else Waiting)
    case ClearNotify => s.(pipe := if s.pipe > 0 then s.pipe - 1 else 0, c := Waiting)
  }

  /** The bytes in the caller's hands when a read returns. */
  function Taken(len: nat, taken: map<nat, byte>): (r: seq<byte>)
    requires forall i: nat :: i < len ==> i in taken
    ensures |r| == len && forall i: nat :: i < len ==> r[i] == taken[i]
  {
    seq(len, i requires 0 <= i < len => taken[i])
  }

  function Pieces(ps: seq<seq<byte>>, x: seq<byte>): seq<seq<byte>> {
    if x == [] then ps else ps + [x]
  }

  function Record(log: Log, s: State, a: Action): Log
    requires Enabled(s, a)
  {
    match a
    case PublishIn =>
      var x := s.p.data[..s.p.len];
      log.(sent := log.sent + x, wrote := Pieces(log.wrote, x))
    case PublishOut =>
      var x := Taken(s.c.len, s.c.taken);
      log.(got := log.got + x, read := Pieces(log.read, x))
    case _ => log
  }

  function Next(c: Conf, a: Action): Conf
    requires Enabled(c.s, a)
  {
    Conf(Apply(c.s, a), Record(c.log, c.s, a))
  }

  /** A schedule is a list of steps, each enabled when its turn comes. */
  predicate Legal(c: Conf, sch: seq<Action>)
    decreases |sch|
  {
    sch == [] || (Enabled(c.s, sch[0]) && Legal(Next(c, sch[0]), sch[1..]))
  }

  function Run(c: Conf, sch: seq<Action>): Conf
    requires Legal(c, sch)
    decreases |sch|
  {
    if sch == [] then c else Run(Next(c, sch[0]), sch[1..])
  }

  // ---------- the invariant ----------

  /** The bytes copied so far are in the cells of counters `n` and on. */
  ghost predicate FilledOk(cells: seq<byte>, n: nat, done: set<nat>, data: seq<byte>, len: nat)
    requires |cells| > 0 && len <= |data|
  {
    forall i: nat :: i in done ==> i < len && cells[Slot(n + i, |cells|)] == data[i]
  }

  ghost predicate ProducerOk(s: State, log: Log) {
    s.size == |s.cells| > 0 &&
    var room := |log.got| + s.size - |log.sent|;
    match s.p
    case Admitted(data, kind) => |data| < WORD && (kind.Queued? ==> |data| <= room)
    case Filling(data, kind, len, done) =>
      && len <= |data| && len <= room && (kind.Queued? ==> len == |data|)
      && FilledOk(s.cells, |log.sent|, done, data, len)
    case _ => true
  }

  ghost predicate ConsumerOk(s: State, log: Log) {
    var held := |log.sent| - |log.got|;
    match s.c
    case Cleared(want, kind) => want < WORD && (kind.Queued? ==> want <= held)
    case Draining(want, kind, len, taken) =>
      && len <= want && len <= held && (kind.Queued? ==> len == want)
      && (forall i: nat :: i in taken ==> i < len && taken[i] == log.sent[|log.got| + i])
    case _ => true
  }

  ghost predicate Inv(c: Conf, order: nat) {
    && Represents(c.s.cells, c.s.size, c.s.inIndex, c.s.outIndex, order, c.log.sent, |c.log.got|)
    && c.log.got <= c.log.sent
    && ProducerOk(c.s, c.log) && ConsumerOk(c.s, c.log)
    && !c.s.fault
  }

  lemma CellOfIsSlot(c: nat, order: nat, len: nat, i: nat)
    requires order < WORD_BITS && i < len <= Pow2(order)
    ensures Pow2(order) < WORD
    ensures CellOf(c % WORD, Pow2(order), len, i) == Slot(c + i, Pow2(order))
  {
    SizeFits(order);
    MaskedIndex(c, order);
    ModStep(c, i, Pow2(order));
  }

  /** The steps of a copy, one byte each and in any order, do what the two `memcpy` calls do. */
  lemma StepsMakeTwoPieces(cells: seq<byte>, index: u64, data: seq<byte>)
    requires 0 < |cells| < WORD && |data| <= |cells| && And(index, |cells| - 1) < |cells|
    ensures var at, after := And(index, |cells| - 1), TwoPiece(cells, And(index, |cells| - 1), data);
            && (forall i: nat :: i < |data| ==>
                  var x := CellOf(index, |cells|, |data|, i);
                  0 <= x < |cells| && after[x] == data[i] && Gather(cells, at, |data|)[i] == cells[x])
            && (forall x: nat :: x < |cells| && after[x] != cells[x] ==>
                  exists i: nat :: i < |data| && CellOf(index, |cells|, |data|, i) == x)
  {
    var at, after := And(index, |cells| - 1), TwoPiece(cells, And(index, |cells| - 1), data);
    forall x: nat | x < |cells| && after[x] != cells[x]
      ensures exists i: nat :: i < |data| && CellOf(index, |cells|, |data|, i) == x
    {
      var i := if at <= x < at + |data| then x - at else x + |cells| - at;
      assert i < |data| && CellOf(index, |cells|, |data|, i) == x;
    }
  }

  /** Filling the cell of counter `n + i` spares the bytes held and the bytes already filled. */
  lemma FillSpares(cells: seq<byte>, start: nat, n: nat, i: nat, j: nat, x: byte)
    requires |cells| > 0 && start <= n && n + i < start + |cells| && start <= j < start + |cells| && j != n + i
    ensures cells[Slot(n + i, |cells|) := x][Slot(j, |cells|)] == cells[Slot(j, |cells|)]
  {
    if j < n + i { ModDistinct(j, n + i, |cells|); } else { ModDistinct(n + i, j, |cells|); }
  }

  lemma FillKeepsWindow(cells: seq<byte>, sent: seq<byte>, start: nat, i: nat, x: byte)
    requires |cells| > 0 && start <= |sent| && |sent| + i < start + |cells| && Window(cells, sent, start)
    ensures Window(cells[Slot(|sent| + i, |cells|) := x], sent, start)
  {
    var cells' := cells[Slot(|sent| + i, |cells|) := x];
    forall j: nat | start <= j < |sent| ensures cells'[Slot(j, |cells|)] == sent[j] {
      FillSpares(cells, start, |sent|, i, j, x);
    }
  }

  lemma FillKeepsFilled(cells: seq<byte>, start: nat, n: nat, done: set<nat>, i: nat, data: seq<byte>, len: nat)
    requires |cells| > 0 && start <= n && n + len <= start + |cells| && i < len <= |data|
    requires FilledOk(cells, n, done, data, len)
    ensures FilledOk(cells[Slot(n + i, |cells|) := data[i]], n, done + {i}, data, len)
  {
    var cells' := cells[Slot(n + i, |cells|) := data[i]];
    forall k: nat | k in done + {i} ensures k < len && cells'[Slot(n + k, |cells|)] == data[k] {
      if k != i { FillSpares(cells, start, n, i, n + k, data[i]); }
    }
  }

  /** The configuration with byte `i` in the cell of its counter. */
  function Filled(c: Conf, i: nat): Conf
    requires c.s.p.Filling? && i < |c.s.p.data| && |c.s.cells| > 0
  {
    Conf(c.s.(cells := c.s.cells[Slot(|c.log.sent| + i, |c.s.cells|) := c.s.p.data[i]],
              p := c.s.p.(done := c.s.p.done + {i})), c.log)
  }

  lemma CopyInFills(c: Conf, i: nat, order: nat)
    requires Inv(c, order) && Enabled(c.s, CopyIn(i))
    ensures Next(c, CopyIn(i)) == Filled(c, i)
  {
    CellOfIsSlot(|c.log.sent|, order, c.s.p.len, i);
  }

  /** The invariant for other cells that hold the same bytes, and some more of those being filled. */
  lemma FilledInv(c: Conf, cells: seq<byte>, done: set<nat>, order: nat)
    requires Inv(c, order) && c.s.p.Filling? && |cells| == |c.s.cells| && Window(cells, c.log.sent, |c.log.got|)
    requires c.s.p.len <= |c.s.p.data| && |cells| > 0 && FilledOk(cells, |c.log.sent|, done, c.s.p.data, c.s.p.len)
    ensures Inv(Conf(c.s.(cells := cells, p := c.s.p.(done := done)), c.log), order)
  {
  }

  lemma FilledKeeps(c: Conf, i: nat, order: nat)
    requires Inv(c, order) && c.s.p.Filling? && i < c.s.p.len
    ensures Inv(Filled(c, i), order)
  {
    var s, log := c.s, c.log;
    FillKeepsWindow(s.cells, log.sent, |log.got|, i, s.p.data[i]);
    FillKeepsFilled(s.cells, |log.got|, |log.sent|, s.p.done, i, s.p.data, s.p.len);
    FilledInv(c, s.cells[Slot(|log.sent| + i, |s.cells|) := s.p.data[i]], s.p.done + {i}, order);
  }

  lemma CopyInKeeps(c: Conf, i: nat, order: nat)
    requires Inv(c, order) && Enabled(c.s, CopyIn(i))
    ensures Inv(Next(c, CopyIn(i)), order)
  {
    CopyInFills(c, i, order);
    FilledKeeps(c, i, order);
  }

  lemma CopyOutDrains(c: Conf, i: nat, order: nat)
    requires Inv(c, order) && Enabled(c.s, CopyOut(i))
    ensures Next(c, CopyOut(i)) ==
            Conf(c.s.(c := c.s.c.(taken := c.s.c.taken[i := c.log.sent[|c.log.got| + i]])), c.log)
  {
    CellOfIsSlot(|c.log.got|, order, c.s.c.len, i);
    assert c.s.cells[Slot(|c.log.got| + i, c.s.size)] == c.log.sent[|c.log.got| + i];
  }

  lemma CopyOutKeeps(c: Conf, i: nat, order: nat)
    requires Inv(c, order) && Enabled(c.s, CopyOut(i))
    ensures Inv(Next(c, CopyOut(i)), order)
  {
    CopyOutDrains(c, i, order);
  }

  /** What the consumer does can only enlarge the room a producer has found. */
  lemma ProducerStable(s: State, log: Log, s': State, log': Log)
    requires ProducerOk(s, log) && s'.p == s.p && s'.cells == s.cells && s'.size == s.size
    requires log'.sent == log.sent && |log'.got| >= |log.got|
    ensures ProducerOk(s', log')
  {
  }

  /** What the producer does can only enlarge the amount a consumer has found. */
  lemma ConsumerStable(s: State, log: Log, s': State, log': Log)
    requires ConsumerOk(s, log) && s'.c == s.c && log'.got == log.got && log.sent <= log'.sent
    ensures ConsumerOk(s', log')
  {
  }

  /** Once all bytes of the data have been filled, the window extends over them. */
  lemma FilledWindow(cells: seq<byte>, sent: seq<byte>, start: nat, data: seq<byte>, done: set<nat>)
    requires |cells| > 0 && start <= |sent| && Window(cells, sent, start)
    requires forall i: nat :: i < |data| ==> i in done
    requires forall i: nat :: i in done ==> i < |data| && cells[Slot(|sent| + i, |cells|)] == data[i]
    ensures Window(cells, sent + data, start)
  {
    forall j: nat | start <= j < |sent + data| ensures cells[Slot(j, |cells|)] == (sent + data)[j] {
      if j >= |sent| { assert j - |sent| in done; }
    }
  }

  lemma PublishInKeeps(c: Conf, order: nat)
    requires Inv(c, order) && Enabled(c.s, PublishIn)
    ensures Inv(Next(c, PublishIn), order)
  {
    var s, log, c' := c.s, c.log, Next(c, PublishIn);
    AdvanceIndex(|log.sent|, s.p.len);
    FilledWindow(s.cells, log.sent, |log.got|, s.p.data[..s.p.len], s.p.done);
    ConsumerStable(s, log, c'.s, c'.log);
  }

  lemma PublishOutKeeps(c: Conf, order: nat)
    requires Inv(c, order) && Enabled(c.s, PublishOut)
    ensures Inv(Next(c, PublishOut), order)
    ensures Taken(c.s.c.len, c.s.c.taken) == c.log.sent[|c.log.got|..|c.log.got| + c.s.c.len]
  {
    var s, log, c' := c.s, c.log, Next(c, PublishOut);
    AdvanceIndex(|log.got|, s.c.len);
    var x := Taken(s.c.len, s.c.taken);
    assert x == log.sent[|log.got|..|log.got| + s.c.len];
    assert log.got + x == log.sent[..|log.got| + s.c.len];
    ProducerStable(s, log, c'.s, c'.log);
  }

  /** The sampled amounts are exact when sampled. */
  lemma Sampled(c: Conf, order: nat)
    requires Inv(c, order)
    ensures Sub(c.s.inIndex, c.s.outIndex) == |c.log.sent| - |c.log.got|
    ensures Sub(c.s.size, Sub(c.s.inIndex, c.s.outIndex)) == c.s.size - (|c.log.sent| - |c.log.got|)
    ensures Add(Sub(c.s.size, c.s.inIndex), c.s.outIndex) == c.s.size - (|c.log.sent| - |c.log.got|)
  {
    FreeAmount(c.s.size, |c.log.sent|, |c.log.got|);
    HeldAmount(|c.log.sent|, |c.log.got|);
  }

  /** The rest of the invariant speaks of neither thread's progress nor of the pipe. */
  lemma ControlInv(c: Conf, p: Producer, d: Consumer, pipe: nat, order: nat)
    requires Inv(c, order)
    requires var s' := c.s.(p := p, c := d, pipe := pipe); ProducerOk(s', c.log) && ConsumerOk(s', c.log)
    ensures Inv(Conf(c.s.(p := p, c := d, pipe := pipe), c.log), order)
  {
  }

  /** The producer's steps that touch neither a cell nor an index. */
  lemma ProducerControlKeeps(c: Conf, a: Action, order: nat)
    requires Inv(c, order) && Enabled(c.s, a)
    requires a.TryWrite? || a.StartWrite? || a.SampleOut? || a.Notify?
    ensures Inv(Next(c, a), order)
  {
    Sampled(c, order);
    var s' := Apply(c.s, a);
    ControlInv(c, s'.p, s'.c, s'.pipe, order);
  }

  /** And the consumer's. */
  lemma ConsumerControlKeeps(c: Conf, a: Action, order: nat)
    requires Inv(c, order) && Enabled(c.s, a)
    requires a.TryRead? || a.StartRead? || a.SampleIn? || a.ClearNotify?
    ensures Inv(Next(c, a), order)
  {
    Sampled(c, order);
    var s' := Apply(c.s, a);
    ControlInv(c, s'.p, s'.c, s'.pipe, order);
  }

  /** Every step of either thread keeps the invariant. */
  lemma StepKeeps(c: Conf, a: Action, order: nat)
    requires Inv(c, order) && Enabled(c.s, a)
    ensures Inv(Next(c, a), order)
  {
    match a
    case CopyIn(i) => CopyInKeeps(c, i, order);
    case CopyOut(i) => CopyOutKeeps(c, i, order);
    case PublishIn => PublishInKeeps(c, order);
    case PublishOut => PublishOutKeeps(c, order);
    case TryWrite(_, _) => ProducerControlKeeps(c, a, order);
    case StartWrite(_) => ProducerControlKeeps(c, a, order);
    case SampleOut => ProducerControlKeeps(c, a, order);
    case Notify => ProducerControlKeeps(c, a, order);
    case _ => ConsumerControlKeeps(c, a, order);
  }

  lemma {:induction false} RunKeeps(c: Conf, sch: seq<Action>, order: nat)
    requires Inv(c, order) && Legal(c, sch)
    ensures Inv(Run(c, sch), order)
    decreases |sch|
  {
    if sch != [] {
      StepKeeps(c, sch[0], order);
      RunKeeps(Next(c, sch[0]), sch[1..], order);
    }
  }

  // ---------- main results ----------

  lemma InitialInv(order: nat, cells: seq<byte>, pipeCap: nat)
    requires order < WORD_BITS && |cells| == Pow2(order)
    ensures Inv(Initial(order, cells, pipeCap), order)
  {
    SizeFits(order);
  }

  /**
   In every interleaving, from any initial memory, what has been delivered is a prefix of
   what has been published, never more than a buffer behind, and no access strayed.
   */
  lemma DeliveredIsPrefix(order: nat, cells: seq<byte>, pipeCap: nat, sch: seq<Action>)
    requires order < WORD_BITS && |cells| == Pow2(order)
    requires Legal(Initial(order, cells, pipeCap), sch)
    ensures var end := Run(Initial(order, cells, pipeCap), sch);
            && end.log.got <= end.log.sent
            && |end.log.sent| <= |end.log.got| + |cells|
            && !end.s.fault
  {
    InitialInv(order, cells, pipeCap);
    RunKeeps(Initial(order, cells, pipeCap), sch, order);
  }

  /** The region being filled and the region being drained never share a cell. */
  lemma RegionsDisjoint(c: Conf, order: nat, i: nat, j: nat)
    requires Inv(c, order) && c.s.p.Filling? && c.s.c.Draining?
    requires i < c.s.p.len && j < c.s.c.len
    ensures CellOf(c.s.inIndex, c.s.size, c.s.p.len, i) != CellOf(c.s.outIndex, c.s.size, c.s.c.len, j)
  {
    CellOfIsSlot(|c.log.sent|, order, c.s.p.len, i);
    CellOfIsSlot(|c.log.got|, order, c.s.c.len, j);
    ModDistinct(|c.log.got| + j, |c.log.sent| + i, c.s.size);
  }

  // ---------- whole calls ----------

  /** The contents of the queue: published and not yet delivered. */
  function Queue(log: Log): seq<byte> {
    if |log.got| <= |log.sent| then log.sent[|log.got|..] else []
  }

  /** The room left in the queue. */
  function FreeSpace(c: Conf): nat {
    if |Queue(c.log)| <= c.s.size then c.s.size - |Queue(c.log)| else 0
  }

  /** The call of a write that starts with this step, if it is admitted: its data. */
  predicate StartsWrite(c: Conf, a: Action, data: seq<byte>, signals: bool) {
    && c.s.p.Resting?
    && ((a == StartWrite(data) && !signals)
        || (a == TryWrite(data, signals) && |data| <= c.s.size - |Queue(c.log)|))
  }

  predicate StartsRead(c: Conf, a: Action, want: nat, signals: bool) {
    && c.s.c.Waiting?
    && ((a == StartRead(want) && !signals) || (a == TryRead(want, signals) && want <= |Queue(c.log)|))
  }

  /** Before the producer samples, nothing changes its call. */
  lemma {:induction false} AdmittedLasts(c: Conf, sch: seq<Action>)
    requires c.s.p.Admitted? && Legal(c, sch) && SampleOut !in sch
    ensures Run(c, sch).s.p == c.s.p && Run(c, sch).log.sent == c.log.sent
    decreases |sch|
  {
    if sch != [] {
      assert sch[0] in sch;
      AdmittedLasts(Next(c, sch[0]), sch[1..]);
    }
  }

  predicate SameFilling(p: Producer, p': Producer) {
    p.Filling? && p'.Filling? && p'.data == p.data && p'.kind == p.kind && p'.len == p.len
  }

  /** And before it publishes, nothing changes what it will publish. */
  lemma {:induction false} FillingLasts(c: Conf, sch: seq<Action>)
    requires c.s.p.Filling? && Legal(c, sch) && PublishIn !in sch
    ensures SameFilling(c.s.p, Run(c, sch).s.p) && Run(c, sch).log.sent == c.log.sent
    decreases |sch|
  {
    if sch != [] {
      assert sch[0] in sch;
      FillingLasts(Next(c, sch[0]), sch[1..]);
    }
  }

  lemma {:induction false} ClearedLasts(c: Conf, sch: seq<Action>)
    requires c.s.c.Cleared? && Legal(c, sch) && SampleIn !in sch
    ensures Run(c, sch).s.c == c.s.c && Run(c, sch).log.got == c.log.got
    decreases |sch|
  {
    if sch != [] {
      assert sch[0] in sch;
      ClearedLasts(Next(c, sch[0]), sch[1..]);
    }
  }

  predicate SameDraining(d: Consumer, d': Consumer) {
    d.Draining? && d'.Draining? && d'.want == d.want && d'.kind == d.kind && d'.len == d.len
  }

  lemma {:induction false} DrainingLasts(c: Conf, sch: seq<Action>)
    requires c.s.c.Draining? && Legal(c, sch) && PublishOut !in sch
    ensures SameDraining(c.s.c, Run(c, sch).s.c) && Run(c, sch).log.got == c.log.got
    decreases |sch|
  {
    if sch != [] {
      assert sch[0] in sch;
      DrainingLasts(Next(c, sch[0]), sch[1..]);
    }
  }

  lemma Started(c: Conf, a: Action, data: seq<byte>, signals: bool, order: nat)
    requires Inv(c, order) && StartsWrite(c, a, data, signals) && Enabled(c.s, a)
    ensures var p := Next(c, a).s.p;
            p.Admitted? && p.data == data && (p.kind == Queued(true) <==> signals) && Next(c, a).log == c.log
  {
    Sampled(c, order);
  }

  lemma SampleOutFinds(c: Conf, order: nat)
    requires Inv(c, order) && c.s.p.Admitted?
    ensures Enabled(c.s, SampleOut)
    ensures Next(c, SampleOut).s.p
         == Filling(c.s.p.data, c.s.p.kind, Min(|c.s.p.data|, FreeSpace(c)), {})
    ensures Next(c, SampleOut).log == c.log
  {
    Sampled(c, order);
  }

  lemma PublishInAppends(c: Conf)
    requires Enabled(c.s, PublishIn)
    ensures var c', n := Next(c, PublishIn), c.s.p.len;
            && c'.log.sent == c.log.sent + c.s.p.data[..n]
            && c'.s.p == if c.s.p.kind == Queued(true) && n > 0 then Announcing else Resting
  {
  }

  /**
   A whole write, whatever the other thread does in between: from its first step `a`, through
   any steps `pre` before the producer samples and `mid` before it publishes, it appends the
   first bytes of the data it was given, as many as there was room for when it sampled; and it
   goes on to notify if it was asked to and wrote anything.
   */
  lemma WholeWrite(c: Conf, a: Action, pre: seq<Action>, mid: seq<Action>, data: seq<byte>, signals: bool, order: nat)
    requires Inv(c, order) && StartsWrite(c, a, data, signals) && Enabled(c.s, a)
    requires Legal(Next(c, a), pre) && SampleOut !in pre
    requires var d := Run(Next(c, a), pre);
             && Enabled(d.s, SampleOut) && Legal(Next(d, SampleOut), mid) && PublishIn !in mid
             && Enabled(Run(Next(d, SampleOut), mid).s, PublishIn)
    ensures var d := Run(Next(c, a), pre);
            var e := Next(Run(Next(d, SampleOut), mid), PublishIn);
            var n := Min(|data|, FreeSpace(d));
            && e.log.sent == c.log.sent + data[..n]
            && e.s.p == if signals && n > 0 then Announcing else Resting
  {
    Started(c, a, data, signals, order);
    StepKeeps(c, a, order);
    AdmittedLasts(Next(c, a), pre);
    RunKeeps(Next(c, a), pre, order);
    var d := Run(Next(c, a), pre);
    SampleOutFinds(d, order);
    FillingLasts(Next(d, SampleOut), mid);
    PublishInAppends(Run(Next(d, SampleOut), mid));
  }

  lemma StartedRead(c: Conf, a: Action, want: nat, signals: bool, order: nat)
    requires Inv(c, order) && StartsRead(c, a, want, signals) && Enabled(c.s, a)
    ensures var d := Next(c, a).s.c;
            d.Cleared? && d.want == want && (d.kind == Queued(true) <==> signals) && Next(c, a).log == c.log
  {
    Sampled(c, order);
  }

  lemma SampleInFinds(c: Conf, order: nat)
    requires Inv(c, order) && c.s.c.Cleared?
    ensures Enabled(c.s, SampleIn)
    ensures Next(c, SampleIn).s.c == Draining(c.s.c.want, c.s.c.kind, Min(c.s.c.want, |Queue(c.log)|), map[])
    ensures Next(c, SampleIn).log == c.log
  {
    Sampled(c, order);
  }

  lemma PublishOutTakes(c: Conf, order: nat)
    requires Inv(c, order) && Enabled(c.s, PublishOut)
    ensures var c', n := Next(c, PublishOut), c.s.c.len;
            && n <= |Queue(c.log)| && Taken(n, c.s.c.taken) == Queue(c.log)[..n]
            && c'.log.got == c.log.got + Queue(c.log)[..n]
            && c'.s.c == if c.s.c.kind == Queued(true) && n > 0 then Acknowledging else Waiting
  {
    PublishOutKeeps(c, order);
  }

  /**
   A whole read, whatever the other thread does in between: it removes the oldest bytes, as many
   as were asked for and held when it sampled, and hands over exactly these; and it goes on to
   clear a notification if it was asked to and read anything.
   */
  lemma WholeRead(c: Conf, a: Action, pre: seq<Action>, mid: seq<Action>, want: nat, signals: bool, order: nat)
    requires Inv(c, order) && StartsRead(c, a, want, signals) && Enabled(c.s, a)
    requires Legal(Next(c, a), pre) && SampleIn !in pre
    requires var d := Run(Next(c, a), pre);
             && Enabled(d.s, SampleIn) && Legal(Next(d, SampleIn), mid) && PublishOut !in mid
             && Enabled(Run(Next(d, SampleIn), mid).s, PublishOut)
    ensures var d := Run(Next(c, a), pre);
            var f := Run(Next(d, SampleIn), mid);
            var e := Next(f, PublishOut);
            var n := Min(want, |Queue(d.log)|);
            && n <= |Queue(f.log)| && Taken(f.s.c.len, f.s.c.taken) == Queue(f.log)[..n]
            && e.log.got == c.log.got + Queue(f.log)[..n]
            && e.s.c == if signals && n > 0 then Acknowledging else Waiting
  {
    StartedRead(c, a, want, signals, order);
    StepKeeps(c, a, order);
    ClearedLasts(Next(c, a), pre);
    RunKeeps(Next(c, a), pre, order);
    var d := Run(Next(c, a), pre);
    SampleInFinds(d, order);
    StepKeeps(d, SampleIn, order);
    DrainingLasts(Next(d, SampleIn), mid);
    RunKeeps(Next(d, SampleIn), mid, order);
    PublishOutTakes(Run(Next(d, SampleIn), mid), order);
  }

  // ---------- progress ----------

  /** A call in progress never waits for the other thread: its next step is always enabled. */
  lemma NeverStuck(c: Conf, order: nat)
    requires Inv(c, order)
    ensures c.s.p.Admitted? ==> Enabled(c.s, SampleOut)
    ensures c.s.p.Filling? ==> Enabled(c.s, PublishIn) || exists i: nat :: Enabled(c.s, CopyIn(i))
    ensures c.s.p.Announcing? ==> Enabled(c.s, Notify)
    ensures c.s.c.Cleared? ==> Enabled(c.s, SampleIn)
    ensures c.s.c.Draining? ==> Enabled(c.s, PublishOut) || exists i: nat :: Enabled(c.s, CopyOut(i))
    ensures c.s.c.Acknowledging? ==> Enabled(c.s, ClearNotify)
  {
    if c.s.p.Filling? && !Enabled(c.s, PublishIn) {
      var i: nat :| i < c.s.p.len && i !in c.s.p.done;
      assert Enabled(c.s, CopyIn(i));
    }
    if c.s.c.Draining? && !Enabled(c.s, PublishOut) {
      var i: nat :| i < c.s.c.len && i !in c.s.c.taken;
      assert Enabled(c.s, CopyOut(i));
    }
  }

  predicate ByProducer(a: Action) {
    a.TryWrite? || a.StartWrite? || a.SampleOut? || a.CopyIn? || a.PublishIn? || a.Notify?
  }

  /** The steps of a schedule that the producer takes, or else the consumer. */
  function Steps(sch: seq<Action>, producer: bool): nat {
    if sch == [] then 0 else (if ByProducer(sch[0]) == producer then 1 else 0) + Steps(sch[1..], producer)
  }

  /** How many more steps the producer's call can take, and the consumer's. */
  function ProducerLeft(p: Producer): int {
    match p
    case Resting => 0
    case Admitted(data, _) => |data| + 3
    case Filling(_, _, len, done) => len - |done| + 2
    case Announcing => 1
  }

  function ConsumerLeft(c: Consumer): int {
    match c
    case Waiting => 0
    case Cleared(want, _) => want + 3
    case Draining(_, _, len, taken) => len - |taken.Keys| + 2
    case Acknowledging => 1
  }

  predicate Busy(c: Conf, producer: bool) {
    if producer then !c.s.p.Resting? else !c.s.c.Waiting?
  }

  function Left(c: Conf, producer: bool): int {
    if producer then ProducerLeft(c.s.p) else ConsumerLeft(c.s.c)
  }

  /** The call in progress has not ended before the schedule does. */
  predicate Lasts(c: Conf, sch: seq<Action>, producer: bool)
    requires Legal(c, sch)
    decreases |sch|
  {
    sch == [] || (Busy(c, producer) && Lasts(Next(c, sch[0]), sch[1..], producer))
  }

  lemma {:induction false} FewBelow(xs: set<nat>, n: nat)
    requires forall x :: x in xs ==> x < n
    ensures |xs| <= n
  {
    if n > 0 {
      FewBelow(xs - {n - 1}, n - 1);
      if n - 1 in xs { assert xs == (xs - {n - 1}) + {n - 1}; }
    } else {
      assert xs == {};
    }
  }

  lemma LeftIsNat(c: Conf, order: nat, producer: bool)
    requires Inv(c, order)
    ensures Left(c, producer) >= if Busy(c, producer) then 1 else 0
    ensures c.s.p.Filling? ==> ProducerLeft(c.s.p) >= 2
    ensures c.s.c.Draining? ==> ConsumerLeft(c.s.c) >= 2
  {
    if c.s.p.Filling? { FewBelow(c.s.p.done, c.s.p.len); }
    if c.s.c.Draining? { FewBelow(c.s.c.taken.Keys, c.s.c.len); }
  }

  lemma ProducerUsesUp(s: State, a: Action)
    requires Enabled(s, a) && !s.p.Resting? && !Apply(s, a).fault
    requires s.p.Filling? ==> ProducerLeft(s.p) >= 2
    ensures var p' := Apply(s, a).p;
            if ByProducer(a) then ProducerLeft(p') <= ProducerLeft(s.p) - 1 else p' == s.p
  {
    if a.CopyIn? { assert |s.p.done + {a.i}| == |s.p.done| + 1; }
  }

  lemma OneMoreKey(m: map<nat, byte>, i: nat, x: byte)
    requires i !in m
    ensures |m[i := x].Keys| == |m.Keys| + 1
  {
    assert m[i := x].Keys == m.Keys + {i};
  }

  lemma ConsumerUsesUp(s: State, a: Action)
    requires Enabled(s, a) && !s.c.Waiting? && !Apply(s, a).fault
    requires s.c.Draining? ==> ConsumerLeft(s.c) >= 2
    ensures var c' := Apply(s, a).c;
            if !ByProducer(a) then ConsumerLeft(c') <= ConsumerLeft(s.c) - 1 else c' == s.c
  {
    if a.CopyOut? {
      var x := CellOf(s.outIndex, s.size, s.c.len, a.i);
      if 0 <= x < |s.cells| { OneMoreKey(s.c.taken, a.i, s.cells[x]); }
    }
  }

  /** A thread's own steps use up what is left of its call; the other thread's do not touch it. */
  lemma StepUsesUp(c: Conf, a: Action, order: nat, producer: bool)
    requires Inv(c, order) && Enabled(c.s, a) && Busy(c, producer)
    ensures if ByProducer(a) == producer then Left(Next(c, a), producer) <= Left(c, producer) - 1
            else Left(Next(c, a), producer) == Left(c, producer)
  {
    StepKeeps(c, a, order);
    LeftIsNat(c, order, producer);
    if producer { ProducerUsesUp(c.s, a); } else { ConsumerUsesUp(c.s, a); }
  }

  /**
   Calls are wait-free: as long as a call lasts, its thread takes at most three steps more
   than it has bytes to transfer, whatever the other thread does in between.
   */
  lemma {:induction false} WaitFree(c: Conf, sch: seq<Action>, order: nat, producer: bool)
    requires Inv(c, order) && Legal(c, sch) && Lasts(c, sch, producer)
    ensures Steps(sch, producer) <= Left(c, producer)
    decreases |sch|
  {
    LeftIsNat(c, order, producer);
    if sch != [] {
      StepKeeps(c, sch[0], order);
      StepUsesUp(c, sch[0], order, producer);
      WaitFree(Next(c, sch[0]), sch[1..], order, producer);
    }
  }

  // ---------- the queue ----------

  /**
   Each operation takes effect at its index update. Seen through the contents, the machine is
   a bounded FIFO whose writes append a prefix of their data and whose reads remove from the
   front exactly the bytes they hand over; no other step changes the contents.
   */
  lemma Linearizes(c: Conf, a: Action, order: nat)
    requires Inv(c, order) && Enabled(c.s, a)
    ensures var q, q' := Queue(c.log), Queue(Next(c, a).log);
            && |q'| <= c.s.size
            && match a
               case PublishIn => q' == q + c.s.p.data[..c.s.p.len]
               case PublishOut => q == Taken(c.s.c.len, c.s.c.taken) + q'
               case _ => q' == q
  {
    StepKeeps(c, a, order);
    if a.PublishOut? { PublishOutKeeps(c, order); }
  }

  /** What a call of `SharedQueue` returns at its index update. */
  function QueueResult(len: nat): int {
    if len == 0 then -1 else len
  }

  /**
   `SharedQueue` calls are all or nothing. A call is refused exactly when there is not room
   (or not data) enough at that moment, and then nothing changes; once admitted, whatever the
   other thread does meanwhile, the whole request is transferred.
   */
  lemma AllOrNothing(c: Conf, a: Action, order: nat)
    requires Inv(c, order) && Enabled(c.s, a)
    ensures a.TryWrite? ==>
              if |a.data| > c.s.size - |Queue(c.log)| then Next(c, a) == c else Next(c, a).s.p.Admitted?
    ensures a.TryRead? ==>
              if a.want > |Queue(c.log)| then Next(c, a) == c else Next(c, a).s.c.Cleared?
    ensures a.PublishIn? && c.s.p.kind.Queued? ==>
              && c.s.p.data[..c.s.p.len] == c.s.p.data
              && QueueResult(c.s.p.len) == (if c.s.p.data == [] then -1 else |c.s.p.data|)
              && (QueueResult(c.s.p.len) == -1 ==> Next(c, a).log == c.log && Next(c, a).s.inIndex == c.s.inIndex)
    ensures a.PublishOut? && c.s.c.kind.Queued? ==>
              && |Taken(c.s.c.len, c.s.c.taken)| == c.s.c.want
              && QueueResult(c.s.c.len) == (if c.s.c.want == 0 then -1 else c.s.c.want)
              && (QueueResult(c.s.c.len) == -1 ==> Next(c, a).log == c.log && Next(c, a).s.outIndex == c.s.outIndex)
  {
    match a
    case PublishIn => assert c.log.sent + [] == c.log.sent;
    case PublishOut => assert c.log.got + [] == c.log.got;
    case _ => Sampled(c, order);
  }
}

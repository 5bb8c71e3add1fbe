/**
 timer.h and timer.cpp: a list of periodic callbacks, scanned with a clock value, from which
 callbacks that return 1 are erased during the scan.
 */
module Timers {
  import opened Bits
  import opened Sequences

  const MAX_TIMERS: nat := 1000

  /** A pointer; zero is NULL. */
  type Pointer = nat

  datatype Timer = Timer(interval: nat, last: int, callback: Pointer, arg: Pointer) {
    predicate IsValid() {
      interval != 0 && callback != 0
    }

    /** The source's `operator ==`, in which an invalid timer equals anything. */
    predicate Equals(rhs: Timer) {
      !IsValid() || (interval == rhs.interval && callback == rhs.callback && arg == rhs.arg)
    }

    predicate Due(now: int) {
      now - last >= interval
    }

    predicate SameTriple(rhs: Timer) {
      interval == rhs.interval && callback == rhs.callback && arg == rhs.arg
    }
  }

  /** `answers(t)` is what the callback of timer number `t` of the pass returns if called. */
  type Answers = nat -> int

  // ---------- one pass ----------

  /** What becomes of the timer at position `k`: kept, kept with its clock set, or erased. */
  function After(t: Timer, k: nat, now: int, answers: Answers): seq<Timer> {
    if !t.Due(now) then [t]
    else if answers(k) == 1 then []
    else [t.(last := now)]
  }

  /** The list after a pass over the timers from position `k` on. */
  function Pass(ts: seq<Timer>, k: nat, now: int, answers: Answers): seq<Timer> {
    if ts == [] then [] else After(ts[0], k, now, answers) + Pass(ts[1..], k + 1, now, answers)
  }

  /** The positions called, in the order of the calls. */
  function Fired(ts: seq<Timer>, k: nat, now: int): seq<nat> {
    if ts == [] then []
    else (if ts[0].Due(now) then [k] else []) + Fired(ts[1..], k + 1, now)
  }

  /** Position `p` holds a timer of the list that is due. */
  predicate DueAt(ts: seq<Timer>, k: nat, now: int, p: nat) {
    k <= p < k + |ts| && ts[p - k].Due(now)
  }

  predicate Increasing(xs: seq<nat>) {
    forall i, j :: 0 <= i < j < |xs| ==> xs[i] < xs[j]
  }

  lemma {:induction false} FiredOnly(ts: seq<Timer>, k: nat, now: int, p: nat)
    requires p in Fired(ts, k, now)
    ensures DueAt(ts, k, now, p)
    decreases |ts|
  {
    if p in Fired(ts[1..], k + 1, now) { FiredOnly(ts[1..], k + 1, now, p); }
  }

  lemma {:induction false} FiredAll(ts: seq<Timer>, k: nat, now: int, p: nat)
    requires DueAt(ts, k, now, p)
    ensures p in Fired(ts, k, now)
    decreases |ts|
  {
    if p > k { FiredAll(ts[1..], k + 1, now, p); }
  }

  lemma {:induction false} FiredIncreases(ts: seq<Timer>, k: nat, now: int)
    ensures Increasing(Fired(ts, k, now))
    decreases |ts|
  {
    if ts != [] {
      var rest := Fired(ts[1..], k + 1, now);
      FiredIncreases(ts[1..], k + 1, now);
      forall i | 0 <= i < |rest| ensures k < rest[i] {
        FiredOnly(ts[1..], k + 1, now, rest[i]);
      }
    }
  }

  /** Exactly the due timers are called, each once, in the order of the list. */
  lemma FiresDueOnce(ts: seq<Timer>, k: nat, now: int)
    ensures forall p: nat :: p in Fired(ts, k, now) <==> DueAt(ts, k, now, p)
    ensures Increasing(Fired(ts, k, now))
  {
    forall p: nat ensures p in Fired(ts, k, now) <==> DueAt(ts, k, now, p) {
      if p in Fired(ts, k, now) { FiredOnly(ts, k, now, p); }
      if DueAt(ts, k, now, p) { FiredAll(ts, k, now, p); }
    }
    FiredIncreases(ts, k, now);
  }

  /** The position each surviving timer had before the pass. */
  function Kept(ts: seq<Timer>, k: nat, now: int, answers: Answers): seq<nat> {
    if ts == [] then []
    else (if ts[0].Due(now) && answers(k) == 1 then [] else [k]) + Kept(ts[1..], k + 1, now, answers)
  }

  /** The timer at position `p` is of the list, and was not called or did not return 1. */
  predicate StaysAt(ts: seq<Timer>, k: nat, now: int, answers: Answers, p: nat) {
    k <= p < k + |ts| && !(ts[p - k].Due(now) && answers(p) == 1)
  }

  lemma {:induction false} KeptOnly(ts: seq<Timer>, k: nat, now: int, answers: Answers, p: nat)
    requires p in Kept(ts, k, now, answers)
    ensures StaysAt(ts, k, now, answers, p)
    decreases |ts|
  {
    if p in Kept(ts[1..], k + 1, now, answers) { KeptOnly(ts[1..], k + 1, now, answers, p); }
  }

  lemma {:induction false} KeptAll(ts: seq<Timer>, k: nat, now: int, answers: Answers, p: nat)
    requires StaysAt(ts, k, now, answers, p)
    ensures p in Kept(ts, k, now, answers)
    decreases |ts|
  {
    if p > k { KeptAll(ts[1..], k + 1, now, answers, p); }
  }

  lemma {:induction false} KeptIncreases(ts: seq<Timer>, k: nat, now: int, answers: Answers)
    ensures Increasing(Kept(ts, k, now, answers))
    decreases |ts|
  {
    if ts != [] {
      var rest := Kept(ts[1..], k + 1, now, answers);
      KeptIncreases(ts[1..], k + 1, now, answers);
      forall i | 0 <= i < |rest| ensures k < rest[i] {
        KeptOnly(ts[1..], k + 1, now, answers, rest[i]);
      }
    }
  }

  /** They are all the timers but those whose callback was called and returned 1, in order. */
  lemma KeptStays(ts: seq<Timer>, k: nat, now: int, answers: Answers)
    ensures forall p: nat :: p in Kept(ts, k, now, answers) <==> StaysAt(ts, k, now, answers, p)
    ensures Increasing(Kept(ts, k, now, answers))
  {
    forall p: nat ensures p in Kept(ts, k, now, answers) <==> StaysAt(ts, k, now, answers, p) {
      if p in Kept(ts, k, now, answers) { KeptOnly(ts, k, now, answers, p); }
      if StaysAt(ts, k, now, answers, p) { KeptAll(ts, k, now, answers, p); }
    }
    KeptIncreases(ts, k, now, answers);
  }

  /** The timers at the given positions, the due ones with their clock set. */
  function Stamped(ts: seq<Timer>, k: nat, now: int, ks: seq<nat>): seq<Timer> {
    seq(|ks|, i requires 0 <= i < |ks| =>
      if k <= ks[i] < k + |ts| then
        (var t := ts[ks[i] - k]; if t.Due(now) then t.(last := now) else t)
      else Timer(0, 0, 0, 0))
  }

  lemma StampedCons(ts: seq<Timer>, k: nat, now: int, ks: seq<nat>)
    requires ts != []
    ensures Stamped(ts, k, now, [k] + ks) ==
            [if ts[0].Due(now) then ts[0].(last := now) else ts[0]] + Stamped(ts, k, now, ks)
    ensures Stamped(ts, k, now, [] + ks) == Stamped(ts, k, now, ks)
  {
    assert [] + ks == ks;
  }

  /** What remains after a pass is those timers; the ones called have their clock set. */
  lemma {:induction false} PassKeepsOrder(ts: seq<Timer>, k: nat, now: int, answers: Answers)
    ensures Pass(ts, k, now, answers) == Stamped(ts, k, now, Kept(ts, k, now, answers))
    decreases |ts|
  {
    if ts != [] {
      PassKeepsOrder(ts[1..], k + 1, now, answers);
      KeptStays(ts[1..], k + 1, now, answers);
      var ks := Kept(ts[1..], k + 1, now, answers);
      forall i | 0 <= i < |ks| ensures Stamped(ts, k, now, ks)[i] == Stamped(ts[1..], k + 1, now, ks)[i] {
        assert ks[i] in ks && StaysAt(ts[1..], k + 1, now, answers, ks[i]);
      }
      assert Stamped(ts, k, now, ks) == Stamped(ts[1..], k + 1, now, ks);
      StampedCons(ts, k, now, ks);
    }
  }

  // ---------- removal ----------

  function Without(ts: seq<Timer>, te: Timer): seq<Timer> {
    if ts == [] then [] else (if ts[0].Equals(te) then [] else [ts[0]]) + Without(ts[1..], te)
  }

  /** The specification of removal: drop exactly the timers with the same triple. */
  function WithoutTriple(ts: seq<Timer>, te: Timer): seq<Timer> {
    if ts == [] then [] else (if ts[0].SameTriple(te) then [] else [ts[0]]) + WithoutTriple(ts[1..], te)
  }

  ghost predicate AllValid(ts: seq<Timer>) {
    forall k :: 0 <= k < |ts| ==> ts[k].IsValid()
  }

  /** On a list of valid timers the comparison deletes exactly the matching triples. */
  lemma {:induction false} RemovalIsExact(ts: seq<Timer>, te: Timer)
    requires AllValid(ts)
    ensures Without(ts, te) == WithoutTriple(ts, te)
  {
    if ts != [] { RemovalIsExact(ts[1..], te); }
  }

  /** The positions of the timers that a removal leaves. */
  function Remaining(ts: seq<Timer>, k: nat, te: Timer): (r: seq<nat>)
    ensures forall i :: 0 <= i < |r| ==> k <= r[i] < k + |ts| && !ts[r[i] - k].Equals(te)
  {
    if ts == [] then [] else (if ts[0].Equals(te) then [] else [k]) + Remaining(ts[1..], k + 1, te)
  }

  /** The elements at the given positions. */
  function Chosen<T>(xs: seq<T>, ks: seq<nat>): (r: seq<T>)
    requires forall i :: 0 <= i < |ks| ==> ks[i] < |xs|
    ensures |r| == |ks| && forall i :: 0 <= i < |r| ==> r[i] == xs[ks[i]]
  {
    seq(|ks|, i requires 0 <= i < |ks| => xs[ks[i]])
  }

  lemma {:induction false} RemainingIncreases(ts: seq<Timer>, k: nat, te: Timer)
    ensures Increasing(Remaining(ts, k, te))
    decreases |ts|
  {
    if ts != [] { RemainingIncreases(ts[1..], k + 1, te); }
  }

  /** Removal leaves the timers at these positions, in order. */
  lemma {:induction false} RemovalKeepsOrder(ts: seq<Timer>, k: nat, te: Timer)
    ensures |Without(ts, te)| == |Remaining(ts, k, te)|
    ensures forall i :: 0 <= i < |Remaining(ts, k, te)| ==> Without(ts, te)[i] == ts[Remaining(ts, k, te)[i] - k]
    decreases |ts|
  {
    if ts != [] { RemovalKeepsOrder(ts[1..], k + 1, te); }
  }

  // ---------- whole runs ----------

  datatype Op =
    | Add(interval: nat, callback: Pointer, arg: Pointer)
    | Remove(interval: nat, callback: Pointer, arg: Pointer)
    | Clear
    | Process(now: int, answers: Answers)

  function AddTo(ts: seq<Timer>, op: Op): seq<Timer>
    requires op.Add?
  {
    var te := Timer(op.interval, 0, op.callback, op.arg);
    if |ts| >= MAX_TIMERS || !te.IsValid() then ts else ts + [te]
  }

  function RemoveFrom(ts: seq<Timer>, op: Op): seq<Timer>
    requires op.Remove?
  {
    var te := Timer(op.interval, 0, op.callback, op.arg);
    if !te.IsValid() then ts else Without(ts, te)
  }

  /** The effect of a call on the list. */
  function Effect(ts: seq<Timer>, op: Op): seq<Timer> {
    match op
    case Add(_, _, _) => AddTo(ts, op)
    case Remove(_, _, _) => RemoveFrom(ts, op)
    case Clear => []
    case Process(now, answers) => Pass(ts, 0, now, answers)
  }

  function EffectAll(ts: seq<Timer>, ops: seq<Op>): seq<Timer>
    decreases |ops|
  {
    if ops == [] then ts else EffectAll(Effect(ts, ops[0]), ops[1..])
  }

  /** A callback made at a clock value for the timer with this number. */
  datatype Fire = Fire(id: nat, now: int)

  /**
   The list, the number of each timer on it, every timer ever added under its number, and
   every callback ever made.
   */
  datatype World = World(ts: seq<Timer>, ids: seq<nat>, added: seq<Timer>, calls: seq<Fire>)

  /** The callbacks of a pass: one for each position called, in order. */
  function Fires(ids: seq<nat>, ks: seq<nat>, now: int): (r: seq<Fire>)
    requires forall i :: 0 <= i < |ks| ==> ks[i] < |ids|
    ensures |r| == |ks| && forall i :: 0 <= i < |r| ==> r[i] == Fire(ids[ks[i]], now)
  {
    seq(|ks|, i requires 0 <= i < |ks| => Fire(ids[ks[i]], now))
  }

  /** Where the positions called and kept in a pass lie. */
  lemma PositionsInRange(ts: seq<Timer>, now: int, answers: Answers)
    ensures forall i :: 0 <= i < |Fired(ts, 0, now)| ==> Fired(ts, 0, now)[i] < |ts|
    ensures forall i :: 0 <= i < |Kept(ts, 0, now, answers)| ==> Kept(ts, 0, now, answers)[i] < |ts|
    ensures |Pass(ts, 0, now, answers)| == |Kept(ts, 0, now, answers)|
  {
    var fs, ks := Fired(ts, 0, now), Kept(ts, 0, now, answers);
    FiresDueOnce(ts, 0, now);
    KeptStays(ts, 0, now, answers);
    PassKeepsOrder(ts, 0, now, answers);
    forall i | 0 <= i < |fs| ensures fs[i] < |ts| { assert fs[i] in fs; }
    forall i | 0 <= i < |ks| ensures ks[i] < |ts| { assert ks[i] in ks; }
  }

  /** The timer at position `i` after a pass. */
  lemma PassAt(ts: seq<Timer>, now: int, answers: Answers, i: nat)
    requires i < |Kept(ts, 0, now, answers)|
    ensures var p := Kept(ts, 0, now, answers)[i];
            && |Pass(ts, 0, now, answers)| == |Kept(ts, 0, now, answers)| && p < |ts|
            && Pass(ts, 0, now, answers)[i] == if ts[p].Due(now) then ts[p].(last := now) else ts[p]
  {
    PositionsInRange(ts, now, answers);
    PassKeepsOrder(ts, 0, now, answers);
  }

  /** A timer keeps its number while it is listed; a new one gets the next. */
  function Do(w: World, op: Op): (w': World)
    requires |w.ids| == |w.ts|
    ensures |w'.ids| == |w'.ts| && w'.ts == Effect(w.ts, op)
  {
    var ts' := Effect(w.ts, op);
    match op
    case Add(_, _, _) =>
      if |ts'| == |w.ts| then w.(ts := ts') else World(ts', w.ids + [|w.added|], w.added + ts'[|w.ts|..], w.calls)
    case Remove(interval, callback, arg) =>
      var te := Timer(interval, 0, callback, arg);
      RemovalKeepsOrder(w.ts, 0, te);
      w.(ts := ts', ids := if te.IsValid() then Chosen(w.ids, Remaining(w.ts, 0, te)) else w.ids)
    case Clear => w.(ts := ts', ids := [])
    case Process(now, answers) =>
      PositionsInRange(w.ts, now, answers);
      World(ts', Chosen(w.ids, Kept(w.ts, 0, now, answers)), w.added,
            w.calls + Fires(w.ids, Fired(w.ts, 0, now), now))
  }

  function DoAll(w: World, ops: seq<Op>): (w': World)
    requires |w.ids| == |w.ts|
    ensures |w'.ids| == |w'.ts| && w'.ts == EffectAll(w.ts, ops)
    decreases |ops|
  {
    if ops == [] then w else DoAll(Do(w, ops[0]), ops[1..])
  }

  function Start(): World {
    World([], [], [], [])
  }

  /** The clock values at which the timer with this number has been called. */
  function TimesOf(calls: seq<Fire>, id: nat): seq<int> {
    if calls == [] then []
    else
      var c := calls[|calls| - 1];
      TimesOf(calls[..|calls| - 1], id) + if c.id == id then [c.now] else []
  }

  lemma {:induction false} TimesAppend(a: seq<Fire>, b: seq<Fire>, id: nat)
    ensures TimesOf(a + b, id) == TimesOf(a, id) + TimesOf(b, id)
    decreases |b|
  {
    if b == [] {
      assert a + b == a;
    } else {
      var init, c := b[..|b| - 1], b[|b| - 1];
      TimesAppend(a, init, id);
      assert (a + b)[..|a + b| - 1] == a + init;
      ConcatAssoc(TimesOf(a, id), TimesOf(init, id), if c.id == id then [c.now] else []);
    }
  }

  lemma {:induction false} TimesOfNone(calls: seq<Fire>, id: nat)
    requires forall i :: 0 <= i < |calls| ==> calls[i].id != id
    ensures TimesOf(calls, id) == []
  {
    if calls != [] { TimesOfNone(calls[..|calls| - 1], id); }
  }

  /** A number that occurs once among the callbacks. */
  lemma {:induction false} TimesOfOne(calls: seq<Fire>, i: nat)
    requires i < |calls| && forall j :: 0 <= j < |calls| && j != i ==> calls[j].id != calls[i].id
    ensures TimesOf(calls, calls[i].id) == [calls[i].now]
    decreases |calls|
  {
    var init := calls[..|calls| - 1];
    if i == |init| { TimesOfNone(init, calls[i].id); } else { TimesOfOne(init, i); }
  }

  /** Among the callbacks for some positions, those for the number at position `p`. */
  lemma FiresAt(ids: seq<nat>, ks: seq<nat>, now: int, p: nat)
    requires Increasing(ids) && Increasing(ks) && p < |ids| && forall i :: 0 <= i < |ks| ==> ks[i] < |ids|
    ensures TimesOf(Fires(ids, ks, now), ids[p]) == if p in ks then [now] else []
  {
    var calls := Fires(ids, ks, now);
    if p in ks {
      var i :| 0 <= i < |ks| && ks[i] == p;
      forall j | 0 <= j < |calls| && j != i ensures calls[j].id != ids[p] { assert ks[j] != p; }
      TimesOfOne(calls, i);
    } else {
      forall j | 0 <= j < |calls| ensures calls[j].id != ids[p] { assert ks[j] in ks; }
      TimesOfNone(calls, ids[p]);
    }
  }

  lemma FiresElsewhere(ids: seq<nat>, ks: seq<nat>, now: int, id: nat)
    requires id !in ids && forall i :: 0 <= i < |ks| ==> ks[i] < |ids|
    ensures TimesOf(Fires(ids, ks, now), id) == []
  {
    var calls := Fires(ids, ks, now);
    forall i | 0 <= i < |calls| ensures calls[i].id != id { assert ids[ks[i]] in ids; }
    TimesOfNone(calls, id);
  }

  /** A pass calls the timer at each due position once, at its clock value, and no other timer. */
  lemma PassFires(ts: seq<Timer>, ids: seq<nat>, now: int, answers: Answers)
    requires |ids| == |ts| && Increasing(ids)
    ensures forall i :: 0 <= i < |Fired(ts, 0, now)| ==> Fired(ts, 0, now)[i] < |ids|
    ensures var calls := Fires(ids, Fired(ts, 0, now), now);
            && (forall p :: 0 <= p < |ts| ==> TimesOf(calls, ids[p]) == if ts[p].Due(now) then [now] else [])
            && (forall id: nat :: id !in ids ==> TimesOf(calls, id) == [])
  {
    var ks := Fired(ts, 0, now);
    PositionsInRange(ts, now, answers);
    FiresDueOnce(ts, 0, now);
    var calls := Fires(ids, ks, now);
    forall p | 0 <= p < |ts| ensures TimesOf(calls, ids[p]) == if ts[p].Due(now) then [now] else [] {
      FiresAt(ids, ks, now, p);
      assert p in ks <==> DueAt(ts, 0, now, p);
    }
    forall id: nat | id !in ids ensures TimesOf(calls, id) == [] { FiresElsewhere(ids, ks, now, id); }
  }

  /** Consecutive entries at least `gap` apart, hence increasing. */
  ghost predicate Spaced(xs: seq<int>, gap: nat) {
    forall k :: 0 <= k < |xs| - 1 ==> xs[k + 1] - xs[k] >= gap
  }

  function LastOf(xs: seq<int>): int {
    if xs == [] then 0 else xs[|xs| - 1]
  }

  /** A listed timer is the one added under its number, with the clock of its last callback. */
  ghost predicate Tied(t: Timer, id: nat, added: seq<Timer>, calls: seq<Fire>) {
    && id < |added| && t.IsValid() && t.SameTriple(added[id])
    && t.last == LastOf(TimesOf(calls, id))
  }

  ghost predicate Regular(added: seq<Timer>, calls: seq<Fire>) {
    && (forall id: nat :: id < |added| ==> added[id].IsValid() && Spaced(TimesOf(calls, id), added[id].interval))
    && (forall i :: 0 <= i < |calls| ==> calls[i].id < |added|)
  }

  ghost predicate WorldOk(w: World) {
    && |w.ids| == |w.ts| <= MAX_TIMERS && Increasing(w.ids)
    && (forall p :: 0 <= p < |w.ts| ==> Tied(w.ts[p], w.ids[p], w.added, w.calls))
    && Regular(w.added, w.calls)
  }

  lemma {:induction false} FewerThan(ks: seq<nat>, n: nat, i: nat)
    requires Increasing(ks) && i < |ks| && ks[i] < n
    ensures i <= ks[i]
  {
    if i > 0 { FewerThan(ks, n, i - 1); }
  }

  lemma ChosenIncreases(ids: seq<nat>, ks: seq<nat>)
    requires Increasing(ids) && Increasing(ks) && forall i :: 0 <= i < |ks| ==> ks[i] < |ids|
    ensures Increasing(Chosen(ids, ks)) && |Chosen(ids, ks)| <= |ids|
  {
    if ks != [] { FewerThan(ks, |ids|, |ks| - 1); }
  }

  /** A timer just added has not been called. */
  lemma RegularSnoc(added: seq<Timer>, calls: seq<Fire>, te: Timer)
    requires Regular(added, calls) && te.IsValid()
    ensures Regular(added + [te], calls) && TimesOf(calls, |added|) == []
  {
    TimesOfNone(calls, |added|);
  }

  lemma TiedSnoc(t: Timer, id: nat, added: seq<Timer>, calls: seq<Fire>, te: Timer)
    requires Tied(t, id, added, calls)
    ensures Tied(t, id, added + [te], calls)
  {
  }

  lemma AddedOk(w: World, te: Timer)
    requires WorldOk(w) && |w.ts| < MAX_TIMERS && te.IsValid() && te.last == 0
    ensures WorldOk(World(w.ts + [te], w.ids + [|w.added|], w.added + [te], w.calls))
  {
    RegularSnoc(w.added, w.calls, te);
    forall p | 0 <= p < |w.ts| ensures Tied(w.ts[p], w.ids[p], w.added + [te], w.calls) && w.ids[p] < |w.added| {
      TiedSnoc(w.ts[p], w.ids[p], w.added, w.calls, te);
    }
  }

  lemma AddKeeps(w: World, op: Op)
    requires WorldOk(w) && op.Add?
    ensures WorldOk(Do(w, op))
  {
    var te := Timer(op.interval, 0, op.callback, op.arg);
    if |w.ts| < MAX_TIMERS && te.IsValid() { AddedOk(w, te); }
  }

  lemma RemoveKeeps(w: World, op: Op)
    requires WorldOk(w) && op.Remove?
    ensures WorldOk(Do(w, op))
  {
    var te := Timer(op.interval, 0, op.callback, op.arg);
    if te.IsValid() {
      var ks := Remaining(w.ts, 0, te);
      RemovalKeepsOrder(w.ts, 0, te);
      RemainingIncreases(w.ts, 0, te);
      ChosenIncreases(w.ids, ks);
      var w' := Do(w, op);
      forall i | 0 <= i < |ks| ensures Tied(w'.ts[i], w'.ids[i], w'.added, w'.calls) {
        assert Tied(w.ts[ks[i]], w.ids[ks[i]], w.added, w.calls);
      }
    }
  }

  /** One more callback of a timer that is due keeps its callbacks spaced. */
  lemma SpacedSnoc(xs: seq<int>, gap: nat, now: int)
    requires Spaced(xs, gap) && (xs != [] ==> now - LastOf(xs) >= gap)
    ensures Spaced(xs + [now], gap) && LastOf(xs + [now]) == now
  {
    var ys := xs + [now];
    forall k | 0 <= k < |ys| - 1 ensures ys[k + 1] - ys[k] >= gap {
      if k < |xs| - 1 { assert xs[k + 1] - xs[k] >= gap; }
    }
  }

  /** What a pass adds to the callbacks of each timer. */
  lemma PassTimes(w: World, now: int, answers: Answers, id: nat)
    requires WorldOk(w)
    ensures var times, times' := TimesOf(w.calls, id), TimesOf(Do(w, Process(now, answers)).calls, id);
            && (forall p :: 0 <= p < |w.ts| && w.ids[p] == id ==>
                  times' == if w.ts[p].Due(now) then times + [now] else times)
            && (id !in w.ids ==> times' == times)
  {
    PassFires(w.ts, w.ids, now, answers);
    TimesAppend(w.calls, Fires(w.ids, Fired(w.ts, 0, now), now), id);
    assert TimesOf(w.calls, id) + [] == TimesOf(w.calls, id);
  }

  lemma PassRegular(w: World, now: int, answers: Answers)
    requires WorldOk(w)
    ensures Regular(w.added, Do(w, Process(now, answers)).calls)
  {
    var calls' := Do(w, Process(now, answers)).calls;
    forall id: nat | id < |w.added|
      ensures w.added[id].IsValid() && Spaced(TimesOf(calls', id), w.added[id].interval)
    {
      PassTimes(w, now, answers, id);
      if id in w.ids {
        var p :| 0 <= p < |w.ids| && w.ids[p] == id;
        assert Tied(w.ts[p], id, w.added, w.calls);
        if w.ts[p].Due(now) { SpacedSnoc(TimesOf(w.calls, id), w.added[id].interval, now); }
      }
    }
    PositionsInRange(w.ts, now, answers);
    forall i | 0 <= i < |calls'| ensures calls'[i].id < |w.added| {
      if i >= |w.calls| {
        var p := Fired(w.ts, 0, now)[i - |w.calls|];
        assert Tied(w.ts[p], w.ids[p], w.added, w.calls);
      }
    }
  }

  /** A timer that survives a pass, at position `p` before it. */
  lemma PassTied(w: World, now: int, answers: Answers, p: nat)
    requires WorldOk(w) && p < |w.ts|
    ensures var t := w.ts[p];
            Tied(if t.Due(now) then t.(last := now) else t, w.ids[p], w.added, Do(w, Process(now, answers)).calls)
  {
    assert Tied(w.ts[p], w.ids[p], w.added, w.calls);
    PassTimes(w, now, answers, w.ids[p]);
  }

  lemma ProcessKeeps(w: World, now: int, answers: Answers)
    requires WorldOk(w)
    ensures WorldOk(Do(w, Process(now, answers)))
  {
    var w', ks := Do(w, Process(now, answers)), Kept(w.ts, 0, now, answers);
    PositionsInRange(w.ts, now, answers);
    KeptStays(w.ts, 0, now, answers);
    ChosenIncreases(w.ids, ks);
    PassRegular(w, now, answers);
    forall i | 0 <= i < |ks| ensures Tied(w'.ts[i], w'.ids[i], w'.added, w'.calls) {
      PassAt(w.ts, now, answers, i);
      PassTied(w, now, answers, ks[i]);
    }
  }

  lemma OpKeeps(w: World, op: Op)
    requires WorldOk(w)
    ensures WorldOk(Do(w, op))
  {
    match op
    case Add(_, _, _) => AddKeeps(w, op);
    case Remove(_, _, _) => RemoveKeeps(w, op);
    case Clear =>
    case Process(now, answers) => ProcessKeeps(w, now, answers);
  }

  lemma {:induction false} RunKeeps(w: World, ops: seq<Op>)
    requires WorldOk(w)
    ensures WorldOk(DoAll(w, ops))
    decreases |ops|
  {
    if ops != [] {
      OpKeeps(w, ops[0]);
      RunKeeps(Do(w, ops[0]), ops[1..]);
    }
  }

  /**
   In every reachable state there are at most 1000 timers and all are valid, so removal never
   meets one that equals everything.
   */
  lemma ReachableListIsValid(ops: seq<Op>)
    ensures var ts := EffectAll([], ops);
            |ts| <= 1000 && AllValid(ts) && forall te: Timer :: Without(ts, te) == WithoutTriple(ts, te)
  {
    RunKeeps(Start(), ops);
    var w := DoAll(Start(), ops);
    forall k | 0 <= k < |w.ts| ensures w.ts[k].IsValid() { assert Tied(w.ts[k], w.ids[k], w.added, w.calls); }
    forall te: Timer ensures Without(w.ts, te) == WithoutTriple(w.ts, te) { RemovalIsExact(w.ts, te); }
  }

  /** In every reachable state, removing a timer deletes exactly the timers with its triple. */
  lemma ReachableRemoval(ops: seq<Op>, interval: nat, callback: Pointer, arg: Pointer)
    ensures var ts := EffectAll([], ops);
            Effect(ts, Remove(interval, callback, arg))
            == if interval == 0 || callback == 0 then ts else WithoutTriple(ts, Timer(interval, 0, callback, arg))
  {
    ReachableListIsValid(ops);
  }

  /**
   In every reachable state, a pass calls a listed timer exactly when its interval has gone by
   since its last callback, or since time zero if it has never been called.
   */
  lemma CalledWhenDue(ops: seq<Op>, p: nat, now: int, answers: Answers)
    requires p < |DoAll(Start(), ops).ts|
    ensures var w := DoAll(Start(), ops);
            var id, w' := w.ids[p], Do(w, Process(now, answers));
            var times := TimesOf(w.calls, id);
            && id < |w.added|
            && TimesOf(w'.calls, id) ==
               if now - LastOf(times) >= w.added[id].interval then times + [now] else times
  {
    RunKeeps(Start(), ops);
    var w := DoAll(Start(), ops);
    assert Tied(w.ts[p], w.ids[p], w.added, w.calls);
    PassTimes(w, now, answers, w.ids[p]);
  }

  // ---------- the record is of what happens ----------

  /** A callback as its callee sees it: with its argument, on behalf of an interval, at a time. */
  datatype Call = Call(interval: nat, callback: Pointer, arg: Pointer, now: int)

  function CallOf(t: Timer, now: int): Call {
    Call(t.interval, t.callback, t.arg, now)
  }

  /** The callbacks that a pass over the real list makes. */
  function PassCalls(ts: seq<Timer>, ks: seq<nat>, now: int): (r: seq<Call>)
    requires forall i :: 0 <= i < |ks| ==> ks[i] < |ts|
    ensures |r| == |ks| && forall i :: 0 <= i < |r| ==> r[i] == CallOf(ts[ks[i]], now)
  {
    seq(|ks|, i requires 0 <= i < |ks| => CallOf(ts[ks[i]], now))
  }

  /** The recorded callbacks, with what was added under their numbers. */
  function Recorded(added: seq<Timer>, calls: seq<Fire>): (r: seq<Call>)
    requires forall i :: 0 <= i < |calls| ==> calls[i].id < |added|
    ensures |r| == |calls| && forall i :: 0 <= i < |r| ==> r[i] == CallOf(added[calls[i].id], calls[i].now)
  {
    seq(|calls|, i requires 0 <= i < |calls| => CallOf(added[calls[i].id], calls[i].now))
  }

  /** What one call accepts. */
  function AcceptedBy(ts: seq<Timer>, op: Op): seq<Timer> {
    if op.Add? && |ts| < MAX_TIMERS && op.interval != 0 && op.callback != 0
    then [Timer(op.interval, 0, op.callback, op.arg)] else []
  }

  /** And the callbacks it makes. */
  function CallsBy(ts: seq<Timer>, op: Op): seq<Call> {
    match op
    case Process(now, answers) =>
      PositionsInRange(ts, now, answers);
      PassCalls(ts, Fired(ts, 0, now), now)
    case _ => []
  }

  /** The timers that the calls of a run accept, in order. */
  function Accepted(ts: seq<Timer>, ops: seq<Op>): seq<Timer>
    decreases |ops|
  {
    if ops == [] then [] else AcceptedBy(ts, ops[0]) + Accepted(Effect(ts, ops[0]), ops[1..])
  }

  /** The callbacks that a run makes, in order. */
  function RunCalls(ts: seq<Timer>, ops: seq<Op>): seq<Call>
    decreases |ops|
  {
    if ops == [] then [] else CallsBy(ts, ops[0]) + RunCalls(Effect(ts, ops[0]), ops[1..])
  }

  lemma RecordedAppend(added: seq<Timer>, a: seq<Fire>, b: seq<Fire>)
    requires forall i :: 0 <= i < |a| ==> a[i].id < |added|
    requires forall i :: 0 <= i < |b| ==> b[i].id < |added|
    ensures Recorded(added, a + b) == Recorded(added, a) + Recorded(added, b)
  {
  }

  /** The callbacks of a pass, recorded under the numbers of the timers called. */
  lemma RecordedFires(w: World, ks: seq<nat>, now: int)
    requires WorldOk(w) && forall i :: 0 <= i < |ks| ==> ks[i] < |w.ts|
    ensures forall i :: 0 <= i < |ks| ==> w.ids[ks[i]] < |w.added|
    ensures Recorded(w.added, Fires(w.ids, ks, now)) == PassCalls(w.ts, ks, now)
  {
    forall i | 0 <= i < |ks|
      ensures w.ids[ks[i]] < |w.added| && CallOf(w.added[w.ids[ks[i]]], now) == CallOf(w.ts[ks[i]], now)
    {
      assert Tied(w.ts[ks[i]], w.ids[ks[i]], w.added, w.calls);
    }
  }

  lemma RecordsPass(w: World, now: int, answers: Answers)
    requires WorldOk(w)
    ensures var calls' := Do(w, Process(now, answers)).calls;
            && (forall i :: 0 <= i < |calls'| ==> calls'[i].id < |w.added|)
            && Recorded(w.added, calls') == Recorded(w.added, w.calls) + CallsBy(w.ts, Process(now, answers))
  {
    var ks := Fired(w.ts, 0, now);
    PositionsInRange(w.ts, now, answers);
    RecordedFires(w, ks, now);
    RecordedAppend(w.added, w.calls, Fires(w.ids, ks, now));
  }

  /** One call records the timer it accepts and the callbacks it makes. */
  lemma RecordsOp(w: World, op: Op)
    requires WorldOk(w) && WorldOk(Do(w, op))
    ensures Do(w, op).added == w.added + AcceptedBy(w.ts, op)
    ensures Recorded(Do(w, op).added, Do(w, op).calls) == Recorded(w.added, w.calls) + CallsBy(w.ts, op)
  {
    if op.Process? { RecordsPass(w, op.now, op.answers); }
  }

  /**
   Every timer that a run accepts gets a number, in order, and what is recorded are exactly
   the callbacks that the passes of the run make, in order.
   */
  lemma {:induction false} RecordIsComplete(w: World, ops: seq<Op>)
    requires WorldOk(w)
    ensures WorldOk(DoAll(w, ops))
    ensures DoAll(w, ops).added == w.added + Accepted(w.ts, ops)
    ensures Recorded(DoAll(w, ops).added, DoAll(w, ops).calls) == Recorded(w.added, w.calls) + RunCalls(w.ts, ops)
    decreases |ops|
  {
    if ops != [] {
      var w' := Do(w, ops[0]);
      OpKeeps(w, ops[0]);
      RecordsOp(w, ops[0]);
      RecordIsComplete(w', ops[1..]);
      ConcatAssoc(w.added, AcceptedBy(w.ts, ops[0]), Accepted(w'.ts, ops[1..]));
      ConcatAssoc(Recorded(w.added, w.calls), CallsBy(w.ts, ops[0]), RunCalls(w'.ts, ops[1..]));
    }
  }

  // ---------- the firing rate ----------

  /** How many of the values lie in a window of the clock. */
  function InWindow(xs: seq<int>, a: int, b: int): nat {
    if xs == [] then 0 else InWindow(xs[..|xs| - 1], a, b) + (if a <= xs[|xs| - 1] <= b then 1 else 0)
  }

  /** Everything before the last value is at least one gap earlier. */
  lemma {:induction false} Before(xs: seq<int>, gap: nat, a: int, x: int, b: int)
    requires xs != [] && Spaced(xs, gap) && xs[|xs| - 1] <= x && gap > 0 && x <= b
    ensures InWindow(xs[..|xs| - 1], a, b) == InWindow(xs[..|xs| - 1], a, x - gap)
    decreases |xs|
  {
    var init := xs[..|xs| - 1];
    if init != [] {
      var n := |xs| - 2;
      assert xs[n + 1] - xs[n] >= gap;
      assert Spaced(init, gap) by {
        forall k | 0 <= k < |init| - 1 ensures init[k + 1] - init[k] >= gap { assert xs[k + 1] - xs[k] >= gap; }
      }
      Before(init, gap, a, x - gap, b);
      Before(init, gap, a, x - gap, x - gap);
    }
  }

  /** Values spaced by `gap` that end at or before `b` take up room. */
  lemma {:induction false} WindowBound(xs: seq<int>, gap: nat, a: int, b: int)
    requires gap > 0 && Spaced(xs, gap)
    ensures InWindow(xs, a, b) > 0 ==> a <= b && gap * (InWindow(xs, a, b) - 1) <= b - a
    decreases |xs|
  {
    if xs != [] {
      var init, x := xs[..|xs| - 1], xs[|xs| - 1];
      assert Spaced(init, gap) by {
        forall k | 0 <= k < |init| - 1 ensures init[k + 1] - init[k] >= gap { assert xs[k + 1] - xs[k] >= gap; }
      }
      if a <= x <= b {
        Before(xs, gap, a, x, b);
        WindowBound(init, gap, a, x - gap);
        var n := InWindow(init, a, x - gap);
        if n > 0 { assert gap * n == gap * (n - 1) + gap; }
      } else {
        WindowBound(init, gap, a, b);
      }
    }
  }

  lemma AtMost(n: nat, g: nat, d: nat)
    requires g > 0 && g * n <= d
    ensures n <= d / g
  {
    MulBound(g, n - d / g);
    assert g * (n - d / g) == g * n - g * (d / g);
  }

  lemma RateBound(times: seq<int>, gap: nat, a: int, b: int)
    requires gap > 0 && Spaced(times, gap) && a <= b
    ensures InWindow(times, a, b) <= (b - a) / gap + 1
  {
    WindowBound(times, gap, a, b);
    var n := InWindow(times, a, b);
    if n > 0 { AtMost(n - 1, gap, b - a); }
  }

  /**
   For any calls and any clock values, even ones that run backwards, every timer that a run
   accepts is called at strictly increasing clock values at least its interval apart, and so at
   most (b - a) / interval + 1 times in any window from `a` to `b`.
   */
  lemma FiringRate(ops: seq<Op>, id: nat, a: int, b: int)
    requires id < |Accepted([], ops)| && a <= b
    ensures var times, gap := TimesOf(DoAll(Start(), ops).calls, id), Accepted([], ops)[id].interval;
            && gap > 0 && Spaced(times, gap)
            && InWindow(times, a, b) <= (b - a) / gap + 1
  {
    var w := DoAll(Start(), ops);
    RecordIsComplete(Start(), ops);
    assert w.added == Accepted([], ops);
    assert w.added[id].IsValid() && Spaced(TimesOf(w.calls, id), w.added[id].interval);
    RateBound(TimesOf(w.calls, id), w.added[id].interval, a, b);
  }

  /** One step of the scan, in front of which `before` and `seen` have been gathered. */
  lemma Unfold(before: seq<Timer>, seen: seq<nat>, ts: seq<Timer>, k: nat, now: int, answers: Answers)
    requires ts != []
    ensures before + Pass(ts, k, now, answers) ==
            (before + After(ts[0], k, now, answers)) + Pass(ts[1..], k + 1, now, answers)
    ensures seen + Fired(ts, k, now) ==
            (if ts[0].Due(now) then seen + [k] else seen) + Fired(ts[1..], k + 1, now)
  {
    ConcatAssoc(before, After(ts[0], k, now, answers), Pass(ts[1..], k + 1, now, answers));
    ConcatAssoc(seen, if ts[0].Due(now) then [k] else [], Fired(ts[1..], k + 1, now));
  }

  // ---------- the class ----------

  class TimerManager {
    var m_timer_list: seq<Timer>

    constructor ()
      ensures m_timer_list == []
    {
      m_timer_list := [];
    }

    method AddTimer(interval: nat, callback: Pointer, arg: Pointer) returns (r: int)
      modifies this
      ensures m_timer_list == Effect(old(m_timer_list), Add(interval, callback, arg))
      ensures r == if |old(m_timer_list)| >= 1000 || interval == 0 || callback == 0 then -1 else 0
      ensures m_timer_list == if r == 0 then old(m_timer_list) + [Timer(interval, 0, callback, arg)] else old(m_timer_list)
    {
      if |m_timer_list| >= MAX_TIMERS { return -1; }
      var te := Timer(interval, 0, callback, arg);
      if !te.IsValid() { return -1; }
      m_timer_list := m_timer_list + [te];
      r := 0;
    }

    /** `std::list::erase`: the iterator then stands at the next element. */
    method Erase(i: nat)
      requires i < |m_timer_list|
      modifies this
      ensures m_timer_list == old(m_timer_list[..i] + m_timer_list[i + 1..])
      ensures m_timer_list[..i] == old(m_timer_list[..i]) && m_timer_list[i..] == old(m_timer_list[i + 1..])
    {
      m_timer_list := m_timer_list[..i] + m_timer_list[i + 1..];
    }

    /** `std::list::remove`: every element that compares equal goes. */
    method RemoveTimer(interval: nat, callback: Pointer, arg: Pointer) returns (r: int)
      modifies this
      ensures m_timer_list == Effect(old(m_timer_list), Remove(interval, callback, arg))
      ensures r == if interval == 0 || callback == 0 then -1 else 0
    {
      var te := Timer(interval, 0, callback, arg);
      if !te.IsValid() { return -1; }
      var i := 0;
      ghost var done: seq<Timer> := [];
      assert m_timer_list[0..] == m_timer_list;
      while i < |m_timer_list|
        invariant 0 <= i <= |m_timer_list|
        invariant Without(old(m_timer_list), te) == m_timer_list[..i] + Without(m_timer_list[i..], te)
        decreases |m_timer_list| - i
      {
        assert m_timer_list[i..][1..] == m_timer_list[i + 1..];
        if m_timer_list[i].Equals(te) {
          Erase(i);
        } else {
          assert m_timer_list[..i + 1] == m_timer_list[..i] + [m_timer_list[i]];
          i := i + 1;
        }
      }
      r := 0;
    }

    method ClearAll()
      modifies this
      ensures m_timer_list == Effect(old(m_timer_list), Clear) == []
    {
      m_timer_list := [];
    }

    /** `process_timer_event` on the element in place: calls back if due, and sets its clock. */
    method ProcessEvent(i: nat, now: int, answer: int) returns (r: int, called: bool)
      requires i < |m_timer_list|
      modifies this
      ensures var t := old(m_timer_list)[i];
              && (called <==> t.Due(now)) && r == (if called then answer else 0)
              && m_timer_list == old(m_timer_list)[i := if called then t.(last := now) else t]
    {
      r, called := 0, false;
      var t := m_timer_list[i];
      if now - t.last >= t.interval {
        called, r := true, answer;
        m_timer_list := m_timer_list[i := t.(last := now)];
      }
    }

    /** The body of the scan: one element, erased if its callback returns 1. */
    method Visit(i: nat, k: nat, now: int, answers: Answers) returns (next: nat, called: bool)
      requires i < |m_timer_list|
      modifies this
      ensures var t := old(m_timer_list)[i];
              && (called <==> t.Due(now)) && next <= |m_timer_list|
              && m_timer_list[..next] == old(m_timer_list)[..i] + After(t, k, now, answers)
              && m_timer_list[next..] == old(m_timer_list)[i + 1..]
    {
      var res;
      res, called := ProcessEvent(i, now, answers(k));
      next := i + 1;
      if res == 1 {
        Erase(i);
        next := i;
      }
    }

    /**
     The scan: `clock` is the time of day, used when `now` is 0. `fired` lists the positions
     in the old list whose callbacks were called, in call order.
     */
    method ProcessTimer(now: int, clock: int, answers: Answers) returns (r: int, fired: seq<nat>)
      modifies this
      ensures var t := if now == 0 then clock else now;
              && m_timer_list == Effect(old(m_timer_list), Process(t, answers))
              && fired == Fired(old(m_timer_list), 0, t)
      ensures r == 0
    {
      var t := now;
      if t == 0 { t := clock; }
      var i: nat, k: nat := 0, 0;
      fired := [];
      ghost var start, rest := m_timer_list, m_timer_list;
      assert m_timer_list[0..] == start;
      while i < |m_timer_list|
        invariant 0 <= i <= |m_timer_list| && m_timer_list[i..] == rest
        invariant Pass(start, 0, t, answers) == m_timer_list[..i] + Pass(rest, k, t, answers)
        invariant Fired(start, 0, t) == fired + Fired(rest, k, t)
        decreases |rest|
      {
        assert m_timer_list[i..][1..] == m_timer_list[i + 1..];
        Unfold(m_timer_list[..i], fired, rest, k, t, answers);
        var called;
        i, called := Visit(i, k, t, answers);
        if called { fired := fired + [k]; }
        rest := rest[1..];
        k := k + 1;
      }
      r := 0;
    }
  }
}

/**
 proto_dispatcher.cpp: a table from protocol ids to handlers. The dispatcher calls a handler's
 `init` when it is registered and its `uninit` when it leaves the table; the calls are
 recorded, and what the recorded calls amount to is related to the table.
 */
module ProtoDispatchers {

  /** A 16-bit protocol id. */
  type ProtoId = x: int | 0 <= x < 0x1_0000

  /** A handler's identity; zero is NULL. The same handler may serve several ids. */
  type Handler = nat

  type Table = map<ProtoId, Handler>

  datatype Call = Init(h: Handler, ok: bool) | Uninit(h: Handler)

  /** Successful inits less uninits of a handler. */
  function Balance(calls: seq<Call>, h: Handler): int {
    if calls == [] then 0
    else
      Balance(calls[..|calls| - 1], h) +
      match calls[|calls| - 1]
      case Init(g, ok) => if g == h && ok then 1 else 0
      case Uninit(g) => if g == h then -1 else 0
  }

  /** The ids a handler serves. */
  function Serves(t: Table, h: Handler): set<ProtoId> {
    set id | id in t && t[id] == h
  }

  /** Every handler is initialised once for each id it serves. */
  ghost predicate Balanced(calls: seq<Call>, t: Table) {
    forall h: Handler :: Balance(calls, h) == |Serves(t, h)|
  }

  lemma BalanceSnoc(calls: seq<Call>, c: Call, h: Handler)
    ensures Balance(calls + [c], h) == Balance(calls, h) +
              match c
              case Init(g, ok) => if g == h && ok then 1 else 0
              case Uninit(g) => if g == h then -1 else 0
  {
    assert (calls + [c])[..|calls|] == calls;
  }

  /** Registering a new id: the handler's balance and its number of ids rise together. */
  lemma RegisterBalances(calls: seq<Call>, t: Table, id: ProtoId, g: Handler)
    requires Balanced(calls, t) && id !in t
    ensures Balanced(calls + [Init(g, true)], t[id := g])
  {
    forall h: Handler ensures Balance(calls + [Init(g, true)], h) == |Serves(t[id := g], h)| {
      BalanceSnoc(calls, Init(g, true), h);
      if h == g {
        assert Serves(t[id := g], h) == Serves(t, h) + {id};
      } else {
        assert Serves(t[id := g], h) == Serves(t, h);
      }
    }
  }

  /** Unregistering an id: they fall together. */
  lemma UnregisterBalances(calls: seq<Call>, t: Table, id: ProtoId)
    requires Balanced(calls, t) && id in t
    ensures Balanced(calls + [Uninit(t[id])], t - {id})
  {
    forall h: Handler ensures Balance(calls + [Uninit(t[id])], h) == |Serves(t - {id}, h)| {
      BalanceSnoc(calls, Uninit(t[id]), h);
      if h == t[id] {
        assert Serves(t, h) == Serves(t - {id}, h) + {id};
      } else {
        assert Serves(t, h) == Serves(t - {id}, h);
      }
    }
  }

  /** A failed init changes nothing, nor does an init undone at once. */
  lemma RefusalBalances(calls: seq<Call>, t: Table, g: Handler)
    requires Balanced(calls, t)
    ensures Balanced(calls + [Init(g, false)], t)
    ensures Balanced(calls + [Init(g, true)] + [Uninit(g)], t)
  {
    forall h: Handler
      ensures Balance(calls + [Init(g, false)], h) == Balance(calls, h)
      ensures Balance(calls + [Init(g, true)] + [Uninit(g)], h) == Balance(calls, h)
    {
      BalanceSnoc(calls, Init(g, false), h);
      BalanceSnoc(calls, Init(g, true), h);
      BalanceSnoc(calls + [Init(g, true)], Uninit(g), h);
    }
  }

  // ---------- whole runs, as functions ----------

  /** A `clear_protos` visits the table in some order. */
  datatype Op =
    | Register(id: ProtoId, h: Handler, initOk: bool)
    | Unregister(id: ProtoId)
    | Clear(order: seq<ProtoId>)

  datatype State = State(t: Table, calls: seq<Call>)

  function Remove(s: State, id: ProtoId): State {
    if id in s.t then State(s.t - {id}, s.calls + [Uninit(s.t[id])]) else s
  }

  function RemoveAll(s: State, order: seq<ProtoId>): State
    decreases |order|
  {
    if order == [] then s else RemoveAll(Remove(s, order[0]), order[1..])
  }

  function Do(s: State, op: Op): State {
    match op
    case Register(id, h, initOk) =>
      if h == 0 then s
      else if !initOk then State(s.t, s.calls + [Init(h, false)])
      else if id in s.t then State(s.t, s.calls + [Init(h, true)] + [Uninit(h)])
      else State(s.t[id := h], s.calls + [Init(h, true)])
    case Unregister(id) => Remove(s, id)
    case Clear(order) => State(map[], RemoveAll(s, order).calls)
  }

  /** The visit reaches every id of the table. */
  predicate Visits(order: seq<ProtoId>, t: Table) {
    forall id :: id in t ==> id in order
  }

  /** Every `clear_protos` of the run visits the whole table. */
  predicate Visiting(s: State, ops: seq<Op>)
    decreases |ops|
  {
    ops == [] || ((ops[0].Clear? ==> Visits(ops[0].order, s.t)) && Visiting(Do(s, ops[0]), ops[1..]))
  }

  function DoAll(s: State, ops: seq<Op>): State
    decreases |ops|
  {
    if ops == [] then s else DoAll(Do(s, ops[0]), ops[1..])
  }

  ghost predicate Good(s: State) {
    Balanced(s.calls, s.t) && 0 !in s.t.Values
  }

  lemma RemoveKeeps(s: State, id: ProtoId)
    requires Good(s)
    ensures Good(Remove(s, id))
  {
    if id in s.t {
      UnregisterBalances(s.calls, s.t, id);
      assert (s.t - {id}).Values <= s.t.Values;
    }
  }

  /** What is left after a visit is what it did not reach. */
  lemma {:induction false} RemoveAllKeeps(s: State, order: seq<ProtoId>)
    requires Good(s)
    ensures Good(RemoveAll(s, order))
    ensures forall id :: id in RemoveAll(s, order).t <==> id in s.t && id !in order
    decreases |order|
  {
    if order != [] {
      RemoveKeeps(s, order[0]);
      RemoveAllKeeps(Remove(s, order[0]), order[1..]);
    }
  }

  lemma ClearKeeps(s: State, order: seq<ProtoId>)
    requires Good(s) && Visits(order, s.t)
    ensures RemoveAll(s, order).t == map[] && Good(Do(s, Clear(order)))
  {
    RemoveAllKeeps(s, order);
    var t := RemoveAll(s, order).t;
    assert t.Keys == {};
  }

  lemma OpKeeps(s: State, op: Op)
    requires Good(s) && (op.Clear? ==> Visits(op.order, s.t))
    ensures Good(Do(s, op))
  {
    match op
    case Register(id, h, initOk) =>
      if h != 0 {
        RefusalBalances(s.calls, s.t, h);
        if initOk && id !in s.t {
          RegisterBalances(s.calls, s.t, id, h);
          assert s.t[id := h].Values <= s.t.Values + {h};
        }
      }
    case Unregister(id) => RemoveKeeps(s, id);
    case Clear(order) => ClearKeeps(s, order);
  }

  lemma {:induction false} RunKeeps(s: State, ops: seq<Op>)
    requires Good(s) && Visiting(s, ops)
    ensures Good(DoAll(s, ops))
    decreases |ops|
  {
    if ops != [] {
      OpKeeps(s, ops[0]);
      RunKeeps(Do(s, ops[0]), ops[1..]);
    }
  }

  /**
   In every reachable state each handler has been initialised exactly once more than it has
   been uninitialised for every id it is mapped to, duplicate registrations included.
   */
  lemma ReachableIsBalanced(ops: seq<Op>, h: Handler)
    requires Visiting(State(map[], []), ops)
    ensures var s := DoAll(State(map[], []), ops);
            Balance(s.calls, h) == |Serves(s.t, h)|
  {
    var empty: Table := map[];
    forall g: Handler ensures Balance([], g) == |Serves(empty, g)| { assert Serves(empty, g) == {}; }
    RunKeeps(State(empty, []), ops);
  }

  // ---------- who serves an id ----------

  /** The operation registers a handler for the id, if the id is free. */
  predicate Offers(op: Op, id: ProtoId) {
    op.Register? && op.id == id && op.h != 0 && op.initOk
  }

  /** The operation frees the id. */
  predicate Frees(op: Op, id: ProtoId) {
    (op.Unregister? && op.id == id) || op.Clear?
  }

  /** Operation `i` is the first to offer a handler for the id since the id was last freed. */
  predicate Holds(ops: seq<Op>, id: ProtoId, i: nat) {
    && i < |ops| && Offers(ops[i], id)
    && (forall j :: i < j < |ops| ==> !Frees(ops[j], id))
    && (forall j :: 0 <= j < i && Offers(ops[j], id) ==> exists l :: j < l < i && Frees(ops[l], id))
  }

  lemma {:induction false} DoAllSnoc(s: State, ops: seq<Op>, op: Op)
    ensures DoAll(s, ops + [op]) == Do(DoAll(s, ops), op)
    decreases |ops|
  {
    if ops == [] {
      assert [op][1..] == [];
    } else {
      assert (ops + [op])[1..] == ops[1..] + [op];
      DoAllSnoc(Do(s, ops[0]), ops[1..], op);
    }
  }

  /** An operation that neither offers a handler for an id nor frees it leaves it as it was. */
  lemma DoElsewhere(s: State, op: Op, id: ProtoId)
    requires !Offers(op, id) && !Frees(op, id)
    ensures var t' := Do(s, op).t; (id in t' <==> id in s.t) && (id in s.t ==> t'[id] == s.t[id])
  {
  }

  /** An id is free exactly when it has been freed since the last handler was offered, if any was. */
  lemma HoldsSnoc(ops: seq<Op>, op: Op, id: ProtoId, i: nat)
    requires i < |ops|
    ensures Holds(ops + [op], id, i) <==> Holds(ops, id, i) && !Frees(op, id)
  {
    var more := ops + [op];
    if Holds(more, id, i) {
      assert !Frees(more[|ops|], id);
      forall j | i < j < |ops| ensures !Frees(ops[j], id) { assert more[j] == ops[j]; }
      forall j | 0 <= j < i && Offers(ops[j], id) ensures exists l :: j < l < i && Frees(ops[l], id) {
        assert more[j] == ops[j];
        var l :| j < l < i && Frees(more[l], id);
        assert ops[l] == more[l];
      }
    }
    if Holds(ops, id, i) && !Frees(op, id) {
      forall j | 0 <= j < i && Offers(more[j], id) ensures exists l :: j < l < i && Frees(more[l], id) {
        assert more[j] == ops[j];
        var l :| j < l < i && Frees(ops[l], id);
        assert more[l] == ops[l];
      }
    }
  }

  /** If no operation holds the id, it has been freed since any offer. */
  lemma {:induction false} NoHolder(ops: seq<Op>, id: ProtoId, j: nat)
    requires j < |ops| && Offers(ops[j], id) && forall i: nat :: !Holds(ops, id, i)
    ensures exists l :: j < l < |ops| && Frees(ops[l], id)
    decreases j
  {
    if forall l :: j < l < |ops| ==> !Frees(ops[l], id) {
      assert !Holds(ops, id, j);
      var k :| 0 <= k < j && Offers(ops[k], id) && forall l :: k < l < j ==> !Frees(ops[l], id);
      assert forall l :: k < l < |ops| ==> !Frees(ops[l], id) by {
        forall l | k < l < |ops| ensures !Frees(ops[l], id) { if l == j { assert Offers(ops[j], id); } }
      }
      NoHolder(ops, id, k);
    }
  }

  lemma HeldAlready(init: seq<Op>, op: Op, id: ProtoId, i: nat)
    requires Holds(init, id, i)
    ensures !Holds(init + [op], id, |init|)
  {
    var ops := init + [op];
    assert Offers(ops[i], id);
    assert forall l :: i < l < |init| ==> !Frees(ops[l], id);
  }

  /** The last operation holds the id exactly when it offers a handler and none held it. */
  lemma NewHolder(init: seq<Op>, op: Op, id: ProtoId)
    ensures Holds(init + [op], id, |init|) <==> Offers(op, id) && forall i: nat :: !Holds(init, id, i)
  {
    var ops, n := init + [op], |init|;
    forall i: nat | Holds(init, id, i) ensures !Holds(ops, id, n) { HeldAlready(init, op, id, i); }
    if Offers(op, id) && forall i: nat :: !Holds(init, id, i) {
      forall j | 0 <= j < n && Offers(ops[j], id) ensures exists l :: j < l < n && Frees(ops[l], id) {
        assert ops[j] == init[j];
        NoHolder(init, id, j);
        var l :| j < l < n && Frees(init[l], id);
        assert ops[l] == init[l];
      }
    }
  }

  /** What is said of a run stays true with one more operation. */
  lemma LastServes(init: seq<Op>, op: Op, id: ProtoId, s: State)
    requires id in s.t <==> exists i: nat :: Holds(init, id, i)
    requires forall i: nat :: Holds(init, id, i) ==> id in s.t && s.t[id] == init[i].h
    ensures var t, ops := Do(s, op).t, init + [op];
            && (id in t <==> exists i: nat :: Holds(ops, id, i))
            && (forall i: nat :: Holds(ops, id, i) ==> id in t && t[id] == ops[i].h)
  {
    var ops, n := init + [op], |init|;
    forall i: nat | i < n ensures Holds(ops, id, i) <==> Holds(init, id, i) && !Frees(op, id) {
      HoldsSnoc(init, op, id, i);
    }
    NewHolder(init, op, id);
    if !Offers(op, id) && !Frees(op, id) { DoElsewhere(s, op, id); }
    if id in s.t && !Frees(op, id) {
      var i: nat :| Holds(init, id, i);
      assert Holds(ops, id, i);
    }
  }

  /**
   After any run, an id is served by the handler of the first successful registration since it
   was last freed, and by none if there is no such registration.
   */
  lemma {:induction false} ServedByFirst(ops: seq<Op>, id: ProtoId)
    ensures var t := DoAll(State(map[], []), ops).t;
            && (id in t <==> exists i: nat :: Holds(ops, id, i))
            && (forall i: nat :: Holds(ops, id, i) ==> id in t && t[id] == ops[i].h)
    decreases |ops|
  {
    if ops != [] {
      var n := |ops| - 1;
      var init, op := ops[..n], ops[n];
      assert ops == init + [op];
      ServedByFirst(init, id);
      DoAllSnoc(State(map[], []), init, op);
      LastServes(init, op, id, DoAll(State(map[], []), init));
    }
  }

  /** A registration of an id that is taken leaves the table alone, and undoes its own init. */
  lemma DuplicateRefused(s: State, id: ProtoId, h: Handler)
    requires id in s.t && h != 0
    ensures Do(s, Register(id, h, true)).t == s.t
    ensures Do(s, Register(id, h, true)).calls == s.calls + [Init(h, true), Uninit(h)]
  {
    assert s.calls + [Init(h, true)] + [Uninit(h)] == s.calls + [Init(h, true), Uninit(h)];
  }

  /** A handler whose init fails is not entered, and nothing but its init has been called. */
  lemma FailureRefused(s: State, id: ProtoId, h: Handler)
    requires h != 0
    ensures Do(s, Register(id, h, false)) == State(s.t, s.calls + [Init(h, false)])
    ensures Do(s, Register(id, 0, false)) == s == Do(s, Register(id, 0, true))
  {
  }

  /** Unregistering what was just registered leaves the table as it was and every balance too. */
  lemma RegisterUnregister(s: State, id: ProtoId, h: Handler, g: Handler)
    requires Good(s) && id !in s.t && h != 0
    ensures var s' := Do(Do(s, Register(id, h, true)), Unregister(id));
            s'.t == s.t && Balance(s'.calls, g) == Balance(s.calls, g)
  {
    BalanceSnoc(s.calls, Init(h, true), g);
    BalanceSnoc(s.calls + [Init(h, true)], Uninit(h), g);
    assert s.t[id := h] - {id} == s.t;
  }

  lemma {:induction false} RemoveAllSnoc(s: State, order: seq<ProtoId>, id: ProtoId)
    ensures RemoveAll(s, order + [id]) == Remove(RemoveAll(s, order), id)
    decreases |order|
  {
    if order == [] {
      assert [id][1..] == [];
    } else {
      assert (order + [id])[1..] == order[1..] + [id];
      RemoveAllSnoc(Remove(s, order[0]), order[1..], id);
    }
  }

  /** For each id that is gone, one uninit of a handler of the table has been added. */
  ghost predicate Shrunk(s: State, s': State) {
    && s.calls <= s'.calls && s'.t.Values <= s.t.Values
    && |s'.calls| + |s'.t| == |s.calls| + |s.t|
    && forall i :: |s.calls| <= i < |s'.calls| ==> s'.calls[i].Uninit? && s'.calls[i].h in s.t.Values
  }

  lemma RemoveShrinks(s: State, id: ProtoId)
    ensures Shrunk(s, Remove(s, id))
  {
    if id in s.t {
      assert s.t.Keys == (s.t - {id}).Keys + {id} && (s.t - {id}).Values <= s.t.Values;
      assert s.t[id] in s.t.Values;
    }
  }

  lemma ShrunkTrans(a: State, b: State, c: State)
    requires Shrunk(a, b) && Shrunk(b, c)
    ensures Shrunk(a, c)
  {
    forall i | |a.calls| <= i < |c.calls| ensures c.calls[i].Uninit? && c.calls[i].h in a.t.Values {
      if i < |b.calls| { assert c.calls[i] == b.calls[i]; }
    }
  }

  lemma {:induction false} RemoveAllShrinks(s: State, order: seq<ProtoId>)
    ensures Shrunk(s, RemoveAll(s, order))
    decreases |order|
  {
    if order != [] {
      RemoveShrinks(s, order[0]);
      RemoveAllShrinks(Remove(s, order[0]), order[1..]);
      ShrunkTrans(s, Remove(s, order[0]), RemoveAll(s, order));
    }
  }

  class ProtoDispatcher {
    var m_handler_mgr: Table
    ghost var calls: seq<Call>

    ghost predicate Valid()
      reads this
    {
      Good(State(m_handler_mgr, calls))
    }

    constructor ()
      ensures Valid() && m_handler_mgr == map[] && calls == []
    {
      m_handler_mgr, calls := map[], [];
      new;
      forall g: Handler ensures Balance(calls, g) == |Serves(m_handler_mgr, g)| {
        assert Serves(m_handler_mgr, g) == {};
      }
    }

    /** `initOk` is whether the handler's `init` returns 0, if it is called. */
    method RegisterProto(id: ProtoId, handler: Handler, initOk: bool) returns (r: int)
      requires Valid()
      modifies this
      ensures Valid()
      ensures State(m_handler_mgr, calls) == Do(old(State(m_handler_mgr, calls)), Register(id, handler, initOk))
      ensures r == if handler == 0 || !initOk then -1 else if id in old(m_handler_mgr) then 1 else 0
    {
      OpKeeps(State(m_handler_mgr, calls), Register(id, handler, initOk));
      if handler != 0 {
        calls := calls + [Init(handler, initOk)];
        if !initOk { return -1; }
        if id in m_handler_mgr {
          calls := calls + [Uninit(handler)];
          return 1;
        }
        m_handler_mgr := m_handler_mgr[id := handler];
        return 0;
      }
      r := -1;
    }

    method UnregisterProto(id: ProtoId) returns (r: int)
      requires Valid()
      modifies this
      ensures Valid()
      ensures State(m_handler_mgr, calls) == Do(old(State(m_handler_mgr, calls)), Unregister(id))
      ensures r == if id in old(m_handler_mgr) then 0 else -1
    {
      OpKeeps(State(m_handler_mgr, calls), Unregister(id));
      assert id in m_handler_mgr ==> m_handler_mgr[id] in m_handler_mgr.Values;
      if id in m_handler_mgr && m_handler_mgr[id] != 0 {
        calls := calls + [Uninit(m_handler_mgr[id])];
        m_handler_mgr := m_handler_mgr - {id};
        return 0;
      }
      r := -1;
    }

    /**
     Visits the table in an arbitrary order and unregisters every id; each handler is then
     uninitialised as often as it has ever been initialised.
     */
    method ClearProtos() returns (ghost order: seq<ProtoId>)
      requires Valid()
      modifies this
      ensures Valid() && m_handler_mgr == map[] && Visits(order, old(m_handler_mgr))
      ensures State(m_handler_mgr, calls) == Do(old(State(m_handler_mgr, calls)), Clear(order))
      ensures forall h: Handler :: Balance(calls, h) == 0
      ensures |calls| == |old(calls)| + |old(m_handler_mgr)| && old(calls) <= calls
      ensures forall i :: |old(calls)| <= i < |calls| ==> calls[i].Uninit? && calls[i].h in old(m_handler_mgr.Values)
    {
      order := [];
      while m_handler_mgr.Keys != {}
        invariant State(m_handler_mgr, calls) == RemoveAll(old(State(m_handler_mgr, calls)), order)
        invariant forall id :: id in old(m_handler_mgr) ==> id in m_handler_mgr || id in order
        invariant Valid()
        decreases |m_handler_mgr|
      {
        var id: ProtoId :| id in m_handler_mgr.Keys;
        assert m_handler_mgr.Keys == (m_handler_mgr - {id}).Keys + {id};
        RemoveAllSnoc(old(State(m_handler_mgr, calls)), order, id);
        order := order + [id];
        var r := UnregisterProto(id);
      }
      RemoveAllShrinks(old(State(m_handler_mgr, calls)), order);
      m_handler_mgr := map[];
      forall h: Handler ensures Balance(calls, h) == 0 { assert Serves(m_handler_mgr, h) == {}; }
    }
  }
}

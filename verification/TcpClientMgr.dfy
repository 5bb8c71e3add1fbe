/**
 tcp_client_mgr.cpp: a list of connections parsed from a host string, and a round-robin
 choice among those alive. The cursor is an `unsigned int` that is only ever incremented,
 so it wraps, and reduced modulo the connection count on use.
 */
module TcpClientMgrs {
  import opened Bits
  import opened StringUtils

  /** The number of values of the cursor. */
  const CURSOR: nat := 0x1_0000_0000

  datatype Client = Client(host: string, port: string, timeout: int, alive: bool)

  /** The connection probed when the cursor stands at `c`. */
  function At(n: nat, c: nat): (id: nat)
    requires n > 0
    ensures id < n
  {
    c % n
  }

  /** What an unbounded cursor looks like in the field. */
  function Wrap(c: nat): (w: nat)
    ensures w < CURSOR
  {
    c % CURSOR
  }

  /** The loop of both selection functions: at most `tries` probes from the cursor. */
  function Select(live: seq<bool>, cursor: nat, tries: nat): (int, nat)
    requires live != []
    decreases tries
  {
    if tries == 0 then (-1, cursor)
    else if live[At(|live|, cursor)] then (At(|live|, cursor) as int, Wrap(cursor + 1))
    else Select(live, Wrap(cursor + 1), tries - 1)
  }

  lemma WrapStep(c: nat, i: nat)
    ensures Wrap(Wrap(c) + i) == Wrap(c + i)
  {
    ModUnique(Wrap(c) + i, CURSOR, (c + i) / CURSOR - c / CURSOR, Wrap(c + i));
  }

  // ---------- one selection ----------

  /** Wrapping during the call is harmless, or does not happen. */
  predicate Steady(n: nat, cursor: nat)
    requires n > 0
  {
    cursor + n <= CURSOR || CURSOR % n == 0
  }

  /** The position of the first live connection at or after `c`, looking `tries` ahead. */
  function FirstLive(live: seq<bool>, c: nat, tries: nat): (t: nat)
    requires live != []
    ensures c <= t <= c + tries
    ensures forall u: nat :: c <= u < t ==> !live[At(|live|, u)]
    ensures t < c + tries ==> live[At(|live|, t)]
    decreases tries
  {
    if tries == 0 || live[At(|live|, c)] then c else FirstLive(live, c + 1, tries - 1)
  }

  lemma WrapAt(n: nat, c: nat)
    requires n > 0 && (c < CURSOR || CURSOR % n == 0)
    ensures At(n, Wrap(c)) == At(n, c)
  {
    if CURSOR % n == 0 {
      var t := CURSOR / n;
      assert n * t == CURSOR;
      ModOfMod(c, n, t);
    }
  }

  /** The wrapping loop finds what the unbounded search finds. */
  lemma {:induction false} SelectIsFirstLive(live: seq<bool>, c: nat, tries: nat)
    requires live != [] && (c + tries <= CURSOR || CURSOR % |live| == 0)
    ensures var t := FirstLive(live, c, tries);
            Select(live, Wrap(c), tries) ==
            if t < c + tries then (At(|live|, t) as int, Wrap(t + 1)) else (-1, Wrap(c + tries))
    decreases tries
  {
    if tries > 0 {
      WrapAt(|live|, c);
      WrapStep(c, 1);
      if !live[At(|live|, c)] { SelectIsFirstLive(live, c + 1, tries - 1); }
    }
  }

  /** A full lap passes every connection. */
  lemma LapPasses(n: nat, c: nat, id: nat) returns (t: nat)
    requires id < n
    ensures c <= t < c + n && At(n, t) == id
  {
    var r := c % n;
    t := if id >= r then c + (id - r) else c + (id - r + n);
    ModStep(c, t - c, n);
  }

  lemma NobodyLive(live: seq<bool>, cursor: nat)
    requires live != [] && FirstLive(live, cursor, |live|) == cursor + |live|
    ensures true !in live
  {
    forall id: nat | id < |live| ensures !live[id] {
      var u := LapPasses(|live|, cursor, id);
    }
  }

  /** A steady selection returns the first live connection in cyclic order, or -1 iff there is none. */
  lemma SelectionComplete(live: seq<bool>, cursor: nat)
    requires live != [] && cursor < CURSOR && Steady(|live|, cursor)
    ensures var (id, next) := Select(live, cursor, |live|);
            && (id == -1 <==> true !in live)
            && (id != -1 ==> exists t: nat ::
                  && cursor <= t < cursor + |live| && id == At(|live|, t) && live[id] && next == Wrap(t + 1)
                  && forall u: nat :: cursor <= u < t ==> !live[At(|live|, u)])
  {
    var n, t := |live|, FirstLive(live, cursor, |live|);
    assert Wrap(cursor) == cursor;
    SelectIsFirstLive(live, cursor, n);
    if t == cursor + n { NobodyLive(live, cursor); } else { assert live[At(n, t)]; }
  }

  /** The one connection a wrapping lap of a count that does not divide the range passes over. */
  function Missed(n: nat, cursor: nat): nat
    requires 0 < n && cursor < CURSOR
  {
    var before := CURSOR - cursor;
    if before >= n then 0
    else if n - before >= CURSOR % n then n - before else CURSOR % n
  }

  /** The connection the `i`-th probe of a call looks at. */
  function Probe(n: nat, cursor: nat, i: nat): (id: nat)
    requires n > 0
    ensures id < n
  {
    At(n, Wrap(cursor + i))
  }

  lemma {:induction false} AllProbesMiss(live: seq<bool>, cursor: nat, k: nat, tries: nat)
    requires live != [] && k <= tries
    requires forall i: nat :: i < tries ==> !live[Probe(|live|, cursor, i)]
    ensures Select(live, Wrap(cursor + k), tries - k).0 == -1
    decreases tries - k
  {
    if k < tries {
      assert !live[Probe(|live|, cursor, k)];
      WrapStep(cursor + k, 1);
      AllProbesMiss(live, cursor, k + 1, tries);
    }
  }

  lemma MissedIsMissed(n: nat, cursor: nat, i: nat)
    requires 0 < n && cursor < CURSOR && !Steady(n, cursor) && i < n < CURSOR
    ensures Missed(n, cursor) < n && Probe(n, cursor, i) != Missed(n, cursor)
  {
    var before, r := CURSOR - cursor, CURSOR % n;
    if i >= before {
      assert Wrap(cursor + i) == i - before;
      ModUnique(i - before, n, 0, i - before);
    } else {
      var k := before - i;
      assert Wrap(cursor + i) == CURSOR - k;
      var q := CURSOR / n;
      if k <= r {
        ModUnique(CURSOR - k, n, q, r - k);
      } else {
        assert n * (q - 1) == n * q - n;
        ModUnique(CURSOR - k, n, q - 1, n + r - k);
      }
    }
  }

  function OnlyLive(n: nat, x: nat): (live: seq<bool>)
    ensures |live| == n && forall i :: 0 <= i < n ==> (live[i] <==> i == x)
  {
    seq(n, i => i == x)
  }

  lemma NeverProbed(n: nat, cursor: nat, x: nat)
    requires 0 < n && cursor < CURSOR && forall i: nat :: i < n ==> Probe(n, cursor, i) != x
    ensures Select(OnlyLive(n, x), cursor, n).0 == -1
  {
    var live := OnlyLive(n, x);
    forall i: nat | i < n ensures !live[Probe(n, cursor, i)] { assert Probe(n, cursor, i) != x; }
    AllProbesMiss(live, cursor, 0, n);
    assert Wrap(cursor + 0) == cursor;
  }

  lemma OnlyMissedAlive(n: nat, cursor: nat) returns (live: seq<bool>)
    requires 0 < n < CURSOR && cursor < CURSOR && !Steady(n, cursor)
    ensures |live| == n && true in live && Select(live, cursor, n).0 == -1
  {
    var x := Missed(n, cursor);
    forall i: nat | i < n ensures x < n && Probe(n, cursor, i) != x { MissedIsMissed(n, cursor, i); }
    assert Probe(n, cursor, 0) != x;
    live := OnlyLive(n, x);
    NeverProbed(n, cursor, x);
    assert live[x];
  }

  /**
   A selection finds a live connection whichever one is alive, if and only if the cursor does
   not wrap during the call or the count divides the cursor's range.
   */
  lemma FindsLiveIff(n: nat, cursor: nat)
    requires 0 < n < CURSOR && cursor < CURSOR
    ensures (forall live: seq<bool> :: |live| == n && true in live ==> Select(live, cursor, n).0 != -1)
            <==> Steady(n, cursor)
  {
    if Steady(n, cursor) {
      forall live: seq<bool> | |live| == n && true in live ensures Select(live, cursor, n).0 != -1 {
        SelectionComplete(live, cursor);
      }
    } else {
      var live := OnlyMissedAlive(n, cursor);
    }
  }

  /** Three connections, only the last alive, and a cursor about to wrap: it is not found. */
  lemma WrapLosesConnection()
    ensures Select([false, false, true], 0xFFFF_FFFF, 3).0 == -1
  {
    var live := [false, false, true];
    forall i: nat | i < 3 ensures !live[Probe(3, 0xFFFF_FFFF, i)] {
      MissedIsMissed(3, 0xFFFF_FFFF, i);
    }
    AllProbesMiss(live, 0xFFFF_FFFF, 0, 3);
    assert Wrap(0xFFFF_FFFF + 0) == 0xFFFF_FFFF;
  }

  /**
   The `int` result is -1 only when nothing was found, however many connections there are,
   and is the connection's index as long as an `int` can hold it.
   */
  lemma ResultTells(id: int, n: nat)
    requires -1 <= id < n < CURSOR
    ensures var r := if id < 0 then -1 else ToInt32(id);
            (r == -1 <==> id == -1) && (r == id <==> id < 0x8000_0000)
  {
  }

  // ---------- many selections ----------

  /** The ids that `m` consecutive selections return. */
  function Picks(live: seq<bool>, cursor: nat, m: nat): seq<int>
    requires live != []
    decreases m
  {
    if m == 0 then []
    else
      var (id, next) := Select(live, cursor, |live|);
      [id] + Picks(live, next, m - 1)
  }

  /** Where an unbounded cursor stands after them. */
  function EndOf(live: seq<bool>, c: nat, m: nat): (e: nat)
    requires live != []
    ensures e >= c
    decreases m
  {
    if m == 0 then c else EndOf(live, FirstLive(live, c, |live|) + 1, m - 1)
  }

  function Count(xs: seq<int>, id: int): nat {
    if xs == [] then 0 else (if xs[0] == id then 1 else 0) + Count(xs[1..], id)
  }

  /** How often the positions from `a` up to `b` probe connection `id`. */
  function Hits(n: nat, id: nat, a: nat, b: nat): nat
    requires n > 0 && a <= b
    decreases b - a
  {
    if a == b then 0 else (if At(n, a) == id then 1 else 0) + Hits(n, id, a + 1, b)
  }

  lemma {:induction false} HitsSplit(n: nat, id: nat, a: nat, b: nat, c: nat)
    requires n > 0 && a <= b <= c
    ensures Hits(n, id, a, c) == Hits(n, id, a, b) + Hits(n, id, b, c)
    decreases b - a
  {
    if a < b { HitsSplit(n, id, a + 1, b, c); }
  }

  /** Passing over dead connections probes no live one. */
  lemma {:induction false} NoHits(live: seq<bool>, id: nat, a: nat, b: nat)
    requires live != [] && id < |live| && live[id] && a <= b
    requires forall u: nat :: a <= u < b ==> !live[At(|live|, u)]
    ensures Hits(|live|, id, a, b) == 0
    decreases b - a
  {
    if a < b { NoHits(live, id, a + 1, b); }
  }

  lemma {:induction false} FirstLiveStops(live: seq<bool>, c: nat, tries: nat, t: nat)
    requires live != [] && t == FirstLive(live, c, tries) < c + tries
    ensures FirstLive(live, c, t + 1 - c) == t
    decreases tries
  {
    if t > c { FirstLiveStops(live, c + 1, tries - 1, t); }
  }

  /** A search that succeeds gives the same result with more tries. */
  lemma {:induction false} StopsEarly(live: seq<bool>, cursor: nat, few: nat, many: nat)
    requires live != [] && few <= many && Select(live, cursor, few).0 != -1
    ensures Select(live, cursor, many) == Select(live, cursor, few)
    decreases few
  {
    if few > 0 && !live[At(|live|, cursor)] { StopsEarly(live, Wrap(cursor + 1), few - 1, many - 1); }
  }

  /** A selection that can succeed picks the first live connection. */
  lemma PickIsFirstLive(live: seq<bool>, c: nat, id: nat)
    requires id < |live| && live[id]
    requires var t := FirstLive(live, c, |live|); t + 1 <= CURSOR || CURSOR % |live| == 0
    ensures var n, t := |live|, FirstLive(live, c, |live|);
            && t < c + n
            && Select(live, Wrap(c), n) == (At(n, t) as int, Wrap(t + 1))
  {
    var n, t := |live|, FirstLive(live, c, |live|);
    var u := LapPasses(n, c, id);
    assert t <= u;
    FirstLiveStops(live, c, n, t);
    SelectIsFirstLive(live, c, t + 1 - c);
    StopsEarly(live, Wrap(c), t + 1 - c, n);
  }

  lemma CountCons(x: int, xs: seq<int>, id: int)
    ensures Count([x] + xs, id) == (if x == id then 1 else 0) + Count(xs, id)
  {
    assert ([x] + xs)[1..] == xs;
  }

  /** A live connection is selected exactly as often as the cursor passes it. */
  lemma {:induction false} SelectedWhenPassed(live: seq<bool>, c: nat, m: nat, id: nat)
    requires id < |live| && live[id]
    requires EndOf(live, c, m) <= CURSOR || CURSOR % |live| == 0
    ensures Count(Picks(live, Wrap(c), m), id) == Hits(|live|, id, c, EndOf(live, c, m))
    decreases m
  {
    if m > 0 {
      var n, t, e := |live|, FirstLive(live, c, |live|), EndOf(live, c, m);
      PickIsFirstLive(live, c, id);
      SelectedWhenPassed(live, t + 1, m - 1, id);
      CountCons(At(n, t), Picks(live, Wrap(t + 1), m - 1), id);
      HitsSplit(n, id, c, t, e);
      NoHits(live, id, c, t);
    }
  }

  /** Nothing else within a lap of `u` probes what `u` probes. */
  lemma {:induction false} HitsApart(n: nat, id: nat, a: nat, b: nat, u: nat)
    requires id < n && At(n, u) == id && a <= b
    requires (b <= u && u < a + n) || (u < a && b <= u + n)
    ensures Hits(n, id, a, b) == 0
    decreases b - a
  {
    if a < b {
      if a < u { ModDistinct(a, u, n); } else { ModDistinct(u, a, n); }
      HitsApart(n, id, a + 1, b, u);
    }
  }

  /** Any lap probes each connection once. */
  lemma {:induction false} HitsLap(n: nat, id: nat, a: nat)
    requires id < n
    ensures Hits(n, id, a, a + n) == 1
    decreases a
  {
    var u := LapPasses(n, a, id);
    HitsSplit(n, id, a, u, a + n);
    HitsApart(n, id, a, u, u);
    HitsApart(n, id, u + 1, a + n, u);
  }

  /** The number of probes depends on the connection by at most one. */
  lemma {:induction false} HitsEven(n: nat, i: nat, j: nat, a: nat, b: nat)
    requires i < n && j < n && a <= b
    ensures Hits(n, i, a, b) <= Hits(n, j, a, b) + 1
    decreases b - a
  {
    HitsLap(n, i, a);
    HitsLap(n, j, a);
    if b >= a + n {
      HitsSplit(n, i, a, a + n, b);
      HitsSplit(n, j, a, a + n, b);
      HitsEven(n, i, j, a + n, b);
    } else {
      HitsSplit(n, i, a, b, a + n);
    }
  }

  /**
   Round robin is fair: while the set of live connections does not change, any two of them
   have been selected equally often, give or take one.
   */
  lemma Fair(live: seq<bool>, cursor: nat, m: nat, i: nat, j: nat)
    requires i < |live| && j < |live| && live[i] && live[j] && cursor < CURSOR
    requires EndOf(live, cursor, m) <= CURSOR || CURSOR % |live| == 0
    ensures Count(Picks(live, cursor, m), i) <= Count(Picks(live, cursor, m), j) + 1
  {
    assert Wrap(cursor) == cursor;
    SelectedWhenPassed(live, cursor, m, i);
    SelectedWhenPassed(live, cursor, m, j);
    HitsEven(|live|, i, j, cursor, EndOf(live, cursor, m));
  }

  // ---------- when it is fair ----------

  function AllLive(n: nat): (live: seq<bool>)
    ensures |live| == n && forall i :: 0 <= i < n ==> live[i]
  {
    seq(n, _ => true)
  }

  /** With all connections alive, a selection takes the one the cursor stands at. */
  lemma PickAll(n: nat, cursor: nat, m: nat, id: nat)
    requires n > 0 && m > 0
    ensures Count(Picks(AllLive(n), cursor, m), id)
         == (if At(n, cursor) == id then 1 else 0) + Count(Picks(AllLive(n), Wrap(cursor + 1), m - 1), id)
  {
    assert Select(AllLive(n), cursor, n) == (At(n, cursor) as int, Wrap(cursor + 1));
    CountCons(At(n, cursor), Picks(AllLive(n), Wrap(cursor + 1), m - 1), id);
  }

  /** Position `k` of the lap that the wrap cuts short. */
  lemma CutLap(n: nat, k: nat)
    requires 0 < n < CURSOR && k < CURSOR % n
    ensures At(n, CURSOR - CURSOR % n + k) == k && Wrap(CURSOR - CURSOR % n + k) == CURSOR - CURSOR % n + k
  {
    ModUnique(CURSOR - CURSOR % n + k, n, CURSOR / n, k);
  }

  /**
   The rest of that lap from position `k` on and one selection more: the wrap comes back to
   connection 0 before connection `CURSOR % n` has had its turn.
   */
  lemma {:induction false} LapCutShort(n: nat, k: nat)
    requires 0 < n < CURSOR && CURSOR % n > 0 && k <= CURSOR % n
    ensures var r := CURSOR % n;
            var picks := Picks(AllLive(n), Wrap(CURSOR - r + k), r - k + 1);
            Count(picks, 0) == (if k == 0 then 2 else 1) && Count(picks, r) == 0
    decreases CURSOR % n - k
  {
    var r := CURSOR % n;
    PickAll(n, Wrap(CURSOR - r + k), r - k + 1, 0);
    PickAll(n, Wrap(CURSOR - r + k), r - k + 1, r);
    if k < r {
      CutLap(n, k);
      LapCutShort(n, k + 1);
    } else {
      assert At(n, 0) == 0;
    }
  }

  /** The promise of round robin for one run. */
  predicate EvenRun(live: seq<bool>, cursor: nat, m: nat, i: nat, j: nat)
    requires i < |live| && j < |live|
  {
    live[i] && live[j] && cursor < CURSOR ==>
      Count(Picks(live, cursor, m), i) <= Count(Picks(live, cursor, m), j) + 1
  }

  /** Round robin is fair over every run, past any wrap, if and only if the count divides 2^32. */
  lemma FairIff(n: nat)
    requires 0 < n < CURSOR
    ensures (forall live: seq<bool>, cursor: nat, m: nat, i: nat, j: nat ::
               |live| == n && i < n && j < n ==> EvenRun(live, cursor, m, i, j))
            <==> CURSOR % n == 0
  {
    var r := CURSOR % n;
    if r == 0 {
      forall live: seq<bool>, cursor: nat, m: nat, i: nat, j: nat | |live| == n && i < n && j < n
        ensures EvenRun(live, cursor, m, i, j)
      {
        if live[i] && live[j] && cursor < CURSOR { Fair(live, cursor, m, i, j); }
      }
    } else {
      CutLap(n, 0);
      LapCutShort(n, 0);
      assert !EvenRun(AllLive(n), CURSOR - r, r + 1, 0, r);
    }
  }

  // ---------- how unfair it can get ----------

  /** How many probes one selection makes. */
  function Probes(live: seq<bool>, cursor: nat, tries: nat): (p: nat)
    requires live != []
    ensures p <= tries
    decreases tries
  {
    if tries == 0 then 0
    else if live[At(|live|, cursor)] then 1
    else 1 + Probes(live, Wrap(cursor + 1), tries - 1)
  }

  /** How many probes `m` consecutive selections make. */
  function Travelled(live: seq<bool>, cursor: nat, m: nat): nat
    requires live != []
    decreases m
  {
    if m == 0 then 0
    else Probes(live, cursor, |live|) + Travelled(live, Select(live, cursor, |live|).1, m - 1)
  }

  /** How often the positions from `a` up to `b` of an unbounded cursor probe `id` once wrapped. */
  function WrappedHits(n: nat, id: nat, a: nat, b: nat): nat
    requires n > 0 && a <= b
    decreases b - a
  {
    if a == b then 0 else (if At(n, Wrap(a)) == id then 1 else 0) + WrappedHits(n, id, a + 1, b)
  }

  lemma {:induction false} WrappedSplit(n: nat, id: nat, a: nat, b: nat, c: nat)
    requires n > 0 && a <= b <= c
    ensures WrappedHits(n, id, a, c) == WrappedHits(n, id, a, b) + WrappedHits(n, id, b, c)
    decreases b - a
  {
    if a < b { WrappedSplit(n, id, a + 1, b, c); }
  }

  /** A selection returns a live connection exactly when it probes it. */
  lemma {:induction false} SelectHits(live: seq<bool>, c: nat, tries: nat, id: nat)
    requires id < |live| && live[id]
    ensures var p := Probes(live, Wrap(c), tries);
            && Select(live, Wrap(c), tries).1 == Wrap(c + p)
            && WrappedHits(|live|, id, c, c + p) == if Select(live, Wrap(c), tries).0 == id then 1 else 0
    decreases tries
  {
    if tries > 0 {
      WrapStep(c, 1);
      if !live[At(|live|, Wrap(c))] { SelectHits(live, c + 1, tries - 1, id); }
    }
  }

  /** Over a run, a live connection is selected as often as it is probed. */
  lemma {:induction false} PicksHits(live: seq<bool>, c: nat, cursor: nat, m: nat, id: nat)
    requires id < |live| && live[id] && cursor == Wrap(c)
    ensures Count(Picks(live, cursor, m), id) == WrappedHits(|live|, id, c, c + Travelled(live, cursor, m))
    decreases m
  {
    if m > 0 {
      var p := Probes(live, cursor, |live|);
      var (pick, next) := Select(live, cursor, |live|);
      SelectHits(live, c, |live|, id);
      PicksHits(live, c + p, next, m - 1, id);
      CountCons(pick, Picks(live, next, m - 1), id);
      WrappedSplit(|live|, id, c, c + p, c + Travelled(live, cursor, m));
    }
  }

  /** Between two wraps the field and the unbounded cursor differ by a constant. */
  lemma {:induction false} HitsBetweenWraps(n: nat, id: nat, q: nat, a: nat, b: nat)
    requires n > 0 && a <= b <= CURSOR
    ensures WrappedHits(n, id, q * CURSOR + a, q * CURSOR + b) == Hits(n, id, a, b)
    decreases b - a
  {
    if a < b {
      ModUnique(q * CURSOR + a, CURSOR, q, a);
      HitsBetweenWraps(n, id, q, a + 1, b);
    }
  }

  /** How often a cursor that has travelled from `a` up to `b` has wrapped and gone on. */
  function Wraps(a: nat, b: nat): nat
    requires a <= b
  {
    if a == b then 0 else (b - 1) / CURSOR - a / CURSOR
  }

  lemma EvenBetweenWraps(n: nat, i: nat, j: nat, q: nat, a: nat, b: nat)
    requires i < n && j < n && a <= b <= CURSOR
    ensures WrappedHits(n, i, q * CURSOR + a, q * CURSOR + b) <= WrappedHits(n, j, q * CURSOR + a, q * CURSOR + b) + 1
  {
    HitsBetweenWraps(n, i, q, a, b);
    HitsBetweenWraps(n, j, q, a, b);
    HitsEven(n, i, j, a, b);
  }

  /** Between wraps the probes are even; each wrap can add one. */
  lemma {:induction false} WrappedEven(n: nat, i: nat, j: nat, a: nat, b: nat)
    requires i < n && j < n && a <= b
    ensures WrappedHits(n, i, a, b) <= WrappedHits(n, j, a, b) + 1 + Wraps(a, b)
    decreases b - a
  {
    var q, x := a / CURSOR, a % CURSOR;
    var next := (q + 1) * CURSOR;
    if b <= next {
      EvenBetweenWraps(n, i, j, q, x, b - q * CURSOR);
    } else {
      EvenBetweenWraps(n, i, j, q, x, CURSOR);
      WrappedSplit(n, i, a, next, b);
      WrappedSplit(n, j, a, next, b);
      WrappedEven(n, i, j, next, b);
    }
  }

  /**
   For any number of connections and any run, any two live connections have been selected
   equally often, give or take one and one more for each wrap of the cursor.
   */
  lemma FairUpToWraps(live: seq<bool>, cursor: nat, m: nat, i: nat, j: nat)
    requires i < |live| && j < |live| && live[i] && live[j] && cursor < CURSOR
    ensures Count(Picks(live, cursor, m), i)
         <= Count(Picks(live, cursor, m), j) + 1 + Wraps(cursor, cursor + Travelled(live, cursor, m))
  {
    var end := cursor + Travelled(live, cursor, m);
    PicksHits(live, cursor, cursor, m, i);
    PicksHits(live, cursor, cursor, m, j);
    WrappedEven(|live|, i, j, cursor, end);
  }

  // ---------- the host list ----------

  /** The host and port a segment names, if it has exactly these two parts. */
  function HostOf(segment: string): seq<(string, string)> {
    var parts := Split(segment, ':');
    if |parts| == 2 then [(parts[0], parts[1])] else []
  }

  /** The hosts that the segments name, in order. */
  function Hosts(segments: seq<string>): seq<(string, string)> {
    if segments == [] then [] else HostOf(segments[0]) + Hosts(segments[1..])
  }

  function Segments(hosts: seq<(string, string)>): seq<string> {
    if hosts == [] then [] else [hosts[0].0 + [':'] + hosts[0].1] + Segments(hosts[1..])
  }

  lemma {:induction false} HostsSnoc(segments: seq<string>, x: string)
    ensures Hosts(segments + [x]) == Hosts(segments) + HostOf(x)
  {
    if segments == [] {
      assert segments + [x] == [x];
    } else {
      assert (segments + [x])[1..] == segments[1..] + [x];
      HostsSnoc(segments[1..], x);
    }
  }

  predicate Plain(h: (string, string)) {
    && ':' !in h.0 && ';' !in h.0
    && ':' !in h.1 && ';' !in h.1 && h.1 != []
  }

  /** A segment names a host: two parts free of `:` with one between them, and perhaps one after. */
  ghost predicate Names(segment: string, host: string, port: string) {
    && ':' !in host && ':' !in port
    && ((segment == host + [':'] + port && port != []) || segment == host + [':'] + (port + [':']))
  }

  lemma OnePart(s: string, part: string)
    requires Split(s, ':') == [part]
    ensures ':' !in part && ((s == part && part != []) || s == part + [':'])
  {
    var n := Find(s, ':');
    SplitHead(s, ':', n);
    if n < |s| {
      Divides(s, ':');
      assert Split(s[n + 1..], ':') == [] && s[n + 1..] == [];
    } else {
      assert s[..n] == s;
    }
  }

  lemma TwoParts(segment: string, host: string, port: string)
    requires Split(segment, ':') == [host, port]
    ensures Names(segment, host, port)
  {
    var n := Find(segment, ':');
    SplitHead(segment, ':', n);
    HeadAndTail([host, port], host, [port]);
    Divides(segment, ':');
    OnePart(segment[n + 1..], port);
  }

  /** Exactly the segments of that form are taken for a host and its port. */
  lemma HostOfIff(segment: string, host: string, port: string)
    ensures HostOf(segment) == [(host, port)] <==> Names(segment, host, port)
  {
    if Names(segment, host, port) {
      if segment == host + [':'] + port && port != [] {
        SplitCons(host, port, ':');
        SplitLast(port, ':');
      } else {
        SplitCons(host, port + [':'], ':');
        SplitCons(port, [], ':');
        assert port + [':'] + [] == port + [':'];
      }
    }
    if HostOf(segment) == [(host, port)] { TwoParts(segment, host, port); }
  }

  lemma HostOfSegment(h: (string, string))
    requires Plain(h)
    ensures HostOf(h.0 + [':'] + h.1) == [h]
  {
    SplitCons(h.0, h.1, ':');
    SplitLast(h.1, ':');
  }

  lemma {:induction false} HostsOfSegments(hosts: seq<(string, string)>)
    requires forall h :: h in hosts ==> Plain(h)
    ensures Hosts(Segments(hosts)) == hosts
    ensures forall s :: s in Segments(hosts) ==> ';' !in s && s != []
  {
    if hosts != [] {
      assert Plain(hosts[0]);
      HostsOfSegments(hosts[1..]);
      HostOfSegment(hosts[0]);
      assert Segments(hosts)[1..] == Segments(hosts[1..]);
    }
  }

  /** A host list written as the comment of `init` describes is parsed back to its hosts. */
  lemma HostListRoundTrip(hosts: seq<(string, string)>)
    requires forall h :: h in hosts ==> Plain(h)
    ensures Hosts(Split(Join(Segments(hosts), ';'), ';')) == hosts
  {
    HostsOfSegments(hosts);
    var segments := Segments(hosts);
    if segments != [] { assert segments[|segments| - 1] in segments; }
    SplitJoin(segments, ';');
  }

  /** What comes of making a client: no memory for it, or whether it could connect. */
  datatype Dial = NoMemory | Dialled(up: bool)

  /** The client made for a segment, if the segment names a host and there is memory. */
  function ClientOf(segment: string, timeout: int, dial: Dial): seq<Client> {
    var host := HostOf(segment);
    if host == [] || dial.NoMemory? then [] else [Client(host[0].0, host[0].1, timeout, dial.up)]
  }

  /** The clients made for a list of segments; `dial(k)` is what comes of the `k`-th. */
  function Clients(segments: seq<string>, timeout: int, dial: nat -> Dial): seq<Client> {
    if segments == [] then []
    else
      var k := |segments| - 1;
      Clients(segments[..k], timeout, dial) + ClientOf(segments[k], timeout, dial(k))
  }

  function Addresses(cs: seq<Client>): (r: seq<(string, string)>)
    ensures |r| == |cs| && forall i :: 0 <= i < |cs| ==> r[i] == (cs[i].host, cs[i].port)
  {
    seq(|cs|, i requires 0 <= i < |cs| => (cs[i].host, cs[i].port))
  }

  lemma AddressOf(segment: string, timeout: int, dial: Dial)
    requires dial.Dialled?
    ensures Addresses(ClientOf(segment, timeout, dial)) == HostOf(segment)
  {
  }

  lemma AddressesAppend(a: seq<Client>, b: seq<Client>)
    ensures Addresses(a + b) == Addresses(a) + Addresses(b)
  {
  }

  /** With memory for all, there is one client for each host named, in order. */
  lemma {:induction false} ClientsAreHosts(segments: seq<string>, timeout: int, dial: nat -> Dial)
    requires forall k: nat :: k < |segments| ==> dial(k).Dialled?
    ensures Addresses(Clients(segments, timeout, dial)) == Hosts(segments)
    decreases |segments|
  {
    if segments != [] {
      var k := |segments| - 1;
      var init, x := segments[..k], segments[k];
      ClientsAreHosts(init, timeout, dial);
      HostsSnoc(init, x);
      assert segments == init + [x];
      AddressOf(x, timeout, dial(k));
      AddressesAppend(Clients(init, timeout, dial), ClientOf(x, timeout, dial(k)));
    }
  }

  /** The segments for which a client is made. */
  function Positions(segments: seq<string>, dial: nat -> Dial): (r: seq<nat>)
    ensures forall i, j :: 0 <= i < j < |r| ==> r[i] < r[j]
    ensures forall k :: k in r <==> 0 <= k < |segments| && HostOf(segments[k]) != [] && dial(k).Dialled?
  {
    if segments == [] then []
    else
      var k := |segments| - 1;
      var rest := Positions(segments[..k], dial);
      assert forall i :: 0 <= i < |rest| ==> rest[i] in rest;
      rest + if HostOf(segments[k]) == [] || dial(k).NoMemory? then [] else [k]
  }

  /** Each of them has the host, the port, the timeout and the fate of its own segment. */
  lemma {:induction false} ClientsAt(segments: seq<string>, timeout: int, dial: nat -> Dial)
    ensures var cs, ks := Clients(segments, timeout, dial), Positions(segments, dial);
            && |cs| == |ks|
            && forall i :: 0 <= i < |ks| ==>
                 var k := ks[i];
                 && k in ks
                 && cs[i] == Client(HostOf(segments[k])[0].0, HostOf(segments[k])[0].1, timeout, dial(k).up)
    decreases |segments|
  {
    if segments != [] {
      var k := |segments| - 1;
      ClientsAt(segments[..k], timeout, dial);
      forall i | 0 <= i < |Positions(segments, dial)| ensures Positions(segments, dial)[i] in Positions(segments, dial) { }
    }
  }

  lemma ClientsSnoc(addrs: seq<string>, i: nat, timeout: int, dial: nat -> Dial)
    requires i < |addrs|
    ensures Clients(addrs[..i + 1], timeout, dial) ==
            Clients(addrs[..i], timeout, dial) + ClientOf(addrs[i], timeout, dial(i))
  {
    assert addrs[..i + 1][..i] == addrs[..i];
  }

  /** Which connections are alive. */
  function LiveSet(cs: seq<Client>): (live: seq<bool>)
    ensures |live| == |cs| && forall i :: 0 <= i < |cs| ==> live[i] == cs[i].alive
  {
    seq(|cs|, i requires 0 <= i < |cs| => cs[i].alive)
  }

  class TcpClientMgr {
    var m_connections: seq<Client>
    var m_conn_count: nat
    var m_conn_index: nat
    var m_send_type: int

    ghost predicate Valid()
      reads this
    {
      m_conn_count == |m_connections| && m_conn_index < CURSOR
    }

    constructor ()
      ensures Valid() && m_connections == [] && m_conn_index == 0
    {
      m_connections, m_conn_count, m_conn_index, m_send_type := [], 0, 0, 0;
    }

    /** The body of the loop of `init`. */
    method AddHost(segment: string, timeout: int, dial: Dial)
      requires Valid()
      modifies `m_connections, `m_conn_count
      ensures Valid() && m_connections == old(m_connections) + ClientOf(segment, timeout, dial)
    {
      var parts := SplitInto(segment, ':');
      if |parts| != 2 { return; }
      if dial.NoMemory? { return; }
      m_connections := m_connections + [Client(parts[0], parts[1], timeout, dial.up)];
      m_conn_count := m_conn_count + 1;
    }

    /** One client per well-formed segment for which there is memory. */
    method Init(hostList: string, sendType: int, timeout: int, dial: nat -> Dial) returns (r: int)
      requires Valid()
      modifies this
      ensures Valid() && m_conn_index == old(m_conn_index)
      ensures r == if old(m_conn_count) == 0 && hostList == [] then -1 else 0
      ensures old(m_conn_count) > 0 || hostList == [] ==> unchanged(this)
      ensures old(m_conn_count) == 0 && hostList != [] ==>
                && m_connections == Clients(Split(hostList, ';'), timeout, dial)
                && m_send_type == if sendType == 0 then 0 else 1
    {
      if m_conn_count > 0 { return 0; }
      if hostList == [] { return -1; }
      m_send_type := sendType;
      if m_send_type != 0 && m_send_type != 1 { m_send_type := 1; }
      var addrs := SplitInto(hostList, ';');
      for i := 0 to |addrs|
        invariant Valid() && m_conn_index == old(m_conn_index)
        invariant m_send_type == if sendType == 0 then 0 else 1
        invariant m_connections == Clients(addrs[..i], timeout, dial)
      {
        ClientsSnoc(addrs, i, timeout, dial);
        AddHost(addrs[i], timeout, dial(i));
      }
      assert addrs[..|addrs|] == addrs;
      r := 0;
    }

    method Uninit() returns (r: int)
      modifies this
      ensures Valid() && m_connections == [] && m_conn_index == 0 && m_send_type == old(m_send_type) && r == 0
    {
      m_connections, m_conn_count, m_conn_index := [], 0, 0;
      r := 0;
    }

    method SelectConnection() returns (r: int)
      requires Valid()
      modifies `m_conn_index
      ensures Valid()
      ensures m_conn_count == 0 ==> r == -1 && m_conn_index == old(m_conn_index)
      ensures m_conn_count > 0 ==>
                var (id, next) := Select(LiveSet(m_connections), old(m_conn_index), m_conn_count);
                m_conn_index == next && r == if id < 0 then -1 else ToInt32(id)
    {
      if m_conn_count == 0 { return -1; }
      for i := 0 to m_conn_count
        invariant m_conn_index < CURSOR
        invariant Select(LiveSet(m_connections), old(m_conn_index), m_conn_count) == Select(LiveSet(m_connections), m_conn_index, m_conn_count - i)
      {
        var id := At(m_conn_count, m_conn_index);
        m_conn_index := Wrap(m_conn_index + 1);
        if m_connections[id].alive { return ToInt32(id); }
      }
      r := -1;
    }

    /** As `select_connection`, but hands out the connection; `found` is a non-null pointer. */
    method GetAvailableConnection() returns (found: bool, id: nat)
      requires Valid()
      modifies `m_conn_index
      ensures Valid()
      ensures m_conn_count == 0 ==> !found && m_conn_index == old(m_conn_index)
      ensures m_conn_count > 0 ==>
                var (pick, next) := Select(LiveSet(m_connections), old(m_conn_index), m_conn_count);
                m_conn_index == next && (found <==> pick != -1) && (found ==> id == pick < |m_connections|)
    {
      found, id := false, 0;
      if m_conn_count == 0 { return; }
      for i := 0 to m_conn_count
        invariant m_conn_index < CURSOR && !found
        invariant Select(LiveSet(m_connections), old(m_conn_index), m_conn_count) == Select(LiveSet(m_connections), m_conn_index, m_conn_count - i)
      {
        id := At(m_conn_count, m_conn_index);
        m_conn_index := Wrap(m_conn_index + 1);
        if m_connections[id].alive { return true, id; }
      }
    }
  }
}

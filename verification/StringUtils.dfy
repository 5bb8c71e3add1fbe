/** The hand-written scanners of string_utils.cpp: `split`, `trim` and `is_utf8`. */
module StringUtils {
  import opened Bits
  import opened Sequences

  // ---------- split ----------

  predicate IsFirst(s: string, d: char, n: nat) {
    n <= |s| && (forall k :: 0 <= k < n ==> s[k] != d) && (n < |s| ==> s[n] == d)
  }

  /** The position of the first `d`, or the length. */
  function Find(s: string, d: char): (n: nat)
    ensures IsFirst(s, d, n)
  {
    if s == [] || s[0] == d then 0 else 1 + Find(s[1..], d)
  }

  lemma FindIs(s: string, d: char, n: nat)
    requires IsFirst(s, d, n)
    ensures Find(s, d) == n
  {
  }

  /** The pieces between delimiters; nothing follows a delimiter at the very end. */
  function Split(s: string, d: char): seq<string>
    decreases |s|
  {
    if s == [] then []
    else
      var n := Find(s, d);
      [s[..n]] + if n < |s| then Split(s[n + 1..], d) else []
  }

  /** What the first delimiter divides. */
  lemma Divides(s: string, d: char)
    requires Find(s, d) < |s|
    ensures s == s[..Find(s, d)] + [d] + s[Find(s, d) + 1..]
  {
  }

  lemma HeadAndTail<T>(all: seq<T>, x: T, rest: seq<T>)
    requires all == [x] + rest
    ensures all != [] && all[0] == x && all[1..] == rest
  {
  }

  /** The first piece and the others. */
  lemma SplitHead(s: string, d: char, n: nat)
    requires s != [] && n == Find(s, d)
    ensures Split(s, d) != [] && Split(s, d)[0] == s[..n]
    ensures Split(s, d)[1..] == if n < |s| then Split(s[n + 1..], d) else []
  {
    HeadAndTail(Split(s, d), s[..n], if n < |s| then Split(s[n + 1..], d) else []);
  }

  function Join(ps: seq<string>, d: char): string {
    if ps == [] then []
    else if |ps| == 1 then ps[0]
    else ps[0] + [d] + Join(ps[1..], d)
  }

  predicate EndsIn(s: string, d: char) {
    s != [] && s[|s| - 1] == d
  }

  lemma JoinCons(p: string, ps: seq<string>, d: char)
    ensures Join([p] + ps, d) == if ps == [] then p else p + [d] + Join(ps, d)
  {
    assert ([p] + ps)[1..] == ps;
  }

  lemma SplitCons(p: string, rest: string, d: char)
    requires d !in p
    ensures Split(p + [d] + rest, d) == [p] + Split(rest, d)
  {
    var s := p + [d] + rest;
    FindIs(s, d, |p|);
    assert s[..|p|] == p && s[|p| + 1..] == rest;
  }

  lemma NoDelimiter(s: string, d: char)
    requires Find(s, d) == |s|
    ensures !EndsIn(s, d) && Join(Split(s, d), d) == s
  {
    assert s[..|s|] == s;
  }

  lemma EndsInTail(p: string, rest: string, d: char)
    requires rest != []
    ensures EndsIn(p + [d] + rest, d) <==> EndsIn(rest, d)
  {
    assert (p + [d] + rest)[|p| + |rest|] == rest[|rest| - 1];
  }

  lemma JoinSplitStep(p: string, rest: string, d: char)
    requires d !in p
    ensures var s := p + [d] + rest;
            var tail := if EndsIn(rest, d) then [d] else [];
            Join(Split(s, d), d) + (if EndsIn(s, d) then [d] else []) == p + [d] + (Join(Split(rest, d), d) + tail)
  {
    SplitCons(p, rest, d);
    JoinCons(p, Split(rest, d), d);
    if rest == [] {
      assert p + [d] + [] == p + [d];
    } else {
      EndsInTail(p, rest, d);
      ConcatAssoc(p + [d], Join(Split(rest, d), d), if EndsIn(rest, d) then [d] else []);
    }
  }

  /** Joining the pieces gives the input back, up to a delimiter at its end. */
  lemma {:induction false} JoinSplit(s: string, d: char)
    ensures Join(Split(s, d), d) + (if EndsIn(s, d) then [d] else []) == s
    decreases |s|
  {
    var n := Find(s, d);
    if n < |s| {
      var p, rest := s[..n], s[n + 1..];
      assert s == p + [d] + rest;
      JoinSplit(rest, d);
      JoinSplitStep(p, rest, d);
    } else {
      NoDelimiter(s, d);
    }
  }

  /** No piece contains the delimiter. */
  lemma {:induction false} PieceIsClean(s: string, d: char, p: string)
    requires p in Split(s, d)
    ensures d !in p
    decreases |s|
  {
    var n := Find(s, d);
    if p != s[..n] { PieceIsClean(s[n + 1..], d, p); }
  }

  lemma SplitLast(p: string, d: char)
    requires d !in p && p != []
    ensures Split(p, d) == [p]
  {
    FindIs(p, d, |p|);
    assert p[..|p|] == p;
  }

  lemma SplitJoinStep(p: string, rest: seq<string>, d: char)
    requires d !in p && rest != [] && Split(Join(rest, d), d) == rest
    ensures Split(Join([p] + rest, d), d) == [p] + rest
  {
    JoinCons(p, rest, d);
    SplitCons(p, Join(rest, d), d);
  }

  /** Any pieces free of the delimiter, the last not empty, are recovered from their join. */
  lemma {:induction false} SplitJoin(ps: seq<string>, d: char)
    requires forall p :: p in ps ==> d !in p
    requires ps != [] ==> ps[|ps| - 1] != []
    ensures Split(Join(ps, d), d) == ps
    decreases |ps|
  {
    if ps != [] {
      var p, rest := ps[0], ps[1..];
      assert p in ps && ps == [p] + rest;
      if rest == [] {
        SplitLast(p, d);
      } else {
        assert rest[|rest| - 1] == ps[|ps| - 1];
        SplitJoin(rest, d);
        SplitJoinStep(p, rest, d);
      }
    }
  }

  /** The characters before the next delimiter. */
  method TakeUntil(s: string, pos: nat, d: char) returns (item: string, end: nat)
    requires pos <= |s|
    ensures pos <= end <= |s| && item == s[pos..end] && (end < |s| ==> s[end] == d)
    ensures forall k :: pos <= k < end ==> s[k] != d
  {
    item, end := [], pos;
    while end < |s| && s[end] != d
      invariant pos <= end <= |s| && item == s[pos..end]
      invariant forall k :: pos <= k < end ==> s[k] != d
    {
      item, end := item + [s[end]], end + 1;
    }
  }

  /** Taking a piece off the front of what is left. */
  lemma LineTaken(s: string, pos: nat, end: nat, next: nat, item: string, d: char)
    requires pos < |s| && pos <= end <= |s| && (end < |s| ==> s[end] == d)
    requires item == s[pos..end] && forall k :: pos <= k < end ==> s[k] != d
    requires next == if end < |s| then end + 1 else end
    ensures Split(s[pos..], d) == [item] + Split(s[next..], d)
  {
    if end < |s| {
      assert s[pos..] == item + [d] + s[next..];
      SplitCons(item, s[next..], d);
    } else {
      assert item == s[pos..] && s[next..] == [];
      SplitLast(item, d);
    }
  }

  /** `getline` on what is left of the stream: it fails only when nothing is left. */
  method GetLine(s: string, pos: nat, d: char) returns (ok: bool, item: string, next: nat)
    requires pos <= |s|
    ensures pos <= next <= |s| && (ok <==> pos < |s|) && (ok ==> pos < next)
    ensures ok ==> Split(s[pos..], d) == [item] + Split(s[next..], d)
  {
    ok := pos < |s|;
    item, next := TakeUntil(s, pos, d);
    if ok {
      ghost var end := next;
      if next < |s| { next := next + 1; }
      LineTaken(s, pos, end, next, item, d);
    }
  }

  /** The loop of `split`. */
  method SplitInto(s: string, d: char) returns (elems: seq<string>)
    ensures elems == Split(s, d)
  {
    elems := [];
    assert s[0..] == s;
    ghost var at := 0;
    var ok, item, pos := GetLine(s, 0, d);
    while ok
      invariant 0 <= at <= pos <= |s| && (ok <==> at < |s|) && (ok ==> at < pos)
      invariant elems + Split(s[at..], d) == Split(s, d)
      invariant ok ==> Split(s[at..], d) == [item] + Split(s[pos..], d)
      decreases |s| - at
    {
      ConcatAssoc(elems, [item], Split(s[pos..], d));
      elems := elems + [item];
      at := pos;
      ok, item, pos := GetLine(s, pos, d);
    }
  }

  // ---------- trim ----------

  predicate AllIn(s: string, lo: nat, hi: nat, list: string) {
    forall k :: lo <= k < hi && k < |s| ==> s[k] in list
  }

  /** `r` is `s` without the longest runs of listed characters at its two ends. */
  ghost predicate Trimmed(s: string, list: string, r: string) {
    && (exists i: nat, j: nat :: i <= j <= |s| && r == s[i..j] && AllIn(s, 0, i, list) && AllIn(s, j, |s|, list))
    && (r != [] ==> r[0] !in list && r[|r| - 1] !in list)
  }

  /** Only one string fits that description. */
  lemma TrimmedUnique(s: string, list: string, r: string, r': string)
    requires Trimmed(s, list, r) && Trimmed(s, list, r')
    ensures r == r'
  {
    var i: nat, j: nat :| i <= j <= |s| && r == s[i..j] && AllIn(s, 0, i, list) && AllIn(s, j, |s|, list);
    var i': nat, j': nat :| i' <= j' <= |s| && r' == s[i'..j'] && AllIn(s, 0, i', list) && AllIn(s, j', |s|, list);
    if r != [] {
      assert i' <= i && j <= j';
    }
    if r' != [] {
      assert i <= i' && j' <= j;
    }
  }

  /** The two counting loops of `trim` and the erasures after them. */
  method Trim(s: string, list: string) returns (r: string)
    ensures Trimmed(s, list, r)
  {
    var cnt := 0;
    while cnt != |s|
      invariant 0 <= cnt <= |s| && AllIn(s, 0, cnt, list)
    {
      if s[cnt] !in list { break; }
      cnt := cnt + 1;
    }
    r := s[cnt..];
    ghost var front := cnt;
    if r == [] {
      assert r == s[|s|..|s|];
      return;
    }
    cnt := 0;
    var pos := |r| - 1;
    ghost var t := r;
    while pos > 0
      invariant 0 <= pos < |t| && pos + cnt == |t| - 1 && AllIn(t, pos + 1, |t|, list)
    {
      if r[pos] !in list { break; }
      pos := pos - 1;
      cnt := cnt + 1;
    }
    if cnt != 0 { r := r[..pos + 1]; }
    assert r == s[front..front + pos + 1] && AllIn(s, front + pos + 1, |s|, list) by {
      forall k | front + pos + 1 <= k < |s| ensures s[k] in list { assert s[k] == t[k - front]; }
    }
  }

  // ---------- is_utf8 ----------

  /** The length of the group a lead byte announces, or 0 if it announces none. */
  function GroupLen(b: byte): nat {
    if And(b, 0x80) == 0 then 1
    else if And(b, 0xE0) == 0xC0 then 2
    else if And(b, 0xF0) == 0xE0 then 3
    else if And(b, 0xF8) == 0xF0 then 4
    else 0
  }

  predicate IsTrail(b: byte) {
    And(b, 0xC0) == 0x80
  }

  /** One lead byte and the trail bytes it announces, as section 2 of RFC 2279 lays them out. */
  predicate WellFormed(g: seq<byte>) {
    && g != []
    && (match |g|
        case 1 => g[0] < 0x80
        case 2 => 0xC0 <= g[0] < 0xE0
        case 3 => 0xE0 <= g[0] < 0xF0
        case 4 => 0xF0 <= g[0] < 0xF8
        case _ => false)
    && forall k :: 1 <= k < |g| ==> 0x80 <= g[k] < 0xC0
  }

  lemma SmallPowers()
    ensures Pow2(1) == 2 && Pow2(2) == 4 && Pow2(3) == 8 && Pow2(4) == 16
    ensures Pow2(5) == 32 && Pow2(6) == 64 && Pow2(7) == 128 && Pow2(8) == 256
  {
    assert Pow2(1) == 2 * Pow2(0);
    assert Pow2(3) == 2 * Pow2(2);
    assert Pow2(5) == 2 * Pow2(4);
    assert Pow2(7) == 2 * Pow2(6);
  }

  /** A number is in the `t`-th unit exactly when rounding it down to units gives that unit. */
  lemma UnitOf(b: nat, unit: nat, t: nat)
    requires unit > 0
    ensures unit * (b / unit) == unit * t <==> unit * t <= b < unit * t + unit
  {
    if unit * t <= b < unit * t + unit { ModUnique(b, unit, t, b - unit * t); }
  }

  /** Masked to its `m` highest bits, a byte is `unit * t` when it lies in the `t`-th unit. */
  lemma KeepsHigh(b: byte, mask: nat, k: nat, m: nat, unit: nat, top: nat, t: nat)
    requires k + m == 8 && unit == Pow2(k) && top == Pow2(m) - 1 && mask == unit * top
    ensures And(b, mask) == unit * t <==> unit * t <= b < unit * t + unit
  {
    SmallPowers();
    HighMask(b, k, m);
    UnitOf(b, unit, t);
  }

  lemma Mask80(b: byte)
    ensures And(b, 0x80) == 0 <==> b < 0x80
  {
    SmallPowers();
    KeepsHigh(b, 0x80, 7, 1, 0x80, 1, 0);
  }

  lemma MaskE0(b: byte)
    ensures And(b, 0xE0) == 0xC0 <==> 0xC0 <= b < 0xE0
  {
    SmallPowers();
    KeepsHigh(b, 0xE0, 5, 3, 0x20, 7, 6);
  }

  lemma MaskF0(b: byte)
    ensures And(b, 0xF0) == 0xE0 <==> 0xE0 <= b < 0xF0
  {
    SmallPowers();
    KeepsHigh(b, 0xF0, 4, 4, 0x10, 15, 14);
  }

  lemma MaskF8(b: byte)
    ensures And(b, 0xF8) == 0xF0 <==> 0xF0 <= b < 0xF8
  {
    SmallPowers();
    KeepsHigh(b, 0xF8, 3, 5, 0x08, 31, 30);
  }

  /** The byte masks of the source are ranges of lead bytes. */
  lemma LeadMasks(b: byte)
    ensures And(b, 0x80) == 0 <==> b < 0x80
    ensures And(b, 0xE0) == 0xC0 <==> 0xC0 <= b < 0xE0
    ensures And(b, 0xF0) == 0xE0 <==> 0xE0 <= b < 0xF0
    ensures And(b, 0xF8) == 0xF0 <==> 0xF0 <= b < 0xF8
  {
    Mask80(b);
    MaskE0(b);
    MaskF0(b);
    MaskF8(b);
  }

  /** And the mask of the inner loop is the range of trail bytes. */
  lemma TrailMask(b: byte)
    ensures IsTrail(b) <==> 0x80 <= b < 0xC0
  {
    SmallPowers();
    KeepsHigh(b, 0xC0, 6, 2, 0x40, 3, 2);
  }

  /** What the scanner accepts. */
  predicate Accepts(s: seq<byte>)
    decreases |s|
  {
    s == [] ||
    (var n := GroupLen(s[0]);
     0 < n <= |s| && (forall k :: 1 <= k < n ==> IsTrail(s[k])) && Accepts(s[n..]))
  }

  /** The inner loop of `is_utf8`: the bytes after the lead byte at `at`. */
  method AllTrail(s: seq<byte>, at: nat, end: nat) returns (ok: bool)
    requires at < end <= |s|
    ensures ok <==> forall k :: 1 <= k < end - at ==> IsTrail(s[at..][k])
  {
    var pos := at + 1;
    while pos != end
      invariant at < pos <= end && forall k :: 1 <= k < pos - at ==> IsTrail(s[at..][k])
      decreases end - pos
    {
      if And(s[pos], 0xC0) != 0x80 {
        assert !IsTrail(s[at..][pos - at]);
        return false;
      }
      pos := pos + 1;
    }
    ok := true;
  }

  /** The loop of `is_utf8`. */
  method IsUtf8(s: seq<byte>) returns (r: bool)
    ensures r <==> Accepts(s)
  {
    var i := 0;
    assert s[0..] == s;
    while i != |s|
      invariant 0 <= i <= |s| && (Accepts(s) <==> Accepts(s[i..]))
      decreases |s| - i
    {
      var pos := i;
      ghost var n := GroupLen(s[i]);
      if And(s[i], 0x80) == 0 {
        assert s[i..][1..] == s[i + 1..];
        i := i + 1;
        continue;
      } else if And(s[i], 0xE0) == 0xC0 {
        i := i + 2;
      } else if And(s[i], 0xF0) == 0xE0 {
        i := i + 3;
      } else if And(s[i], 0xF8) == 0xF0 {
        i := i + 4;
      } else {
        return false;
      }
      if i > |s| { return false; }
      assert s[pos..][n..] == s[i..];
      var ok := AllTrail(s, pos, i);
      if !ok { return false; }
    }
    r := true;
  }

  lemma TrailMasks(s: seq<byte>)
    ensures forall k :: 0 <= k < |s| ==> (IsTrail(s[k]) <==> 0x80 <= s[k] < 0xC0)
  {
    forall k | 0 <= k < |s| ensures IsTrail(s[k]) <==> 0x80 <= s[k] < 0xC0 { TrailMask(s[k]); }
  }

  lemma FirstGroup(s: seq<byte>)
    requires s != []
    ensures var n := GroupLen(s[0]);
            0 < n <= |s| && (forall k :: 1 <= k < n ==> IsTrail(s[k])) <==>
            0 < n <= |s| && WellFormed(s[..n])
  {
    LeadMasks(s[0]);
    TrailMasks(s);
  }

  lemma LeadGivesLength(g: seq<byte>)
    requires WellFormed(g)
    ensures GroupLen(g[0]) == |g|
  {
    LeadMasks(g[0]);
  }

  /** A well-formed group in front changes nothing about what follows it. */
  lemma GroupInFront(g: seq<byte>, t: seq<byte>)
    requires WellFormed(g)
    ensures Accepts(g + t) <==> Accepts(t)
  {
    LeadGivesLength(g);
    FirstGroup(g + t);
    assert (g + t)[..|g|] == g && (g + t)[|g|..] == t;
  }

  /** The groups of an accepted string. */
  lemma {:induction false} GroupsOf(s: seq<byte>) returns (gs: seq<seq<byte>>)
    requires Accepts(s)
    ensures Concat(gs) == s && forall g :: g in gs ==> WellFormed(g)
    decreases |s|
  {
    if s == [] { return []; }
    var n := GroupLen(s[0]);
    FirstGroup(s);
    var rest := GroupsOf(s[n..]);
    gs := [s[..n]] + rest;
    ConcatCons(s[..n], rest);
  }

  lemma {:induction false} GroupsAccepted(gs: seq<seq<byte>>, t: seq<byte>)
    requires forall g :: g in gs ==> WellFormed(g)
    ensures Accepts(Concat(gs) + t) <==> Accepts(t)
  {
    if gs == [] {
      assert Concat(gs) + t == t;
    } else {
      GroupsAccepted(gs[1..], t);
      GroupInFront(gs[0], Concat(gs[1..]) + t);
      assert gs == [gs[0]] + gs[1..];
      ConcatCons(gs[0], gs[1..]);
      ConcatAssoc(gs[0], Concat(gs[1..]), t);
    }
  }

  /** Exactly the concatenations of well-formed groups are accepted. */
  lemma AcceptsIffGroups(s: seq<byte>)
    ensures Accepts(s) <==> exists gs: seq<seq<byte>> :: Concat(gs) == s && forall g :: g in gs ==> WellFormed(g)
  {
    if Accepts(s) {
      var gs := GroupsOf(s);
    }
    if gs: seq<seq<byte>> :| Concat(gs) == s && forall g :: g in gs ==> WellFormed(g) {
      GroupsAccepted(gs, []);
      assert Concat(gs) + [] == s;
    }
  }

  /** After an accepted string, the rest alone decides. */
  lemma Compositional(a: seq<byte>, b: seq<byte>)
    requires Accepts(a)
    ensures Accepts(a + b) <==> Accepts(b)
  {
    var gs := GroupsOf(a);
    GroupsAccepted(gs, b);
  }

  type CodePoint = x: nat | x <= 0x1F_FFFF

  /** The first four rows of the table in section 2 of RFC 2279. */
  function Encode(cp: CodePoint): seq<byte> {
    if cp < 0x80 then [cp]
    else if cp < 0x800 then [0xC0 + cp / 0x40, 0x80 + cp % 0x40]
    else if cp < 0x1_0000 then [0xE0 + cp / 0x1000, 0x80 + cp / 0x40 % 0x40, 0x80 + cp % 0x40]
    else [0xF0 + cp / 0x4_0000, 0x80 + cp / 0x1000 % 0x40, 0x80 + cp / 0x40 % 0x40, 0x80 + cp % 0x40]
  }

  /** The bits of a byte below its marker. */
  function Payload(b: byte, marker: int): int {
    b - marker
  }

  /** The number the payload bits of a group spell. */
  function Value(g: seq<byte>): int
    requires WellFormed(g)
  {
    match |g|
    case 1 => g[0]
    case 2 => Payload(g[0], 0xC0) * 0x40 + Payload(g[1], 0x80)
    case 3 => Payload(g[0], 0xE0) * 0x1000 + Payload(g[1], 0x80) * 0x40 + Payload(g[2], 0x80)
    case _ => Payload(g[0], 0xF0) * 0x4_0000 + Payload(g[1], 0x80) * 0x1000
              + Payload(g[2], 0x80) * 0x40 + Payload(g[3], 0x80)
  }

  function Encoded(cps: seq<CodePoint>): seq<byte> {
    if cps == [] then [] else Encode(cps[0]) + Encoded(cps[1..])
  }

  lemma EncodeThree(cp: CodePoint)
    requires 0x800 <= cp < 0x1_0000
    ensures WellFormed(Encode(cp)) && Value(Encode(cp)) == cp
  {
    assert cp / 0x40 / 0x40 == cp / 0x1000;
  }

  lemma EncodeFour(cp: CodePoint)
    requires 0x1_0000 <= cp
    ensures WellFormed(Encode(cp)) && Value(Encode(cp)) == cp
  {
    assert cp / 0x40 / 0x40 == cp / 0x1000 && cp / 0x1000 / 0x40 == cp / 0x4_0000;
  }

  lemma EncodeIsGroup(cp: CodePoint)
    ensures WellFormed(Encode(cp)) && Value(Encode(cp)) == cp
  {
    if cp >= 0x1_0000 {
      EncodeFour(cp);
    } else if cp >= 0x800 {
      EncodeThree(cp);
    }
  }

  /** Every sequence of code points of the four rows is accepted when encoded. */
  lemma {:induction false} EncodingsAccepted(cps: seq<CodePoint>)
    ensures Accepts(Encoded(cps))
  {
    if cps != [] {
      EncodingsAccepted(cps[1..]);
      EncodeIsGroup(cps[0]);
      GroupInFront(Encode(cps[0]), Encoded(cps[1..]));
    }
  }

  /** The least value that needs a group of this length. */
  function Least(n: nat): nat {
    if n == 1 then 0 else if n == 2 then 0x80 else if n == 3 then 0x800 else 0x1_0000
  }

  /** Four digits in base 64 are recovered from their number. */
  lemma FourDigits(a: int, b: int, c: int, d: int)
    requires 0 <= b < 0x40 && 0 <= c < 0x40 && 0 <= d < 0x40
    ensures var v := a * 0x4_0000 + b * 0x1000 + c * 0x40 + d;
            v / 0x4_0000 == a && v / 0x1000 % 0x40 == b && v / 0x40 % 0x40 == c && v % 0x40 == d
  {
    var v := a * 0x4_0000 + b * 0x1000 + c * 0x40 + d;
    assert v / 0x40 == a * 0x1000 + b * 0x40 + c;
    assert v / 0x1000 == a * 0x40 + b;
  }

  /**
   What the scanner accepts beyond encodings is exactly the overlong groups: a group is the
   encoding of its value if and only if the value needs that many bytes.
   */
  lemma OnlyOverlongIsExtra(g: seq<byte>)
    requires WellFormed(g)
    ensures 0 <= Value(g) <= 0x1F_FFFF
    ensures g == Encode(Value(g)) <==> Value(g) >= Least(|g|)
  {
    var v := Value(g);
    if v < Least(|g|) {
      assert |Encode(v)| < |g|;
    } else if |g| == 2 {
      assert v / 0x40 == Payload(g[0], 0xC0);
    } else if |g| == 3 {
      assert v / 0x1000 == Payload(g[0], 0xE0);
      assert v / 0x40 == Payload(g[0], 0xE0) * 0x40 + Payload(g[1], 0x80);
    } else if |g| == 4 {
      FourDigits(Payload(g[0], 0xF0), Payload(g[1], 0x80), Payload(g[2], 0x80), Payload(g[3], 0x80));
    }
  }
}

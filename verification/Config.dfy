/**
 conf.cpp: a line scanner over a buffer that it cuts up in place with NULs, storing key and
 value pairs in a table and parsing included files as it meets them.
 */
module Configs {
  import opened StringUtils
  import opened Sequences

  type Pair = (string, string)
  type Table = map<string, string>

  /** The files that open, with what reading them yields. A null name is one that does not open. */
  type Files = map<string, string>

  const NUL := '\0'
  const INCLUDE := "include"

  // ---------- lines and tokens ----------

  predicate IsDelim(c: char) {
    c == '=' || c == ' ' || c == '\t'
  }

  /** What a C string function sees: everything before the first NUL. */
  function CStr(s: string): string {
    s[..Find(s, NUL)]
  }

  function Skip(s: string): string {
    if s != [] && IsDelim(s[0]) then Skip(s[1..]) else s
  }

  function TokenLen(s: string): (n: nat)
    ensures n <= |s|
  {
    if s == [] || IsDelim(s[0]) then 0 else 1 + TokenLen(s[1..])
  }

  /**
   `strtok` with the delimiters of the source, as in section 7.24.5.8 of ISO C11: the token,
   empty for a null result, and what the next call continues with.
   */
  function Token(s: string): (string, string) {
    var t := Skip(s);
    var n := TokenLen(t);
    (t[..n], if n < |t| then t[n + 1..] else [])
  }

  /** The key and value of a line, unless it is a comment or lacks one of them. */
  function Entry(line: string): seq<Pair> {
    if line != [] && line[0] == '#' then []
    else
      var (key, rest) := Token(line);
      var val := Token(rest).0;
      if key != [] && val != [] then [(key, val)] else []
  }

  /** The first line of what is left, what follows it, and whether a newline ended it. */
  function Line(s: string): (r: (string, string, bool))
    ensures r.2 ==> |r.0| < |s| && r.1 == s[|r.0| + 1..]
  {
    var c := CStr(s);
    var e := Find(c, '\n');
    (c[..e], if e < |c| then s[e + 1..] else [], e < |c|)
  }

  /** The pairs a buffer spells, line by line. A NUL ends the line and the file. */
  function Entries(s: string): seq<Pair>
    decreases |s|
  {
    if s == [] then []
    else
      var (line, after, more) := Line(s);
      Entry(line) + if more then Entries(after) else []
  }

  // ---------- includes ----------

  ghost predicate Below(fs: Files, rank: string -> nat, bound: nat, es: seq<Pair>) {
    forall e :: e in es && e.0 == INCLUDE && e.1 in fs ==> rank(e.1) < bound
  }

  /** Files include only files of smaller rank: the include graph has no cycle. */
  ghost predicate Acyclic(fs: Files, rank: string -> nat) {
    forall f :: f in fs ==> Below(fs, rank, rank(f), Entries(fs[f]))
  }

  /** The pairs of a file with every include replaced by the pairs of the file it names. */
  ghost function Flatten(fs: Files, rank: string -> nat, name: string): (seq<Pair>, bool)
    requires Acyclic(fs, rank)
    decreases rank(name), 1, 0
  {
    if name !in fs then ([], false) else FlattenAll(fs, rank, rank(name), Entries(fs[name]))
  }

  /** Up to the first include that fails, if one does. */
  ghost function FlattenAll(fs: Files, rank: string -> nat, bound: nat, es: seq<Pair>): (seq<Pair>, bool)
    requires Acyclic(fs, rank) && Below(fs, rank, bound, es)
    decreases bound, 0, |es|
  {
    if es == [] then ([], true)
    else
      var e := es[0];
      assert Below(fs, rank, bound, es[1..]);
      if e.0 != INCLUDE then
        var (rest, ok) := FlattenAll(fs, rank, bound, es[1..]);
        ([e] + rest, ok)
      else if e.1 !in fs then ([], false)
      else
        var (inner, ok) := Flatten(fs, rank, e.1);
        if !ok then (inner, false)
        else
          var (rest, ok') := FlattenAll(fs, rank, bound, es[1..]);
          (inner + rest, ok')
  }

  // ---------- the table ----------

  function Store(t: Table, e: Pair, overwrite: bool): Table {
    if e.0 in t && !overwrite then t else t[e.0 := e.1]
  }

  function StoreAll(t: Table, es: seq<Pair>, overwrite: bool): Table
    decreases |es|
  {
    if es == [] then t else StoreAll(Store(t, es[0], overwrite), es[1..], overwrite)
  }

  lemma {:induction false} StoreAppend(t: Table, a: seq<Pair>, b: seq<Pair>, overwrite: bool)
    ensures StoreAll(t, a + b, overwrite) == StoreAll(StoreAll(t, a, overwrite), b, overwrite)
    decreases |a|
  {
    if a == [] {
      assert a + b == b;
    } else {
      assert (a + b)[1..] == a[1..] + b;
      StoreAppend(Store(t, a[0], overwrite), a[1..], b, overwrite);
    }
  }

  /** The values given to a key, in order. */
  function ValuesOf(es: seq<Pair>, key: string): seq<string> {
    if es == [] then [] else (if es[0].0 == key then [es[0].1] else []) + ValuesOf(es[1..], key)
  }

  /** Without overwriting, a key already there is kept and a new key gets its first value. */
  lemma {:induction false} FirstWins(t: Table, es: seq<Pair>, key: string)
    ensures var r, vs := StoreAll(t, es, false), ValuesOf(es, key);
            && (key in r <==> key in t || vs != [])
            && (key in r ==> r[key] == if key in t then t[key] else vs[0])
    decreases |es|
  {
    if es != [] { FirstWins(Store(t, es[0], false), es[1..], key); }
  }

  /** With overwriting, a key gets its last value. */
  lemma {:induction false} LastWins(t: Table, es: seq<Pair>, key: string)
    ensures var r, vs := StoreAll(t, es, true), ValuesOf(es, key);
            && (key in r <==> key in t || vs != [])
            && (key in r ==> r[key] == if vs != [] then vs[|vs| - 1] else t[key])
    decreases |es|
  {
    if es != [] { LastWins(Store(t, es[0], true), es[1..], key); }
  }

  function Reverse<T>(xs: seq<T>): seq<T> {
    if xs == [] then [] else Reverse(xs[1..]) + [xs[0]]
  }

  lemma {:induction false} ReverseLast<T>(xs: seq<T>)
    requires xs != []
    ensures Reverse(xs) != [] && Reverse(xs)[|Reverse(xs)| - 1] == xs[0]
  {
  }

  lemma {:induction false} ValuesSnoc(es: seq<Pair>, e: Pair, key: string)
    ensures ValuesOf(es + [e], key) == ValuesOf(es, key) + (if e.0 == key then [e.1] else [])
  {
    if es == [] {
      assert es + [e] == [e];
    } else {
      assert (es + [e])[1..] == es[1..] + [e];
      ValuesSnoc(es[1..], e, key);
    }
  }

  lemma {:induction false} ValuesReverse(es: seq<Pair>, key: string)
    ensures ValuesOf(Reverse(es), key) == Reverse(ValuesOf(es, key))
  {
    if es != [] {
      ValuesReverse(es[1..], key);
      ValuesSnoc(Reverse(es[1..]), es[0], key);
      var v, vs := es[0].1, ValuesOf(es[1..], key);
      assert ([v] + vs)[1..] == vs;
      assert ValuesOf(es, key) == if es[0].0 == key then [v] + vs else vs;
    } else {
      assert ValuesOf(es, key) == [] && Reverse(es) == [];
    }
  }

  /** Into an empty table, first wins on a sequence is last wins on its reverse. */
  lemma FirstIsLastReversed(es: seq<Pair>)
    ensures StoreAll(map[], es, false) == StoreAll(map[], Reverse(es), true)
  {
    var a: Table, b: Table := StoreAll(map[], es, false), StoreAll(map[], Reverse(es), true);
    forall key: string ensures (key in a <==> key in b) && (key in a ==> a[key] == b[key]) {
      FirstWins(map[], es, key);
      LastWins(map[], Reverse(es), key);
      ValuesReverse(es, key);
      if ValuesOf(es, key) != [] { ReverseLast(ValuesOf(es, key)); }
    }
  }

  // ---------- including is inlining ----------

  /** What a list of pairs does to the table, and whether all its includes opened. */
  ghost function Outcome(fs: Files, rank: string -> nat, bound: nat, es: seq<Pair>, t: Table, overwrite: bool): (Table, bool)
    requires Acyclic(fs, rank) && Below(fs, rank, bound, es)
  {
    var (flat, ok) := FlattenAll(fs, rank, bound, es);
    (StoreAll(t, flat, overwrite), ok)
  }

  lemma {:induction false} FlattenAppend(fs: Files, rank: string -> nat, bound: nat, a: seq<Pair>, b: seq<Pair>)
    requires Acyclic(fs, rank) && Below(fs, rank, bound, a + b)
    ensures Below(fs, rank, bound, a) && Below(fs, rank, bound, b)
    ensures var (x, ok) := FlattenAll(fs, rank, bound, a);
            FlattenAll(fs, rank, bound, a + b) ==
            if ok then var (y, ok') := FlattenAll(fs, rank, bound, b); (x + y, ok') else (x, false)
    decreases |a|
  {
    assert forall e :: e in a || e in b ==> e in a + b;
    if a == [] {
      assert a + b == b;
      var y := FlattenAll(fs, rank, bound, b).0;
      assert [] + y == y;
    } else {
      assert (a + b)[1..] == a[1..] + b;
      assert Below(fs, rank, bound, (a + b)[1..]);
      FlattenAppend(fs, rank, bound, a[1..], b);
      var e, x, y := a[0], FlattenAll(fs, rank, bound, a[1..]).0, FlattenAll(fs, rank, bound, b).0;
      assert ([e] + x) + y == [e] + (x + y);
      if e.0 == INCLUDE && e.1 in fs {
        var inner := Flatten(fs, rank, e.1).0;
        assert (inner + x) + y == inner + (x + y);
      }
    }
  }

  /** The bound only serves to show that the recursion ends. */
  lemma {:induction false} BoundIrrelevant(fs: Files, rank: string -> nat, p: nat, q: nat, es: seq<Pair>)
    requires Acyclic(fs, rank) && Below(fs, rank, p, es) && Below(fs, rank, q, es)
    ensures FlattenAll(fs, rank, p, es) == FlattenAll(fs, rank, q, es)
    decreases |es|
  {
    if es != [] { BoundIrrelevant(fs, rank, p, q, es[1..]); }
  }

  /** An include directive has the effect of the pairs of the file it names, in its place. */
  lemma IncludeIsInline(fs: Files, rank: string -> nat, bound: nat, pre: seq<Pair>, name: string, post: seq<Pair>)
    requires Acyclic(fs, rank) && name in fs && Below(fs, rank, bound, pre + [(INCLUDE, name)] + post)
    ensures Below(fs, rank, bound, pre + Entries(fs[name]) + post)
    ensures FlattenAll(fs, rank, bound, pre + [(INCLUDE, name)] + post)
            == FlattenAll(fs, rank, bound, pre + Entries(fs[name]) + post)
  {
    var inc, body := [(INCLUDE, name)], Entries(fs[name]);
    assert (INCLUDE, name) in pre + inc + post;
    assert Below(fs, rank, bound, body);
    assert Below(fs, rank, bound, pre + body + post) by {
      assert forall e :: e in pre || e in post ==> e in pre + inc + post;
    }
    FlattenAppend(fs, rank, bound, pre + inc, post);
    FlattenAppend(fs, rank, bound, pre, inc);
    FlattenAppend(fs, rank, bound, pre + body, post);
    FlattenAppend(fs, rank, bound, pre, body);
    BoundIrrelevant(fs, rank, bound, rank(name), body);
    assert FlattenAll(fs, rank, bound, inc) == Flatten(fs, rank, name) by {
      assert inc[1..] == [];
      var inner := Flatten(fs, rank, name).0;
      assert inner + [] == inner;
    }
  }

  // ---------- files that do not open ----------

  /** A directive to include a file that does not open ends the parse, after the pairs before it. */
  lemma MissingEnds(fs: Files, rank: string -> nat, bound: nat, pre: seq<Pair>, name: string, post: seq<Pair>)
    requires Acyclic(fs, rank) && name !in fs && Below(fs, rank, bound, pre + ([("include", name)] + post))
    ensures Below(fs, rank, bound, pre)
    ensures FlattenAll(fs, rank, bound, pre).1 ==>
              FlattenAll(fs, rank, bound, pre + ([("include", name)] + post)) == (FlattenAll(fs, rank, bound, pre).0, false)
  {
    var rest := [("include", name)] + post;
    FlattenAppend(fs, rank, bound, pre, rest);
    assert FlattenAll(fs, rank, bound, rest) == ([], false);
    assert FlattenAll(fs, rank, bound, pre).0 + [] == FlattenAll(fs, rank, bound, pre).0;
  }

  predicate Includes(fs: Files, name: string, f: string) {
    name in fs && ("include", f) in Entries(fs[name])
  }

  /** Each file of the path opens and includes the next. */
  predicate IncludePath(fs: Files, path: seq<string>) {
    forall i :: 0 <= i < |path| - 1 ==> Includes(fs, path[i], path[i + 1])
  }

  /** Whichever way includes lead from the file, they lead to files that open. */
  ghost predicate AllOpen(fs: Files, name: string) {
    forall path: seq<string> :: path != [] && path[0] == name && IncludePath(fs, path) ==> path[|path| - 1] in fs
  }

  lemma PathTail(fs: Files, path: seq<string>)
    requires |path| > 1 && IncludePath(fs, path)
    ensures Includes(fs, path[0], path[1]) && IncludePath(fs, path[1..])
  {
    forall i | 0 <= i < |path[1..]| - 1 ensures Includes(fs, path[1..][i], path[1..][i + 1]) {
      assert Includes(fs, path[i + 1], path[i + 2]);
    }
  }

  lemma PathCons(fs: Files, name: string, path: seq<string>)
    requires path != [] && IncludePath(fs, path) && Includes(fs, name, path[0])
    ensures IncludePath(fs, [name] + path)
  {
    var longer := [name] + path;
    forall i | 0 <= i < |longer| - 1 ensures Includes(fs, longer[i], longer[i + 1]) {
      if i > 0 { assert Includes(fs, path[i - 1], path[i]); }
    }
  }

  /** A list of pairs succeeds exactly when each include of it opens and succeeds. */
  lemma {:induction false} SucceedsIff(fs: Files, rank: string -> nat, bound: nat, es: seq<Pair>)
    requires Acyclic(fs, rank) && Below(fs, rank, bound, es)
    ensures FlattenAll(fs, rank, bound, es).1
            <==> forall f: string :: ("include", f) in es ==> f in fs && Flatten(fs, rank, f).1
    decreases |es|
  {
    if es != [] {
      var e := es[0];
      assert Below(fs, rank, bound, es[1..]);
      SucceedsIff(fs, rank, bound, es[1..]);
      assert forall f: string :: ("include", f) in es <==> e == ("include", f) || ("include", f) in es[1..];
      if e.0 == INCLUDE { assert ("include", e.1) in es; }
    }
  }

  lemma OpensAll(fs: Files, name: string)
    requires name in fs && forall f: string :: Includes(fs, name, f) ==> f in fs && AllOpen(fs, f)
    ensures AllOpen(fs, name)
  {
    forall path: seq<string> | path != [] && path[0] == name && IncludePath(fs, path) ensures path[|path| - 1] in fs {
      if |path| > 1 {
        PathTail(fs, path);
        var rest := path[1..];
        assert rest[0] == path[1] && rest[|rest| - 1] == path[|path| - 1];
      }
    }
  }

  lemma AllOpenThrough(fs: Files, name: string, f: string)
    requires AllOpen(fs, name) && Includes(fs, name, f)
    ensures f in fs && AllOpen(fs, f)
  {
    forall path: seq<string> | path != [] && path[0] == f && IncludePath(fs, path) ensures path[|path| - 1] in fs {
      PathCons(fs, name, path);
      var longer := [name] + path;
      assert longer[0] == name && longer[|longer| - 1] == path[|path| - 1];
    }
    assert IncludePath(fs, [f]) && [f][0] == f;
  }

  /** Parsing succeeds if and only if the file and every file that includes lead to open. */
  lemma {:induction false} SucceedsIffAllOpen(fs: Files, rank: string -> nat, name: string)
    requires Acyclic(fs, rank)
    ensures Flatten(fs, rank, name).1 <==> AllOpen(fs, name)
    decreases rank(name)
  {
    if name !in fs {
      assert IncludePath(fs, [name]);
      return;
    }
    var es := Entries(fs[name]);
    SucceedsIff(fs, rank, rank(name), es);
    forall f: string | Includes(fs, name, f) && f in fs ensures Flatten(fs, rank, f).1 <==> AllOpen(fs, f) {
      assert rank(f) < rank(name) by { assert ("include", f) in es && ("include", f).0 == INCLUDE; }
      SucceedsIffAllOpen(fs, rank, f);
    }
    if Flatten(fs, rank, name).1 { OpensAll(fs, name); }
    if AllOpen(fs, name) {
      forall f: string | Includes(fs, name, f) ensures f in fs && Flatten(fs, rank, f).1 { AllOpenThrough(fs, name, f); }
    }
  }

  // ---------- text ----------

  /** Whole lines: nothing, or text ending in a newline, with no NUL in it. */
  predicate WholeLines(s: string) {
    (s == [] || s[|s| - 1] == '\n') && NUL !in s
  }

  lemma CutAt(line: string, rest: string)
    requires NUL !in line && '\n' !in line
    ensures Entries(line + ['\n'] + rest) == Entry(line) + Entries(rest)
  {
    var s := line + ['\n'] + rest;
    assert forall k :: 0 <= k <= |line| ==> s[k] != NUL;
    assert forall k :: 0 <= k < |line| ==> s[k] != '\n';
    var c := CStr(s);
    FindIs(c, '\n', |line|);
    assert c[..|line|] == line && s[|line| + 1..] == rest;
  }

  /** The first of some whole lines. */
  lemma FirstLine(a: string) returns (line: string, rest: string)
    requires a != [] && WholeLines(a)
    ensures a == line + ['\n'] + rest && NUL !in line && '\n' !in line && WholeLines(rest)
  {
    assert a[|a| - 1] == '\n';
    var e := Find(a, '\n');
    line, rest := a[..e], a[e + 1..];
    if rest != [] { assert rest[|rest| - 1] == a[|a| - 1]; }
  }

  /** Whole lines in front spell their own pairs first. */
  lemma {:induction false} EntriesAppend(a: string, b: string)
    requires WholeLines(a)
    ensures Entries(a + b) == Entries(a) + Entries(b)
    decreases |a|
  {
    if a == [] {
      assert a + b == b;
    } else {
      var line, rest := FirstLine(a);
      ConcatAssoc(line + ['\n'], rest, b);
      CutAt(line, rest);
      CutAt(line, rest + b);
      EntriesAppend(rest, b);
      ConcatAssoc(Entry(line), Entries(rest), Entries(b));
    }
  }

  /** A key or value that survives printing. */
  predicate Clean(s: string) {
    s != [] && forall c :: c in s ==> c !in "= \t\n" && c != '\0'
  }

  predicate AllDelims(s: string) {
    forall k :: 0 <= k < |s| ==> IsDelim(s[k])
  }

  predicate NoDelims(s: string) {
    forall k :: 0 <= k < |s| ==> !IsDelim(s[k])
  }

  /**
   The first token of a string, as the standard describes it: delimiters, the longest run of
   other characters after them, and what follows that.
   */
  predicate FirstToken(s: string, gap: string, tok: string, tail: string) {
    && s == gap + tok + tail && AllDelims(gap) && NoDelims(tok)
    && (tail == [] || IsDelim(tail[0])) && (tok == [] ==> tail == [])
  }

  lemma {:induction false} RunLength(tok: string, tail: string)
    requires NoDelims(tok) && (tail == [] || IsDelim(tail[0]))
    ensures TokenLen(tok + tail) == |tok|
    decreases |tok|
  {
    if tok == [] {
      assert tok + tail == tail;
    } else {
      assert (tok + tail)[1..] == tok[1..] + tail;
      RunLength(tok[1..], tail);
    }
  }

  lemma {:induction false} SkipGap(gap: string, rest: string)
    requires AllDelims(gap) && (rest == [] || !IsDelim(rest[0]))
    ensures Skip(gap + rest) == rest
    decreases |gap|
  {
    if gap == [] {
      assert gap + rest == rest;
    } else {
      assert (gap + rest)[1..] == gap[1..] + rest;
      SkipGap(gap[1..], rest);
    }
  }

  /** Whatever fits the description is what the scan finds. */
  lemma TokenIsFirst(s: string, gap: string, tok: string, tail: string)
    requires FirstToken(s, gap, tok, tail)
    ensures Token(s) == (tok, if tail == [] then [] else tail[1..])
  {
    ConcatAssoc(gap, tok, tail);
    SkipGap(gap, tok + tail);
    RunLength(tok, tail);
    assert (tok + tail)[..|tok|] == tok;
    if tail != [] { assert (tok + tail)[|tok| + 1..] == tail[1..]; }
  }

  lemma {:induction false} TokenLenRun(s: string)
    ensures NoDelims(s[..TokenLen(s)]) && (TokenLen(s) < |s| ==> IsDelim(s[TokenLen(s)]))
  {
    if s != [] && !IsDelim(s[0]) { TokenLenRun(s[1..]); }
  }

  /** And every string has such a token, if only an empty one. */
  lemma {:induction false} HasFirstToken(s: string) returns (gap: string, tok: string, tail: string)
    ensures FirstToken(s, gap, tok, tail)
    decreases |s|
  {
    if s == [] { return [], [], []; }
    if IsDelim(s[0]) {
      gap, tok, tail := HasFirstToken(s[1..]);
      gap := [s[0]] + gap;
    } else {
      gap, tok, tail := [], s[..TokenLen(s)], s[TokenLen(s)..];
      TokenLenRun(s);
    }
  }

  lemma CleanIsToken(s: string)
    requires Clean(s)
    ensures NoDelims(s) && NUL !in s && '\n' !in s
  {
    forall k | 0 <= k < |s| ensures !IsDelim(s[k]) { assert s[k] in s && s[k] !in "= \t\n"; }
  }

  lemma OneLine(key: string, gap: string, val: string)
    requires Clean(key) && Clean(val) && AllDelims(gap)
    ensures NUL !in key + gap + val && '\n' !in key + gap + val
  {
    CleanIsToken(key);
    CleanIsToken(val);
  }

  /** A line is the key, any delimiters, and the value. */
  lemma EntryOfLine(key: string, gap: string, val: string)
    requires Clean(key) && Clean(val) && key[0] != '#'
    requires gap != [] && AllDelims(gap)
    ensures Entry(key + gap + val) == [(key, val)]
  {
    var rest := gap[1..] + val;
    CleanIsToken(key);
    CleanIsToken(val);
    assert key + gap + val == [] + key + (gap + val) && (gap + val)[1..] == rest;
    TokenIsFirst(key + gap + val, [], key, gap + val);
    assert rest == gap[1..] + val + [];
    TokenIsFirst(rest, gap[1..], val, []);
  }

  /** A line between whole lines and the rest of the text. */
  lemma LineBetween(pre: string, line: string, post: string)
    requires WholeLines(pre) && NUL !in line && '\n' !in line
    ensures Entries(pre + (line + ['\n'] + post)) == Entries(pre) + Entry(line) + Entries(post)
  {
    EntriesAppend(pre, line + ['\n'] + post);
    CutAt(line, post);
    ConcatAssoc(Entries(pre), Entry(line), Entries(post));
  }

  lemma FormStores(key: string, gap: string, val: string, post: string)
    requires Clean(key) && Clean(val) && key[0] != '#' && gap != [] && AllDelims(gap)
    ensures Entries(key + gap + val + ['\n'] + post) == [(key, val)] + Entries(post)
  {
    EntryOfLine(key, gap, val);
    OneLine(key, gap, val);
    CutAt(key + gap + val, post);
  }

  /** What conf.h documents between a key and its value. */
  const GAPS: seq<string> := ["  ", " = ", " \t "]

  lemma GapsAreDelims(gap: string)
    requires gap in GAPS
    ensures gap != [] && AllDelims(gap)
  {
  }

  /** The forms of a line that conf.h documents. */
  lemma DocumentedForms(key: string, gap: string, val: string, post: string)
    requires Clean(key) && Clean(val) && key[0] != '#' && gap in GAPS
    ensures Entries(key + gap + val + ['\n'] + post) == [(key, val)] + Entries(post)
  {
    GapsAreDelims(gap);
    FormStores(key, gap, val, post);
  }

  // ---------- what a line stores ----------

  /** A comment stores nothing, wherever it is. */
  lemma CommentStoresNothing(pre: string, comment: string, post: string)
    requires WholeLines(pre) && NUL !in comment && '\n' !in comment
    ensures Entries(pre + ("#" + comment + ['\n'] + post)) == Entries(pre) + Entries(post)
  {
    LineBetween(pre, "#" + comment, post);
    assert Entries(pre) + [] == Entries(pre);
  }

  /** What follows the character that ends a token. */
  function Beyond(tail: string): string {
    if tail == [] then [] else tail[1..]
  }

  ghost predicate StartsWith(s: string, tok: string) {
    exists gap: string, tail: string :: FirstToken(s, gap, tok, tail)
  }

  /** The line has a key and a value: two tokens, by the description of the standard. */
  ghost predicate HasPair(line: string, key: string, val: string) {
    && key != [] && val != []
    && exists gap: string, tail: string :: FirstToken(line, gap, key, tail) && StartsWith(Beyond(tail), val)
  }

  lemma PairIsTokens(line: string, key: string, val: string)
    ensures HasPair(line, key, val) <==>
            key != [] && val != [] && key == Token(line).0 && val == Token(Token(line).1).0
  {
    if HasPair(line, key, val) {
      var gap: string, tail: string :| FirstToken(line, gap, key, tail) && StartsWith(Beyond(tail), val);
      TokenIsFirst(line, gap, key, tail);
      var gap', tail' :| FirstToken(Beyond(tail), gap', val, tail');
      TokenIsFirst(Beyond(tail), gap', val, tail');
    }
    var gap, tok, tail := HasFirstToken(line);
    TokenIsFirst(line, gap, tok, tail);
    var gap', tok', tail' := HasFirstToken(Beyond(tail));
    TokenIsFirst(Beyond(tail), gap', tok', tail');
    assert StartsWith(Beyond(tail), tok');
  }

  lemma SameFront<T>(a: seq<T>, b: seq<T>, c: seq<T>)
    requires a + c == b + c || (b == [] && a + c == c)
    ensures a == b
  {
    assert |a| == |b|;
    assert a == (a + c)[..|a|] && b == (b + c)[..|b|];
  }

  /**
   A line stores exactly its first two tokens, unless it starts with `#`; it stores nothing if
   and only if it starts with `#` or has no two tokens.
   */
  lemma LineStores(line: string, post: string)
    requires NUL !in line && '\n' !in line
    ensures forall key: string, val: string ::
              Entries(line + ['\n'] + post) == [(key, val)] + Entries(post)
              <==> (line == [] || line[0] != '#') && HasPair(line, key, val)
    ensures Entries(line + ['\n'] + post) == Entries(post)
            <==> (line != [] && line[0] == '#') || !exists key: string, val: string :: HasPair(line, key, val)
  {
    CutAt(line, post);
    forall key: string, val: string
      ensures Entry(line) == [(key, val)] <==> (line == [] || line[0] != '#') && HasPair(line, key, val)
      ensures Entry(line) + Entries(post) == [(key, val)] + Entries(post) <==> Entry(line) == [(key, val)]
    {
      PairIsTokens(line, key, val);
      if Entry(line) + Entries(post) == [(key, val)] + Entries(post) { SameFront(Entry(line), [(key, val)], Entries(post)); }
    }
    if Entry(line) + Entries(post) == Entries(post) { SameFront(Entry(line), [], Entries(post)); }
    if Entry(line) == [] && !(line != [] && line[0] == '#') {
      forall key: string, val: string ensures !HasPair(line, key, val) { PairIsTokens(line, key, val); }
    }
    if Entry(line) != [] { PairIsTokens(line, Token(line).0, Token(Token(line).1).0); }
  }

  /** A line that no newline ends, at the end of the file or before a NUL. */
  lemma OpenLine(line: string, rest: string)
    requires NUL !in line && '\n' !in line && (rest == [] || rest[0] == NUL)
    ensures Entries(line + rest) == Entry(line)
  {
    var s := line + rest;
    assert forall k :: 0 <= k < |line| ==> s[k] == line[k] && line[k] != NUL && line[k] != '\n';
    FindIs(s, NUL, |line|);
    assert CStr(s) == line;
    FindIs(line, '\n', |line|);
    assert line[..|line|] == line && Entry(line) + [] == Entry(line);
  }

  /** The last line need not end. */
  lemma LastLine(line: string)
    requires NUL !in line && '\n' !in line
    ensures Entries(line) == Entries(line + ['\n'])
  {
    CutAt(line, []);
    OpenLine(line, []);
    assert line + [] == line && line + ['\n'] + [] == line + ['\n'] && Entry(line) + Entries([]) == Entry(line);
  }

  lemma Regroup(line: string, rest: string, t: string)
    ensures (line + ['\n'] + rest) + [NUL] + t == line + ['\n'] + (rest + [NUL] + t)
  {
  }

  /** Nothing after a NUL is read. */
  lemma {:induction false} NothingAfterNul(s: string, t: string)
    requires NUL !in s
    ensures Entries(s + [NUL] + t) == Entries(s)
    decreases |s|, 1
  {
    if '\n' in s {
      var e := Find(s, '\n');
      Divides(s, '\n');
      NulAfterLine(s[..e], s[e + 1..], t);
    } else {
      OpenLine(s, []);
      OpenLine(s, [NUL] + t);
      ConcatAssoc(s, [NUL], t);
      assert s + [] == s;
    }
  }

  lemma {:induction false} NulAfterLine(line: string, rest: string, t: string)
    requires NUL !in line && '\n' !in line && NUL !in rest
    ensures Entries((line + ['\n'] + rest) + [NUL] + t) == Entries(line + ['\n'] + rest)
    decreases |line| + 1 + |rest|, 0
  {
    NothingAfterNul(rest, t);
    Regroup(line, rest, t);
    CutAt(line, rest);
    CutAt(line, rest + [NUL] + t);
  }

  function IncludeLine(name: string): string {
    "include " + name
  }

  lemma IncludeLineEntry(name: string)
    requires Clean(name)
    ensures NUL !in IncludeLine(name) && '\n' !in IncludeLine(name)
    ensures Entry(IncludeLine(name)) == [(INCLUDE, name)]
  {
    assert "include " + name == "include" + " " + name;
    EntryOfLine("include", " ", name);
    OneLine("include", " ", name);
  }

  lemma PasteEntries(pre: string, body: string, post: string)
    requires WholeLines(pre) && WholeLines(body)
    ensures Entries(pre + (body + post)) == Entries(pre) + Entries(body) + Entries(post)
  {
    EntriesAppend(pre, body + post);
    EntriesAppend(body, post);
    ConcatAssoc(Entries(pre), Entries(body), Entries(post));
  }

  /**
   In the text of a file, an include line has the effect of pasting the named file there,
   provided the text before it and the file itself end with their last line.
   */
  lemma IncludeLineIsPaste(fs: Files, rank: string -> nat, bound: nat, pre: string, name: string, post: string)
    requires Acyclic(fs, rank) && name in fs && Clean(name) && WholeLines(pre) && WholeLines(fs[name])
    requires Below(fs, rank, bound, Entries(pre + (IncludeLine(name) + ['\n'] + post)))
    ensures Below(fs, rank, bound, Entries(pre + (fs[name] + post)))
    ensures FlattenAll(fs, rank, bound, Entries(pre + (IncludeLine(name) + ['\n'] + post)))
            == FlattenAll(fs, rank, bound, Entries(pre + (fs[name] + post)))
  {
    IncludeLineEntry(name);
    LineBetween(pre, IncludeLine(name), post);
    PasteEntries(pre, fs[name], post);
    IncludeIsInline(fs, rank, bound, Entries(pre), name, Entries(post));
  }

  // ---------- printing and parsing ----------

  function PairLine(e: Pair): string {
    e.0 + " = " + e.1
  }

  function Render(es: seq<Pair>): string {
    if es == [] then [] else PairLine(es[0]) + ['\n'] + Render(es[1..])
  }

  predicate Printable(e: Pair) {
    Clean(e.0) && Clean(e.1) && e.0[0] != '#' && e.0 != INCLUDE
  }

  lemma PairLineEntry(e: Pair)
    requires Printable(e)
    ensures NUL !in PairLine(e) && '\n' !in PairLine(e) && Entry(PairLine(e)) == [e]
  {
    EntryOfLine(e.0, " = ", e.1);
    OneLine(e.0, " = ", e.1);
  }

  lemma {:induction false} EntriesOfRender(es: seq<Pair>)
    requires forall e :: e in es ==> Printable(e)
    ensures Entries(Render(es)) == es
  {
    if es != [] {
      assert es[0] in es;
      EntriesOfRender(es[1..]);
      PairLineEntry(es[0]);
      CutAt(PairLine(es[0]), Render(es[1..]));
    }
  }

  lemma {:induction false} NothingToInclude(fs: Files, rank: string -> nat, bound: nat, es: seq<Pair>)
    requires Acyclic(fs, rank) && Below(fs, rank, bound, es)
    requires forall e :: e in es ==> e.0 != INCLUDE
    ensures FlattenAll(fs, rank, bound, es) == (es, true)
    decreases |es|
  {
    if es != [] {
      assert es[0] in es;
      NothingToInclude(fs, rank, bound, es[1..]);
      assert [es[0]] + es[1..] == es;
    }
  }

  /** The pairs list each key of the map once, with its value. */
  ghost predicate Lists(es: seq<Pair>, m: Table) {
    && (forall e :: e in es ==> e.0 in m && m[e.0] == e.1)
    && (forall k :: k in m ==> (k, m[k]) in es)
  }

  lemma {:induction false} StoreListed(t: Table, es: seq<Pair>, m: Table, overwrite: bool)
    requires forall k :: k in t ==> k in m && t[k] == m[k]
    requires forall e :: e in es ==> e.0 in m && m[e.0] == e.1
    ensures var r := StoreAll(t, es, overwrite);
            && (forall k :: k in r ==> k in m && r[k] == m[k])
            && (forall k :: k in t ==> k in r) && (forall e :: e in es ==> e.0 in r)
    decreases |es|
  {
    if es != [] {
      assert es[0] in es;
      StoreListed(Store(t, es[0], overwrite), es[1..], m, overwrite);
      assert forall e :: e in es ==> e == es[0] || e in es[1..];
    }
  }

  /** A printed file has nothing to include and spells its pairs. */
  lemma FlattenOfRender(es: seq<Pair>, fs: Files, rank: string -> nat, name: string)
    requires (forall e :: e in es ==> Printable(e)) && name in fs && fs[name] == Render(es) && Acyclic(fs, rank)
    ensures Flatten(fs, rank, name) == (es, true)
  {
    EntriesOfRender(es);
    assert Below(fs, rank, rank(name), es);
    forall e | e in es ensures e.0 != INCLUDE { assert Printable(e); }
    NothingToInclude(fs, rank, rank(name), es);
  }

  lemma StoreIsMap(m: Table, es: seq<Pair>, overwrite: bool)
    requires Lists(es, m)
    ensures StoreAll(map[], es, overwrite) == m
  {
    StoreListed(map[], es, m, overwrite);
    var r := StoreAll(map[], es, overwrite);
    forall k | k in m ensures k in r { assert (k, m[k]) in es; }
  }

  /** A printed map, loaded into an empty table, is the map again, overwriting or not. */
  lemma PrintParse(m: Table, es: seq<Pair>, fs: Files, rank: string -> nat, name: string, overwrite: bool)
    requires Lists(es, m) && (forall e :: e in es ==> Printable(e))
    requires name in fs && fs[name] == Render(es) && Acyclic(fs, rank)
    ensures Flatten(fs, rank, name).1
    ensures StoreAll(map[], Flatten(fs, rank, name).0, overwrite) == m
  {
    FlattenOfRender(es, fs, rank, name);
    StoreIsMap(m, es, overwrite);
  }

  // ---------- the scanner ----------

  /** The C string that starts at `at`. */
  ghost predicate StringAt(data: seq<char>, at: nat, s: string) {
    at + |s| < |data| && data[at..at + |s|] == s && data[at + |s|] == NUL && NUL !in s
  }

  /** `strchr`: -1 for a null result. */
  method Strchr(data: array<char>, start: nat, c: char, ghost s: string) returns (p: int)
    requires StringAt(data[..], start, s) && c != NUL
    ensures p == if Find(s, c) < |s| then start + Find(s, c) else -1
  {
    var i := start;
    while data[i] != NUL && data[i] != c
      invariant start <= i <= start + |s|
      invariant forall k :: 0 <= k < i - start ==> s[k] != c
      decreases start + |s| - i
    {
      assert data[i] == s[i - start];
      i := i + 1;
    }
    assert i < start + |s| ==> data[i] == s[i - start];
    FindIs(s, c, i - start);
    p := if data[i] == NUL then -1 else i;
  }

  /** What a call of `strtok` on `line` at `p` leaves in the buffer and returns. */
  ghost predicate Cut(data: seq<char>, p: nat, line: string, found: bool, at: nat, save: nat) {
    var (tok, rest) := Token(line);
    && (found <==> tok != []) && p <= at && at + |tok| <= save
    && (found ==> StringAt(data, at, tok) && (at + |tok| == save ==> rest == []))
    && StringAt(data, save, rest) && save + |rest| == p + |line|
  }

  lemma StringStep(data: seq<char>, at: nat, s: string)
    requires StringAt(data, at, s)
    ensures data[at] == if s == [] then NUL else s[0]
    ensures s != [] ==> data[at] != NUL && StringAt(data, at + 1, s[1..])
  {
    if s != [] {
      assert data[at..at + |s|][0] == s[0];
      assert data[at + 1..at + |s|] == data[at..at + |s|][1..] == s[1..];
    }
  }

  /** A NUL written into a string leaves a string on either side of it. */
  lemma CutString(d: seq<char>, at: nat, t: string, n: nat)
    requires StringAt(d, at, t) && n <= |t|
    ensures StringAt(d[at + n := NUL], at, t[..n])
    ensures n < |t| ==> StringAt(d[at + n := NUL], at + n + 1, t[n + 1..])
    ensures n == |t| ==> d[at + n := NUL] == d && t[..n] == t && StringAt(d, at + n, [])
  {
    var d', w := d[at + n := NUL], d[at..at + |t|];
    assert d'[at..at + n] == w[..n];
    if n < |t| {
      assert d'[at + n + 1..at + |t|] == w[n + 1..];
    } else {
      assert d[at + n..at + n] == [];
    }
  }

  /** The first cell at or after `p` that is no delimiter. */
  method SkipDelims(data: array<char>, p: nat, ghost line: string) returns (at: nat)
    requires StringAt(data[..], p, line)
    ensures p <= at && StringAt(data[..], at, Skip(line)) && at + |Skip(line)| == p + |line|
    ensures data[at] == NUL <==> Skip(line) == []
    ensures Skip(line) != [] ==> !IsDelim(Skip(line)[0])
  {
    at := p;
    ghost var t := line;
    StringStep(data[..], at, t);
    while data[at] != NUL && IsDelim(data[at])
      invariant p <= at && StringAt(data[..], at, t) && Skip(t) == Skip(line) && at + |t| == p + |line|
      invariant data[at] == if t == [] then NUL else t[0]
      decreases |t|
    {
      at, t := at + 1, t[1..];
      StringStep(data[..], at, t);
    }
    StringStep(data[..], at, t);
  }

  /** The end of the token that starts at `at`. */
  method TokenEnd(data: array<char>, at: nat, ghost t: string) returns (e: nat)
    requires StringAt(data[..], at, t)
    ensures e == at + TokenLen(t) && (data[e] == NUL <==> TokenLen(t) == |t|)
  {
    e := at;
    ghost var u := t;
    StringStep(data[..], e, u);
    while data[e] != NUL && !IsDelim(data[e])
      invariant at <= e && StringAt(data[..], e, u) && TokenLen(t) == e - at + TokenLen(u) && e + |u| == at + |t|
      invariant data[e] == if u == [] then NUL else u[0]
      decreases |u|
    {
      e, u := e + 1, u[1..];
      StringStep(data[..], e, u);
    }
    StringStep(data[..], e, u);
  }

  lemma TokenNonempty(t: string)
    requires t != [] && !IsDelim(t[0])
    ensures TokenLen(t) > 0
  {
  }

  /**
   `strtok`, on the buffer in place: ends the token with a NUL where a delimiter was, and
   remembers where to go on. Nothing outside the string is touched.
   */
  method Strtok(data: array<char>, p: nat, ghost line: string) returns (found: bool, at: nat, save: nat)
    requires StringAt(data[..], p, line)
    modifies data
    ensures Cut(data[..], p, line, found, at, save)
    ensures forall k :: 0 <= k < data.Length && (k < p || k >= p + |line|) ==> data[k] == old(data[k])
  {
    at := SkipDelims(data, p, line);
    ghost var t := Skip(line);
    if data[at] == NUL { return false, at, at; }
    save := TokenEnd(data, at, t);
    TokenNonempty(t);
    CutString(data[..], at, t, save - at);
    found := true;
    if data[save] != NUL {
      ghost var d := data[..];
      data[save] := NUL;
      assert data[..] == d[save := NUL];
      save := save + 1;
    }
  }

  /** Copies a C string out of the buffer. */
  method CString(data: array<char>, at: nat, ghost s: string) returns (r: string)
    requires StringAt(data[..], at, s)
    ensures r == s
  {
    var i := at;
    r := [];
    while data[i] != NUL
      invariant at <= i <= at + |s| && r == s[..i - at]
      decreases at + |s| - i
    {
      assert data[i] == s[i - at];
      r := r + [data[i]];
      i := i + 1;
    }
  }

  /** The two calls of `strtok` on a line. */
  method ReadPair(data: array<char>, start: nat, ghost line: string) returns (ok: bool, key: string, val: string)
    requires StringAt(data[..], start, line)
    modifies data
    ensures var (k, rest) := Token(line);
            var v := Token(rest).0;
            (ok <==> k != [] && v != []) && (ok ==> key == k && val == v)
    ensures forall i :: 0 <= i < data.Length && (i < start || i >= start + |line|) ==> data[i] == old(data[i])
  {
    ghost var (k, rest) := Token(line);
    var foundKey, keyAt, save := Strtok(data, start, line);
    label between:
    ghost var cut := data[..];
    var foundVal, valAt, save' := Strtok(data, save, rest);
    key, val, ok := [], [], foundKey && foundVal;
    if ok {
      assert StringAt(data[..], keyAt, k) by {
        assert forall i :: keyAt <= i <= keyAt + |k| ==> data[i] == cut[i];
        assert data[..][keyAt..keyAt + |k|] == cut[keyAt..keyAt + |k|];
      }
      key := CString(data, keyAt, k);
      val := CString(data, valAt, Token(rest).0);
    }
  }

  lemma OutcomeAppend(fs: Files, rank: string -> nat, bound: nat, a: seq<Pair>, b: seq<Pair>, t: Table, overwrite: bool)
    requires Acyclic(fs, rank) && Below(fs, rank, bound, a + b)
    ensures Below(fs, rank, bound, a) && Below(fs, rank, bound, b)
    ensures var (t', ok) := Outcome(fs, rank, bound, a, t, overwrite);
            Outcome(fs, rank, bound, a + b, t, overwrite) ==
            if ok then Outcome(fs, rank, bound, b, t', overwrite) else (t', false)
  {
    FlattenAppend(fs, rank, bound, a, b);
    StoreAppend(t, FlattenAll(fs, rank, bound, a).0, FlattenAll(fs, rank, bound, b).0, overwrite);
  }

  lemma OutcomeNone(fs: Files, rank: string -> nat, bound: nat, t: Table, overwrite: bool)
    requires Acyclic(fs, rank)
    ensures Outcome(fs, rank, bound, [], t, overwrite) == (t, true)
  {
  }

  /** The outcome of a single pair. */
  lemma OutcomeOne(fs: Files, rank: string -> nat, bound: nat, e: Pair, t: Table, overwrite: bool)
    requires Acyclic(fs, rank) && Below(fs, rank, bound, [e])
    ensures Outcome(fs, rank, bound, [e], t, overwrite) ==
            if e.0 != INCLUDE then (Store(t, e, overwrite), true)
            else if e.1 !in fs then (t, false)
            else (StoreAll(t, Flatten(fs, rank, e.1).0, overwrite), Flatten(fs, rank, e.1).1)
  {
    var one := [e];
    assert one[1..] == [] && FlattenAll(fs, rank, bound, one[1..]) == ([], true);
    if e.0 != INCLUDE {
      var none: seq<Pair> := [];
      assert [e] + none == one && FlattenAll(fs, rank, bound, one) == ([e] + none, true);
      assert StoreAll(Store(t, e, overwrite), one[1..], overwrite) == Store(t, e, overwrite);
    } else if e.1 in fs {
      var (inner, ok) := Flatten(fs, rank, e.1);
      assert inner + [] == inner;
      assert FlattenAll(fs, rank, bound, one) == (inner, ok);
    }
  }

  /** The outcome of what is left of a file is that of its next line and then of the rest. */
  lemma OutcomeLine(fs: Files, rank: string -> nat, bound: nat, rest: string, t: Table, overwrite: bool)
    requires rest != [] && Acyclic(fs, rank) && Below(fs, rank, bound, Entries(rest))
    ensures var (line, after, more) := Line(rest);
            && Below(fs, rank, bound, Entry(line)) && (more ==> Below(fs, rank, bound, Entries(after)))
            && var (t', ok) := Outcome(fs, rank, bound, Entry(line), t, overwrite);
               Outcome(fs, rank, bound, Entries(rest), t, overwrite) ==
               if !ok then (t', false) else if more then Outcome(fs, rank, bound, Entries(after), t', overwrite)
               else (t', true)
  {
    var (line, after, more) := Line(rest);
    OutcomeAppend(fs, rank, bound, Entry(line), if more then Entries(after) else [], t, overwrite);
  }

  /** The buffer: the contents of the file and a NUL. */
  method ReadFile(content: string) returns (data: array<char>)
    ensures fresh(data) && data[..] == content + [NUL]
  {
    data := new char[|content| + 1];
    for i := 0 to |content|
      invariant data[..i] == content[..i]
    {
      data[i] := content[i];
    }
    data[|content|] := NUL;
  }

  method PutNul(data: array<char>, end: nat, ghost tail: string)
    requires end < data.Length && data[end + 1..] == tail
    modifies data
    ensures data[..] == old(data[..])[end := NUL] && data[end..] == [NUL] + tail
  {
    data[end] := NUL;
  }

  lemma AfterLine(d: seq<char>, start: nat, rest: string, e: nat)
    requires start <= |d| && d[start..] == rest + [NUL] && e < |rest|
    ensures d[start + e + 1..] == rest[e + 1..] + [NUL]
  {
    assert d[start + e + 1..] == d[start..][e + 1..];
  }

  lemma CStringHere(data: seq<char>, start: nat, rest: string)
    requires start <= |data| && data[start..] == rest + [NUL]
    ensures StringAt(data, start, CStr(rest))
  {
    var c := CStr(rest);
    assert data[start..start + |c|] == data[start..][..|c|] == c;
    assert data[start + |c|] == data[start..][|c|];
  }

  /** A NUL over the newline leaves the line in front of it and the text after it. */
  lemma LineCut(d: seq<char>, start: nat, rest: string)
    requires start <= |d| && d[start..] == rest + [NUL]
    ensures var c := CStr(rest);
            var e := Find(c, '\n');
            if e < |c| then
              && start + e < |d| && d[start + e + 1..] == rest[e + 1..] + [NUL]
              && StringAt(d[start + e := NUL], start, c[..e])
            else StringAt(d, start, c[..e])
  {
    var c := CStr(rest);
    var e := Find(c, '\n');
    CStringHere(d, start, rest);
    CutString(d, start, c, e);
    if e < |c| { AfterLine(d, start, rest, e); }
  }

  /** What is left of the buffer from `start` on is this text and the NUL at the end. */
  ghost predicate Left(d: seq<char>, start: nat, rest: string) {
    start <= |d| && d[start..] == rest + [NUL]
  }

  lemma LeftLength(d: seq<char>, start: nat, rest: string)
    requires Left(d, start, rest)
    ensures start + |rest| + 1 == |d|
  {
    assert |d[start..]| == |rest| + 1;
  }

  /** Finds the end of the line and ends it with a NUL; -1 when no newline is left. */
  method TakeLine(data: array<char>, start: nat, ghost rest: string) returns (end: int)
    requires Left(data[..], start, rest)
    modifies data
    ensures var (line, after, more) := Line(rest);
            && StringAt(data[..], start, line)
            && end == (if more then start + |line| else -1)
            && (more ==> end < data.Length && data[end..] == [NUL] + (after + [NUL]))
  {
    ghost var c := CStr(rest);
    ghost var e := Find(c, '\n');
    CStringHere(data[..], start, rest);
    LineCut(data[..], start, rest);
    end := Strchr(data, start, '\n', c);
    if end >= 0 { PutNul(data, end, rest[e + 1..] + [NUL]); }
  }

  lemma DropNul(d: seq<char>, end: nat, after: string)
    requires end <= |d| && d[end..] == [NUL] + (after + [NUL])
    ensures end < |d| - 1 && Left(d, end + 1, after)
  {
    assert d[end..][1..] == after + [NUL];
  }

  /** From this table on, what is left of a file will lead to the goal. */
  ghost predicate Ahead(fs: Files, rank: string -> nat, bound: nat, rest: string, goal: (Table, bool), t: Table,
                        overwrite: bool)
    requires Acyclic(fs, rank)
  {
    Below(fs, rank, bound, Entries(rest)) && goal == Outcome(fs, rank, bound, Entries(rest), t, overwrite)
  }

  lemma NothingAhead(fs: Files, rank: string -> nat, bound: nat, rest: string, goal: (Table, bool), t: Table,
                     overwrite: bool)
    requires Acyclic(fs, rank) && Ahead(fs, rank, bound, rest, goal, t, overwrite) && |rest| == 0
    ensures goal == (t, true)
  {
    OutcomeNone(fs, rank, bound, t, overwrite);
  }

  class Config {
    var m_config_hash: Table
    var m_file_name: string

    constructor ()
      ensures m_config_hash == map[]
    {
      m_config_hash, m_file_name := map[], "";
    }

    /** What `parse` does with a key and a value. */
    method StorePair(fs: Files, ghost rank: string -> nat, ghost bound: nat, key: string, val: string,
                     overwrite: bool) returns (ret: bool)
      requires Acyclic(fs, rank) && Below(fs, rank, bound, [(key, val)])
      modifies `m_config_hash
      ensures m_config_hash == Outcome(fs, rank, bound, [(key, val)], old(m_config_hash), overwrite).0
      ensures ret == Outcome(fs, rank, bound, [(key, val)], old(m_config_hash), overwrite).1
      decreases bound, 0
    {
      ret := true;
      OutcomeOne(fs, rank, bound, (key, val), m_config_hash, overwrite);
      if key != INCLUDE {
        if key !in m_config_hash {
          m_config_hash := m_config_hash[key := val];
        } else if overwrite {
          m_config_hash := m_config_hash[key := val];
        }
      } else if val !in fs {
        ret := false;
      } else {
        assert (key, val) in [(key, val)];
        ret := Parse(fs, rank, val, overwrite);
      }
    }

    /** What the loop of `parse` does with one line. */
    method ParseLine(fs: Files, ghost rank: string -> nat, ghost bound: nat, data: array<char>, start: nat,
                     ghost line: string, overwrite: bool) returns (ret: bool)
      requires Acyclic(fs, rank) && Below(fs, rank, bound, Entry(line)) && StringAt(data[..], start, line)
      modifies `m_config_hash, data
      ensures m_config_hash == Outcome(fs, rank, bound, Entry(line), old(m_config_hash), overwrite).0
      ensures ret == Outcome(fs, rank, bound, Entry(line), old(m_config_hash), overwrite).1
      ensures data[start + |line|..] == old(data[start + |line|..])
      decreases bound, 1
    {
      ret := true;
      StringStep(data[..], start, line);
      OutcomeNone(fs, rank, bound, m_config_hash, overwrite);
      if data[start] == '#' { return; }
      var ok, key, val := ReadPair(data, start, line);
      assert Entry(line) == if ok then [(key, val)] else [];
      if ok { ret := StorePair(fs, rank, bound, key, val, overwrite); }
    }

    /**
     `parse`: stores the flattened pairs of the file, and succeeds if and only if it and every
     file it includes opened; after a failure it has stored the pairs before it.
     */
    method Parse(fs: Files, ghost rank: string -> nat, name: string, overwrite: bool) returns (ret: bool)
      requires Acyclic(fs, rank)
      modifies `m_config_hash
      ensures ret == Flatten(fs, rank, name).1
      ensures m_config_hash == StoreAll(old(m_config_hash), Flatten(fs, rank, name).0, overwrite)
      ensures name !in fs ==> !ret && m_config_hash == old(m_config_hash)
      decreases rank(name), 4
    {
      if name !in fs { return false; }
      var data := ReadFile(fs[name]);
      ghost var goal := Outcome(fs, rank, rank(name), Entries(fs[name]), m_config_hash, overwrite);
      ret := ParseBuffer(fs, rank, rank(name), data, fs[name], goal, overwrite);
    }

    /** The loop of `parse`. */
    method ParseBuffer(fs: Files, ghost rank: string -> nat, ghost bound: nat, data: array<char>,
                       ghost content: string, ghost goal: (Table, bool), overwrite: bool) returns (ret: bool)
      requires Acyclic(fs, rank) && Ahead(fs, rank, bound, content, goal, m_config_hash, overwrite)
      requires Left(data[..], 0, content)
      modifies `m_config_hash, data
      ensures m_config_hash == goal.0 && ret == goal.1
      decreases bound, 3
    {
      var len, start := data.Length - 1, 0;
      ghost var rest := content;
      while start < len
        invariant 0 <= start <= len == data.Length - 1 && Left(data[..], start, rest)
        invariant Ahead(fs, rank, bound, rest, goal, m_config_hash, overwrite)
        decreases len - start
      {
        var end;
        ghost var after;
        LeftLength(data[..], start, rest);
        ret, end, after := ParseNext(fs, rank, bound, data, start, rest, goal, overwrite);
        if !ret || end < 0 { return; }
        start, rest := end + 1, after;
      }
      LeftLength(data[..], start, rest);
      NothingAhead(fs, rank, bound, rest, goal, m_config_hash, overwrite);
      ret := true;
    }

    /** The body of the loop of `parse`: finds the end of the line and parses it. */
    method ParseNext(fs: Files, ghost rank: string -> nat, ghost bound: nat, data: array<char>, start: nat,
                     ghost rest: string, ghost goal: (Table, bool), overwrite: bool)
      returns (ret: bool, end: int, ghost after: string)
      requires Acyclic(fs, rank) && rest != [] && Ahead(fs, rank, bound, rest, goal, m_config_hash, overwrite)
      requires Left(data[..], start, rest)
      modifies `m_config_hash, data
      ensures ret && end >= 0 ==>
                && start <= end < data.Length - 1 && Left(data[..], end + 1, after)
                && Ahead(fs, rank, bound, after, goal, m_config_hash, overwrite)
      ensures !ret || end < 0 ==> goal.0 == m_config_hash && goal.1 == ret
      decreases bound, 2
    {
      OutcomeLine(fs, rank, bound, rest, m_config_hash, overwrite);
      ghost var (line, next, more) := Line(rest);
      after := next;
      end := TakeLine(data, start, rest);
      ret := ParseLine(fs, rank, bound, data, start, line, overwrite);
      if end >= 0 { DropNul(data[..], end, after); }
    }

    method Load(fs: Files, ghost rank: string -> nat, name: string, overwrite: bool) returns (ret: bool)
      requires Acyclic(fs, rank)
      modifies this
      ensures m_file_name == name
      ensures ret == Flatten(fs, rank, name).1
      ensures m_config_hash == StoreAll(map[], Flatten(fs, rank, name).0, overwrite)
    {
      m_file_name := name;
      m_config_hash := map[];
      ret := Parse(fs, rank, name, overwrite);
    }

    method Reload(fs: Files, ghost rank: string -> nat, name: string) returns (ret: bool)
      requires Acyclic(fs, rank)
      modifies this
      ensures m_file_name == name
      ensures ret == Flatten(fs, rank, name).1
      ensures m_config_hash == StoreAll(old(m_config_hash), Flatten(fs, rank, name).0, true)
    {
      m_file_name := name;
      ret := Parse(fs, rank, name, true);
    }
  }
}

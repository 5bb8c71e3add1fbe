/**
 log_base.cpp: which log files are kept. When the active file has grown to the size limit it
 is renamed to an archive, a new one is opened, and once the list of archives has reached its
 limit the oldest is deleted first. The warning log beside it is rotated at the same moments.

 The file system is a map from names to contents; the time stamps in archive names are inputs.
 */
module Loggers {
  import opened Bits
  import opened Sequences

  type FileMap = map<string, string>

  function ArchiveName(base: string, stamp: string): string {
    base + "." + stamp
  }

  function WfName(base: string): string {
    base + ".wf"
  }

  function Rename(files: FileMap, from: string, to: string): FileMap {
    if from in files then (files - {from})[to := files[from]] else files
  }

  /** Opening with O_CREAT. */
  function Open(files: FileMap, name: string): FileMap {
    if name in files then files else files[name := ""]
  }

  function Append(files: FileMap, name: string, text: string): FileMap {
    if name in files then files[name := files[name] + text] else files
  }

  /** `set_max_file_index`. */
  function ClampLimit(n: int): nat {
    if n < 0 then 15 else if n > 1024 then 1024 else n
  }

  /** `set_max_file_size`. */
  function ClampSize(n: int): nat {
    if n < 0 || n > 0x4000_0000 then 0x4000_0000 else n
  }

  /** One list of archives and the disk. */
  datatype Shelf = Shelf(files: FileMap, list: seq<string>)

  /** Makes room on the list, enters the new archive, and renames the active file to it. */
  function Archive(sh: Shelf, active: string, to: string, tracked: bool, limit: nat): Shelf
    requires tracked ==> limit > 0
  {
    var full := tracked && |sh.list| >= limit;
    var files := if full then sh.files - {sh.list[0]} else sh.files;
    var list := if full then sh.list[1..] else sh.list;
    Shelf(Rename(files, active, to), if tracked then list + [to] else list)
  }

  datatype LogState = LogState(
    name: string, files: FileMap, list: seq<string>, wfList: seq<string>, limit: nat, maxSize: nat, wf: bool)

  /** `rotate_log(NULL)`, with the names the two archives get. */
  function Turned(s: LogState, to: string, warn: string, warnTo: string): LogState {
    var there := s.name in s.files;
    var m := if there then Archive(Shelf(s.files, s.list), s.name, to, s.limit > 0, s.limit) else Shelf(s.files, s.list);
    var w := if there then Archive(Shelf(m.files, s.wfList), warn, warnTo, s.wf && s.limit > 0, s.limit)
             else Shelf(m.files, s.wfList);
    var files := Open(w.files, s.name);
    s.(files := if s.wf then Open(files, warn) else files, list := m.list, wfList := w.list)
  }

  function Rotated(s: LogState, stamp: string): LogState {
    var warn := WfName(s.name);
    Turned(s, ArchiveName(s.name, stamp), warn, ArchiveName(warn, stamp))
  }

  predicate Overgrown(s: LogState) {
    s.maxSize > 0 && s.name in s.files && |s.files[s.name]| >= s.maxSize
  }

  /** The text is written to the active file, and to the warning log if it is severe enough. */
  function Written(s: LogState, text: string, severe: bool): LogState {
    var files := Append(s.files, s.name, text);
    s.(files := if s.wf && severe then Append(files, WfName(s.name), text) else files)
  }

  // ---------- what one log keeps ----------

  /**
   What has been logged under one name: the archives ever made, what was logged between the
   rotations that made them, and what has been logged since the last.
   */
  datatype Track = Track(made: seq<string>, segments: seq<string>, current: string)

  function Note(t: Track, text: string): Track {
    t.(current := t.current + text)
  }

  function Close(t: Track, to: string): Track {
    Track(t.made + [to], t.segments + [t.current], "")
  }

  /** Everything logged, in order. */
  function AllText(t: Track): string {
    Concat(t.segments) + t.current
  }

  ghost predicate Distinct(xs: seq<string>) {
    forall i, j :: 0 <= i < j < |xs| ==> xs[i] != xs[j]
  }

  /** The files of the listed names hold the last of the segments. */
  ghost predicate Holds(files: FileMap, list: seq<string>, segments: seq<string>) {
    |list| <= |segments| &&
    forall i :: 0 <= i < |list| ==> list[i] in files && files[list[i]] == segments[|segments| - |list| + i]
  }

  /**
   The promise of one log: of the n archives ever made exactly the last min(n, k) are listed,
   in order, they are different files, each holds what was logged between its rotations, and
   the active file holds what was logged since.
   */
  ghost predicate Kept(files: FileMap, list: seq<string>, active: string, t: Track, k: nat) {
    && |t.made| == |t.segments| && |list| == Min(|t.made|, k) && list == t.made[|t.made| - |list|..]
    && Distinct(list) && Holds(files, list, t.segments)
    && active !in list && active in files && files[active] == t.current
  }

  /** The entries that stay on the list when a new archive is entered. */
  function Staying(list: seq<string>, k: nat): seq<string> {
    if |list| >= k && list != [] then list[1..] else list
  }

  lemma StayingIsOld(list: seq<string>, k: nat, i: nat)
    requires Distinct(list) && k > 0 && i < |Staying(list, k)|
    ensures Staying(list, k)[i] in list && (|list| >= k ==> Staying(list, k)[i] != list[0])
  {
    if |list| >= k { assert list[i + 1] == Staying(list, k)[i]; }
  }

  lemma ArchiveLists(sh: Shelf, active: string, to: string, k: nat)
    requires k > 0
    ensures Archive(sh, active, to, true, k).list == Staying(sh.list, k) + [to]
  {
  }

  lemma KeptHas(f: FileMap, list: seq<string>, active: string, t: Track, k: nat)
    requires Kept(f, list, active, t, k)
    ensures forall a :: a in list || a == active ==> a in f
  {
  }

  /** The files after archiving: the entries that stay are untouched, the new one is the active file. */
  lemma ArchiveFiles(sh: Shelf, active: string, to: string, t: Track, k: nat)
    requires k > 0 && Kept(sh.files, sh.list, active, t, k) && to != active && to !in Staying(sh.list, k)
    ensures var g, stay := Open(Archive(sh, active, to, true, k).files, active), Staying(sh.list, k);
            && (forall i :: 0 <= i < |stay| ==> stay[i] in g && stay[i] in sh.files && g[stay[i]] == sh.files[stay[i]])
            && to in g && g[to] == t.current && active in g && g[active] == ""
  {
    var g, stay := Open(Archive(sh, active, to, true, k).files, active), Staying(sh.list, k);
    KeptHas(sh.files, sh.list, active, t, k);
    forall i | 0 <= i < |stay| ensures stay[i] in g && stay[i] in sh.files && g[stay[i]] == sh.files[stay[i]] {
      StayingIsOld(sh.list, k, i);
      assert stay[i] in stay;
    }
  }

  lemma StayingAt(list: seq<string>, k: nat, i: nat)
    requires k > 0 && i < |Staying(list, k)|
    ensures Staying(list, k)[i] == list[|list| - |Staying(list, k)| + i]
  {
  }

  /** The entries that stay and the new one are the last of the archives made. */
  lemma StayingList(list: seq<string>, made: seq<string>, to: string, k: nat)
    requires k > 0 && |list| == Min(|made|, k) && list == made[|made| - |list|..]
    ensures var list', made' := Staying(list, k) + [to], made + [to];
            |list'| == Min(|made'|, k) && list' == made'[|made'| - |list'|..]
  {
    var stay := Staying(list, k);
    assert stay == made[|made| - |stay|..];
    assert (made + [to])[|made| - |stay|..] == made[|made| - |stay|..] + [to];
  }

  lemma StayingHolds(f: FileMap, g: FileMap, list: seq<string>, segments: seq<string>, k: nat)
    requires k > 0 && Holds(f, list, segments)
    requires var stay := Staying(list, k); forall i :: 0 <= i < |stay| ==> stay[i] in g && stay[i] in f && g[stay[i]] == f[stay[i]]
    ensures Holds(g, Staying(list, k), segments)
  {
    var stay := Staying(list, k);
    forall i | 0 <= i < |stay| ensures stay[i] in g && g[stay[i]] == segments[|segments| - |stay| + i] {
      StayingAt(list, k, i);
    }
  }

  lemma HoldsOneMore(g: FileMap, list: seq<string>, segments: seq<string>, to: string, text: string)
    requires Holds(g, list, segments) && to in g && g[to] == text
    ensures Holds(g, list + [to], segments + [text])
  {
  }

  lemma StayingDistinct(list: seq<string>, active: string, to: string, k: nat)
    requires k > 0 && Distinct(list) && active !in list && to != active && to !in Staying(list, k)
    ensures Distinct(Staying(list, k) + [to]) && active !in Staying(list, k) + [to]
  {
    var stay := Staying(list, k);
    forall i, j | 0 <= i < j <= |stay| ensures (stay + [to])[i] != (stay + [to])[j] {
      assert stay[i] in stay;
    }
  }

  /** Archiving under a name that is free keeps the promise. */
  lemma ArchiveKeeps(sh: Shelf, active: string, to: string, t: Track, k: nat)
    requires k > 0 && Kept(sh.files, sh.list, active, t, k) && to != active && to !in Staying(sh.list, k)
    ensures var sh' := Archive(sh, active, to, true, k);
            Kept(Open(sh'.files, active), sh'.list, active, Close(t, to), k)
  {
    var g := Open(Archive(sh, active, to, true, k).files, active);
    ArchiveLists(sh, active, to, k);
    ArchiveFiles(sh, active, to, t, k);
    StayingList(sh.list, t.made, to, k);
    StayingHolds(sh.files, g, sh.list, t.segments, k);
    HoldsOneMore(g, Staying(sh.list, k), t.segments, to, t.current);
    StayingDistinct(sh.list, active, to, k);
  }

  lemma ArchiveMoves(sh: Shelf, active: string, to: string, k: nat)
    requires k > 0 && active in sh.files && active !in sh.list
    ensures var sh' := Archive(sh, active, to, true, k);
            to in sh'.files && sh'.files[to] == sh.files[active]
  {
    if |sh.list| >= k { assert sh.list[0] in sh.list; }
  }

  /**
   A rotation that enters a name still listed puts it on the list twice, and the archive of
   that name now holds the newest segment, whatever it held before.
   */
  lemma SameSecondOverwrites(sh: Shelf, active: string, to: string, t: Track, k: nat)
    requires k > 0 && Kept(sh.files, sh.list, active, t, k) && to != active && to in Staying(sh.list, k)
    ensures var sh' := Archive(sh, active, to, true, k);
            && to in sh'.files && sh'.files[to] == t.current && !Distinct(sh'.list)
            && exists i: nat :: i < |sh'.list| - 1 && sh'.list[i] == to == sh'.list[|sh'.list| - 1]
  {
    var sh' := Archive(sh, active, to, true, k);
    ArchiveLists(sh, active, to, k);
    ArchiveMoves(sh, active, to, k);
    var i: nat :| i < |Staying(sh.list, k)| && Staying(sh.list, k)[i] == to;
    assert sh'.list[i] == to == sh'.list[|sh'.list| - 1];
  }

  /** A rotation keeps the promise if and only if its name is not among those that stay listed. */
  lemma ArchiveKeepsIff(sh: Shelf, active: string, to: string, t: Track, k: nat)
    requires k > 0 && Kept(sh.files, sh.list, active, t, k) && to != active
    ensures var sh' := Archive(sh, active, to, true, k);
            Kept(Open(sh'.files, active), sh'.list, active, Close(t, to), k) <==> to !in Staying(sh.list, k)
  {
    if to in Staying(sh.list, k) {
      SameSecondOverwrites(sh, active, to, t, k);
    } else {
      ArchiveKeeps(sh, active, to, t, k);
    }
  }

  /** Changes to other files do not matter. */
  lemma KeptElsewhere(f: FileMap, g: FileMap, list: seq<string>, active: string, t: Track, k: nat)
    requires Kept(f, list, active, t, k)
    requires forall a :: a in list || a == active ==> a in f && a in g && g[a] == f[a]
    ensures Kept(g, list, active, t, k)
  {
    forall i | 0 <= i < |list| ensures list[i] in g && g[list[i]] == f[list[i]] { assert list[i] in list; }
  }

  lemma WriteKept(f: FileMap, list: seq<string>, active: string, t: Track, k: nat, text: string)
    requires Kept(f, list, active, t, k)
    ensures Kept(Append(f, active, text), list, active, Note(t, text), k)
  {
    var g := Append(f, active, text);
    forall i | 0 <= i < |list| ensures list[i] in g && g[list[i]] == f[list[i]] { assert list[i] in list; }
  }

  // ---------- both logs ----------

  /** The files of the two logs are different files. */
  predicate Apart(base: string, list: seq<string>, warn: string, wfList: seq<string>) {
    && base != warn && base !in wfList && warn !in list && (forall a :: a in list ==> a !in wfList)
  }

  /** Both logs keep their promise; without a warning log there is nothing on its list. */
  ghost predicate Retained(s: LogState, warn: string, main: Track, alarms: Track, k: nat) {
    && Kept(s.files, s.list, s.name, main, k)
    && (if s.wf then Kept(s.files, s.wfList, warn, alarms, k) else s.wfList == [])
  }

  lemma WrittenRetained(s: LogState, main: Track, alarms: Track, k: nat, text: string, severe: bool)
    requires Retained(s, WfName(s.name), main, alarms, k) && Apart(s.name, s.list, WfName(s.name), s.wfList)
    ensures Retained(Written(s, text, severe), WfName(s.name), Note(main, text),
                     if s.wf && severe then Note(alarms, text) else alarms, k)
  {
    var warn, f := WfName(s.name), Append(s.files, s.name, text);
    WriteKept(s.files, s.list, s.name, main, k, text);
    if s.wf {
      KeptHas(s.files, s.wfList, warn, alarms, k);
      KeptElsewhere(s.files, f, s.wfList, warn, alarms, k);
      if severe {
        WriteKept(f, s.wfList, warn, alarms, k, text);
        KeptHas(f, s.list, s.name, Note(main, text), k);
        KeptElsewhere(f, Append(f, warn, text), s.list, s.name, Note(main, text), k);
      }
    }
  }

  /** Archiving touches only the active file, its new name, and the front of its own list. */
  lemma ArchiveTouches(sh: Shelf, active: string, to: string, tracked: bool, limit: nat, f: string)
    requires tracked ==> limit > 0
    requires f in sh.files && f != active && f != to && f !in sh.list
    ensures var g := Archive(sh, active, to, tracked, limit).files;
            f in g && g[f] == sh.files[f]
  {
  }

  lemma ListedOrNew(list: seq<string>, to: string, k: nat, a: string)
    requires k > 0 && a in Staying(list, k) + [to]
    ensures a in list + [to]
  {
  }

  lemma NotOf(wfList: seq<string>, warnTo: string, a: string, base: string, list: seq<string>, warn: string)
    requires Apart(base, list, warn, wfList + [warnTo]) && (a in list || a == base)
    ensures a !in wfList && a != warnTo && a != warn
  {
    assert warnTo in wfList + [warnTo];
    assert forall x :: x in wfList ==> x in wfList + [warnTo];
  }

  /** The main log after both have been archived. */
  lemma TurnedMain(s: LogState, to: string, warn: string, warnTo: string, t: Track, k: nat)
    requires k == s.limit > 0 && Kept(s.files, s.list, s.name, t, k) && to != s.name && to !in Staying(s.list, k)
    requires Apart(s.name, s.list + [to], warn, s.wfList + [warnTo])
    ensures var s' := Turned(s, to, warn, warnTo);
            Kept(s'.files, s'.list, s.name, Close(t, to), k)
  {
    var m := Archive(Shelf(s.files, s.list), s.name, to, true, k);
    var f, g := Open(m.files, s.name), Turned(s, to, warn, warnTo).files;
    ArchiveKeeps(Shelf(s.files, s.list), s.name, to, t, k);
    ArchiveLists(Shelf(s.files, s.list), s.name, to, k);
    KeptHas(f, m.list, s.name, Close(t, to), k);
    forall a | a in m.list || a == s.name ensures a in f && a in g && g[a] == f[a] {
      if a in m.list { ListedOrNew(s.list, to, k, a); }
      NotOf(s.wfList, warnTo, a, s.name, s.list + [to], warn);
      if a in m.files { ArchiveTouches(Shelf(m.files, s.wfList), warn, warnTo, s.wf, k, a); }
    }
    KeptElsewhere(f, g, m.list, s.name, Close(t, to), k);
  }

  lemma NotOfMain(list: seq<string>, to: string, a: string, base: string, warn: string, wfList: seq<string>, warnTo: string)
    requires Apart(base, list + [to], warn, wfList + [warnTo]) && (a in wfList || a == warn)
    ensures a !in list && a != to && a != base
  {
    assert to in list + [to];
    assert forall x :: x in list ==> x in list + [to];
    assert forall x :: x in wfList ==> x in wfList + [warnTo];
  }

  /** And the warning log. */
  lemma TurnedWarn(s: LogState, to: string, warn: string, warnTo: string, t: Track, k: nat)
    requires k == s.limit > 0 && s.wf && s.name in s.files && Kept(s.files, s.wfList, warn, t, k)
    requires warnTo != warn && warnTo !in Staying(s.wfList, k)
    requires Apart(s.name, s.list + [to], warn, s.wfList + [warnTo])
    ensures var s' := Turned(s, to, warn, warnTo);
            Kept(s'.files, s'.wfList, warn, Close(t, warnTo), k)
  {
    var m := Archive(Shelf(s.files, s.list), s.name, to, true, k);
    var w := Archive(Shelf(m.files, s.wfList), warn, warnTo, true, k);
    var f, g := Open(w.files, warn), Turned(s, to, warn, warnTo).files;
    KeptHas(s.files, s.wfList, warn, t, k);
    forall a | a in s.wfList || a == warn ensures a in s.files && a in m.files && m.files[a] == s.files[a] {
      NotOfMain(s.list, to, a, s.name, warn, s.wfList, warnTo);
      ArchiveTouches(Shelf(s.files, s.list), s.name, to, true, k, a);
    }
    KeptElsewhere(s.files, m.files, s.wfList, warn, t, k);
    ArchiveKeeps(Shelf(m.files, s.wfList), warn, warnTo, t, k);
    ArchiveLists(Shelf(m.files, s.wfList), warn, warnTo, k);
    KeptHas(f, w.list, warn, Close(t, warnTo), k);
    forall a | a in w.list || a == warn ensures a in f && a in g && g[a] == f[a] {
      if a in w.list { ListedOrNew(s.wfList, warnTo, k, a); }
      assert a != s.name;
    }
    KeptElsewhere(f, g, w.list, warn, Close(t, warnTo), k);
  }

  // ---------- names ----------

  /** A stamp as `rotate_log` makes one: digits. */
  predicate IsStamp(t: string) {
    t != [] && forall i :: 0 <= i < |t| ==> '0' <= t[i] <= '9'
  }

  /** A name of the main log: the active file or an archive with a stamp of digits. */
  predicate MainName(base: string, f: string) {
    f == base || (|f| > |base| + 1 && '0' <= f[|base| + 1] <= '9')
  }

  /** A name of the warning log. */
  predicate WarnName(base: string, f: string) {
    |f| > |base| + 1 && f[|base| + 1] == 'w'
  }

  /** The names of the two logs and their archives. */
  lemma NamesOf(base: string, stamp: string)
    requires IsStamp(stamp)
    ensures MainName(base, ArchiveName(base, stamp)) && ArchiveName(base, stamp) != base
    ensures WarnName(base, WfName(base))
    ensures WarnName(base, ArchiveName(WfName(base), stamp)) && ArchiveName(WfName(base), stamp) != WfName(base)
  {
    assert ArchiveName(base, stamp)[|base| + 1] == stamp[0];
    assert WfName(base)[|base| + 1] == 'w';
    assert ArchiveName(WfName(base), stamp)[|base| + 1] == 'w';
    assert |ArchiveName(base, stamp)| > |base| && |ArchiveName(WfName(base), stamp)| > |WfName(base)|;
  }

  lemma NameTells(base: string, a: string, b: string)
    requires ArchiveName(base, a) == ArchiveName(base, b)
    ensures a == b
  {
    assert a == ArchiveName(base, a)[|base| + 1..];
    assert b == ArchiveName(base, b)[|base| + 1..];
  }

  /** The archives a log has made are named by the stamps of the rotations. */
  ghost predicate Named(made: seq<string>, active: string, stamps: seq<string>) {
    |made| == |stamps| && forall i :: 0 <= i < |made| ==> made[i] == ArchiveName(active, stamps[i])
  }

  /** The stamps of the last `n` rotations. */
  function Recent(stamps: seq<string>, n: nat): seq<string> {
    stamps[|stamps| - Min(|stamps|, n)..]
  }

  lemma StayingIsTail(list: seq<string>, made: seq<string>, k: nat)
    requires k > 0 && |list| == Min(|made|, k) && list == made[|made| - |list|..]
    ensures Staying(list, k) == made[|made| - Min(|made|, k - 1)..]
  {
  }

  lemma NamedTail(made: seq<string>, active: string, stamps: seq<string>, n: nat)
    requires Named(made, active, stamps) && n <= |made|
    ensures Named(made[|made| - n..], active, stamps[|stamps| - n..])
  {
  }

  /** A name is among others exactly when its stamp is among theirs. */
  lemma NamedTells(names: seq<string>, active: string, stamps: seq<string>, stamp: string)
    requires Named(names, active, stamps)
    ensures ArchiveName(active, stamp) in names <==> stamp in stamps
  {
    if ArchiveName(active, stamp) in names {
      var i :| 0 <= i < |names| && names[i] == ArchiveName(active, stamp);
      NameTells(active, stamps[i], stamp);
    }
    if stamp in stamps {
      var i :| 0 <= i < |stamps| && stamps[i] == stamp;
      assert names[i] in names;
    }
  }

  /** The name of a new archive stays listed exactly when its stamp was used within the last k - 1 rotations. */
  lemma StayingIsRecent(list: seq<string>, made: seq<string>, active: string, stamps: seq<string>, stamp: string, k: nat)
    requires k > 0 && Named(made, active, stamps)
    requires |list| == Min(|made|, k) && list == made[|made| - |list|..]
    ensures ArchiveName(active, stamp) in Staying(list, k) <==> stamp in Recent(stamps, k - 1)
  {
    StayingIsTail(list, made, k);
    NamedTail(made, active, stamps, Min(|made|, k - 1));
    NamedTells(Staying(list, k), active, Recent(stamps, k - 1), stamp);
  }

  // ---------- runs ----------

  datatype Op =
    | Message(text: string, severe: bool, stamp: string)
    | Rotate(stamp: string)
    | SetLimit(n: int)
    | SetSize(n: int)

  /** With the stamps of the rotations so far, and what has been logged to either log. */
  datatype Conf = Conf(s: LogState, stamps: seq<string>, main: Track, alarms: Track)

  function Write(c: Conf, text: string, severe: bool): Conf {
    Conf(Written(c.s, text, severe), c.stamps, Note(c.main, text),
         if c.s.wf && severe then Note(c.alarms, text) else c.alarms)
  }

  function Turn(c: Conf, stamp: string): Conf {
    var warn := WfName(c.s.name);
    Conf(Rotated(c.s, stamp), c.stamps + [stamp],
         Close(c.main, ArchiveName(c.s.name, stamp)), Close(c.alarms, ArchiveName(warn, stamp)))
  }

  function Do(c: Conf, op: Op): Conf {
    match op
    case Message(text, severe, stamp) =>
      var c' := Write(c, text, severe);
      if Overgrown(c'.s) then Turn(c', stamp) else c'
    case Rotate(stamp) => Turn(c, stamp)
    case SetLimit(n) => c.(s := c.s.(limit := ClampLimit(n)))
    case SetSize(n) => c.(s := c.s.(maxSize := ClampSize(n)))
  }

  function DoAll(c: Conf, ops: seq<Op>): Conf
    decreases |ops|
  {
    if ops == [] then c else DoAll(Do(c, ops[0]), ops[1..])
  }

  /** The call rotates, with a stamp that one of the last k - 1 rotations had. */
  predicate TooSoon(c: Conf, op: Op, k: nat)
    requires k > 0
  {
    match op
    case Message(text, severe, stamp) => Overgrown(Written(c.s, text, severe)) && stamp in Recent(c.stamps, k - 1)
    case Rotate(stamp) => stamp in Recent(c.stamps, k - 1)
    case _ => false
  }

  /** Stamps are what `rotate_log` makes. */
  predicate Stamped(op: Op) {
    op.Message? || op.Rotate? ==> IsStamp(op.stamp)
  }

  /** And the limit is left alone. */
  predicate Plain(op: Op) {
    !op.SetLimit? && Stamped(op)
  }

  /** No two of any `k` consecutive rotations happen in the same second. */
  predicate Regular(c: Conf, ops: seq<Op>, k: nat)
    requires k > 0
    decreases |ops|
  {
    ops == [] || (!TooSoon(c, ops[0], k) && Regular(Do(c, ops[0]), ops[1..], k))
  }

  /** Of the archives ever made, none is on disk that is not listed. */
  ghost predicate Tidy(files: FileMap, list: seq<string>, made: seq<string>) {
    forall a :: a in made && a in files ==> a in list
  }

  ghost predicate BothTidy(c: Conf) {
    Tidy(c.s.files, c.s.list, c.main.made) && (c.s.wf ==> Tidy(c.s.files, c.s.wfList, c.alarms.made))
  }

  /** In this state and after every call of the run, both logs keep their promise and nothing else. */
  ghost predicate AlwaysRetained(c: Conf, ops: seq<Op>, k: nat)
    decreases |ops|
  {
    && Retained(c.s, WfName(c.s.name), c.main, c.alarms, k) && BothTidy(c)
    && (ops == [] || AlwaysRetained(Do(c, ops[0]), ops[1..], k))
  }

  ghost predicate Inv(c: Conf, k: nat) {
    && 0 < k == c.s.limit && (forall t :: t in c.stamps ==> IsStamp(t))
    && Named(c.main.made, c.s.name, c.stamps) && Named(c.alarms.made, WfName(c.s.name), c.stamps)
    && Retained(c.s, WfName(c.s.name), c.main, c.alarms, k)
  }

  /** The names on a list are names of archives made. */
  lemma ListedNames(base: string, list: seq<string>, made: seq<string>, stamps: seq<string>)
    requires |list| <= |made| && list == made[|made| - |list|..] && (forall t :: t in stamps ==> IsStamp(t))
    ensures Named(made, base, stamps) ==> forall a :: a in list ==> MainName(base, a) && a != base
    ensures Named(made, WfName(base), stamps) ==> forall a :: a in list ==> WarnName(base, a)
  {
    forall a | a in list && (Named(made, base, stamps) || Named(made, WfName(base), stamps))
      ensures Named(made, base, stamps) ==> MainName(base, a) && a != base
      ensures Named(made, WfName(base), stamps) ==> WarnName(base, a)
    {
      var i :| 0 <= i < |list| && list[i] == a;
      var stamp := stamps[|made| - |list| + i];
      assert stamp in stamps;
      NamesOf(base, stamp);
    }
  }

  lemma KindsApart(base: string, list: seq<string>, warn: string, wfList: seq<string>)
    requires (forall a :: a in list ==> MainName(base, a)) && (forall a :: a in wfList ==> WarnName(base, a))
    requires WarnName(base, warn)
    ensures Apart(base, list, warn, wfList)
  {
  }

  /** No file belongs to both logs, before a rotation and after it. */
  lemma LogsApart(c: Conf, k: nat, stamp: string)
    requires Inv(c, k) && IsStamp(stamp)
    ensures var base, warn := c.s.name, WfName(c.s.name);
            && Apart(base, c.s.list, warn, c.s.wfList)
            && Apart(base, c.s.list + [ArchiveName(base, stamp)], warn, c.s.wfList + [ArchiveName(warn, stamp)])
  {
    var base, warn := c.s.name, WfName(c.s.name);
    NamesOf(base, stamp);
    ListedNames(base, c.s.list, c.main.made, c.stamps);
    if c.s.wf { ListedNames(base, c.s.wfList, c.alarms.made, c.stamps); }
    KindsApart(base, c.s.list, warn, c.s.wfList);
    KindsApart(base, c.s.list + [ArchiveName(base, stamp)], warn, c.s.wfList + [ArchiveName(warn, stamp)]);
  }

  lemma WriteKeeps(c: Conf, k: nat, text: string, severe: bool)
    requires Inv(c, k)
    ensures Inv(Write(c, text, severe), k)
  {
    LogsApart(c, k, "0");
    WrittenRetained(c.s, c.main, c.alarms, k, text, severe);
  }

  lemma NamedSnoc(made: seq<string>, active: string, stamps: seq<string>, stamp: string)
    requires Named(made, active, stamps)
    ensures Named(made + [ArchiveName(active, stamp)], active, stamps + [stamp])
  {
  }

  /** The main log after a rotation whose stamp is not recent. */
  lemma TurnKeepsMain(c: Conf, k: nat, stamp: string)
    requires Inv(c, k) && IsStamp(stamp) && stamp !in Recent(c.stamps, k - 1)
    ensures var c' := Turn(c, stamp);
            Kept(c'.s.files, c'.s.list, c.s.name, c'.main, k)
  {
    var s, base, warn := c.s, c.s.name, WfName(c.s.name);
    LogsApart(c, k, stamp);
    NamesOf(base, stamp);
    StayingIsRecent(s.list, c.main.made, base, c.stamps, stamp, k);
    TurnedMain(s, ArchiveName(base, stamp), warn, ArchiveName(warn, stamp), c.main, k);
  }

  /** And the warning log. */
  lemma TurnKeepsWarn(c: Conf, k: nat, stamp: string)
    requires Inv(c, k) && IsStamp(stamp) && stamp !in Recent(c.stamps, k - 1) && c.s.wf
    ensures var c' := Turn(c, stamp);
            Kept(c'.s.files, c'.s.wfList, WfName(c.s.name), c'.alarms, k)
  {
    var s, base, warn := c.s, c.s.name, WfName(c.s.name);
    LogsApart(c, k, stamp);
    NamesOf(base, stamp);
    StayingIsRecent(s.wfList, c.alarms.made, warn, c.stamps, stamp, k);
    TurnedWarn(s, ArchiveName(base, stamp), warn, ArchiveName(warn, stamp), c.alarms, k);
  }

  lemma TurnRetained(c: Conf, k: nat, stamp: string)
    requires Inv(c, k) && IsStamp(stamp) && stamp !in Recent(c.stamps, k - 1)
    ensures var c' := Turn(c, stamp);
            Retained(c'.s, WfName(c.s.name), c'.main, c'.alarms, k)
  {
    TurnKeepsMain(c, k, stamp);
    if c.s.wf { TurnKeepsWarn(c, k, stamp); }
  }

  lemma TurnKeeps(c: Conf, k: nat, stamp: string)
    requires Inv(c, k) && IsStamp(stamp) && stamp !in Recent(c.stamps, k - 1)
    ensures Inv(Turn(c, stamp), k)
  {
    TurnRetained(c, k, stamp);
    NamedSnoc(c.main.made, c.s.name, c.stamps, stamp);
    NamedSnoc(c.alarms.made, WfName(c.s.name), c.stamps, stamp);
  }

  /** A rotation whose stamp is recent breaks the promise. */
  lemma TurnBreaks(c: Conf, k: nat, stamp: string)
    requires Inv(c, k) && IsStamp(stamp) && stamp in Recent(c.stamps, k - 1)
    ensures var c' := Turn(c, stamp);
            !Retained(c'.s, WfName(c.s.name), c'.main, c'.alarms, k)
  {
    var base := c.s.name;
    NamesOf(base, stamp);
    StayingIsRecent(c.s.list, c.main.made, base, c.stamps, stamp, k);
    SameSecondOverwrites(Shelf(c.s.files, c.s.list), base, ArchiveName(base, stamp), c.main, k);
  }

  lemma TurnEither(c: Conf, k: nat, stamp: string)
    requires Inv(c, k) && IsStamp(stamp)
    ensures var c' := Turn(c, stamp);
            if stamp in Recent(c.stamps, k - 1) then !Retained(c'.s, WfName(c.s.name), c'.main, c'.alarms, k)
            else Inv(c', k)
  {
    if stamp in Recent(c.stamps, k - 1) { TurnBreaks(c, k, stamp); } else { TurnKeeps(c, k, stamp); }
  }

  /** One call keeps the invariant, or is a rotation too soon and breaks the promise. */
  lemma StepRetains(c: Conf, k: nat, op: Op)
    requires Inv(c, k) && Plain(op)
    ensures if TooSoon(c, op, k)
            then !Retained(Do(c, op).s, WfName(Do(c, op).s.name), Do(c, op).main, Do(c, op).alarms, k)
            else Inv(Do(c, op), k)
  {
    match op
    case Message(text, severe, stamp) =>
      WriteKeeps(c, k, text, severe);
      if Overgrown(Written(c.s, text, severe)) { TurnEither(Write(c, text, severe), k, stamp); }
    case Rotate(stamp) => TurnEither(c, k, stamp);
    case SetSize(_) =>
  }

  // ---------- nothing else is on disk ----------

  /** The names and files, whatever the limit has been and however often stamps have been repeated. */
  ghost predicate Swept(c: Conf) {
    && (forall t :: t in c.stamps ==> IsStamp(t)) && c.s.name in c.s.files
    && Named(c.main.made, c.s.name, c.stamps) && Named(c.alarms.made, WfName(c.s.name), c.stamps)
    && BothTidy(c)
  }

  /** The archives of either log are files of that log, and none of them is active. */
  lemma MadeKinds(base: string, made: seq<string>, stamps: seq<string>)
    requires forall t :: t in stamps ==> IsStamp(t)
    ensures Named(made, base, stamps) ==> forall a :: a in made ==> MainName(base, a) && a != base
    ensures Named(made, WfName(base), stamps) ==> forall a :: a in made ==> WarnName(base, a) && a != WfName(base)
  {
    forall i | 0 <= i < |made| && i < |stamps|
      ensures made[i] == ArchiveName(base, stamps[i]) ==> MainName(base, made[i]) && made[i] != base
      ensures made[i] == ArchiveName(WfName(base), stamps[i]) ==> WarnName(base, made[i]) && made[i] != WfName(base)
    {
      assert stamps[i] in stamps;
      NamesOf(base, stamps[i]);
    }
  }

  /** Archiving a tracked log deletes whatever it drops from the list. */
  lemma ArchiveTidy(sh: Shelf, active: string, to: string, limit: nat, made: seq<string>)
    requires limit > 0 && Tidy(sh.files, sh.list, made)
    ensures var sh' := Archive(sh, active, to, true, limit);
            Tidy(sh'.files, sh'.list, made + [to])
  {
    var sh' := Archive(sh, active, to, true, limit);
    forall a | a in made + [to] && a in sh'.files ensures a in sh'.list {
      if a == to { assert to == sh'.list[|sh'.list| - 1]; }
    }
  }

  /** What else happens to the files makes no archive of this log. */
  lemma TidyElsewhere(f: FileMap, g: FileMap, list: seq<string>, made: seq<string>)
    requires Tidy(f, list, made) && forall a :: a in made && a in g ==> a in f
    ensures Tidy(g, list, made)
  {
  }

  lemma ArchiveMakes(sh: Shelf, active: string, to: string, tracked: bool, limit: nat)
    requires tracked ==> limit > 0
    ensures forall f :: f in Archive(sh, active, to, tracked, limit).files ==> f in sh.files || f == to
  {
  }

  lemma TurnedTidyMain(s: LogState, to: string, warn: string, warnTo: string, made: seq<string>)
    requires s.limit > 0 && s.name in s.files && Tidy(s.files, s.list, made)
    requires s.name !in made + [to] && warn !in made + [to] && warnTo !in made + [to]
    ensures var s' := Turned(s, to, warn, warnTo);
            Tidy(s'.files, s'.list, made + [to])
  {
    var m := Archive(Shelf(s.files, s.list), s.name, to, true, s.limit);
    ArchiveTidy(Shelf(s.files, s.list), s.name, to, s.limit, made);
    ArchiveMakes(Shelf(m.files, s.wfList), warn, warnTo, s.wf, s.limit);
    TidyElsewhere(m.files, Turned(s, to, warn, warnTo).files, m.list, made + [to]);
  }

  lemma TurnedTidyWarn(s: LogState, to: string, warn: string, warnTo: string, made: seq<string>)
    requires s.limit > 0 && s.wf && s.name in s.files && Tidy(s.files, s.wfList, made)
    requires s.name !in made + [warnTo] && warn !in made + [warnTo] && to !in made + [warnTo]
    ensures var s' := Turned(s, to, warn, warnTo);
            Tidy(s'.files, s'.wfList, made + [warnTo])
  {
    var m := Archive(Shelf(s.files, s.list), s.name, to, true, s.limit);
    var w := Archive(Shelf(m.files, s.wfList), warn, warnTo, true, s.limit);
    ArchiveMakes(Shelf(s.files, s.list), s.name, to, true, s.limit);
    assert forall a :: a in made ==> a in made + [warnTo];
    TidyElsewhere(s.files, m.files, s.wfList, made);
    ArchiveTidy(Shelf(m.files, s.wfList), warn, warnTo, s.limit, made);
    TidyElsewhere(w.files, Turned(s, to, warn, warnTo).files, w.list, made + [warnTo]);
  }

  /** The names in a rotation are of the right kinds. */
  lemma TurnKinds(c: Conf, stamp: string)
    requires Swept(c) && IsStamp(stamp)
    ensures var base, warn := c.s.name, WfName(c.s.name);
            var to, warnTo := ArchiveName(base, stamp), ArchiveName(warn, stamp);
            && (forall a :: a in c.main.made + [to] ==> a != base && a != warn && a != warnTo)
            && (forall a :: a in c.alarms.made + [warnTo] ==> a != base && a != warn && a != to)
  {
    MadeKinds(c.s.name, c.main.made, c.stamps);
    MadeKinds(c.s.name, c.alarms.made, c.stamps);
    NamesOf(c.s.name, stamp);
  }

  lemma TurnTidy(c: Conf, stamp: string)
    requires Swept(c) && c.s.limit > 0 && IsStamp(stamp)
    ensures BothTidy(Turn(c, stamp))
  {
    var base, warn := c.s.name, WfName(c.s.name);
    var to, warnTo := ArchiveName(base, stamp), ArchiveName(warn, stamp);
    TurnKinds(c, stamp);
    TurnedTidyMain(c.s, to, warn, warnTo, c.main.made);
    if c.s.wf { TurnedTidyWarn(c.s, to, warn, warnTo, c.alarms.made); }
  }

  lemma TurnSweeps(c: Conf, stamp: string)
    requires Swept(c) && c.s.limit > 0 && IsStamp(stamp)
    ensures Swept(Turn(c, stamp))
  {
    TurnTidy(c, stamp);
    NamedSnoc(c.main.made, c.s.name, c.stamps, stamp);
    NamedSnoc(c.alarms.made, WfName(c.s.name), c.stamps, stamp);
  }

  lemma WriteSweeps(c: Conf, text: string, severe: bool)
    requires Swept(c)
    ensures Swept(Write(c, text, severe))
  {
  }

  /** Stamps are what `rotate_log` makes, and the limit is never zero. */
  predicate Limited(op: Op) {
    Stamped(op) && (op.SetLimit? ==> op.n != 0)
  }

  lemma StepSweeps(c: Conf, op: Op)
    requires Swept(c) && c.s.limit > 0 && Limited(op)
    ensures Swept(Do(c, op)) && Do(c, op).s.limit > 0
  {
    match op
    case Message(text, severe, stamp) =>
      WriteSweeps(c, text, severe);
      if Overgrown(Written(c.s, text, severe)) { TurnSweeps(Write(c, text, severe), stamp); }
    case Rotate(stamp) => TurnSweeps(c, stamp);
    case _ =>
  }

  /** However the limit is changed, unless to zero, and however stamps repeat. */
  lemma {:induction false} RunSweeps(c: Conf, ops: seq<Op>)
    requires Swept(c) && c.s.limit > 0 && forall op :: op in ops ==> Limited(op)
    ensures Swept(DoAll(c, ops))
    decreases |ops|
  {
    if ops != [] {
      assert ops[0] in ops;
      StepSweeps(c, ops[0]);
      RunSweeps(Do(c, ops[0]), ops[1..]);
    }
  }

  /** When a log keeps its promise, its archives on disk are exactly those listed. */
  lemma DiskIsList(files: FileMap, list: seq<string>, active: string, t: Track, k: nat)
    requires Kept(files, list, active, t, k) && Tidy(files, list, t.made)
    ensures forall i :: 0 <= i < |t.made| ==> (t.made[i] in files <==> t.made[i] in list)
  {
    KeptHas(files, list, active, t, k);
  }

  /** A rotation with limit zero deletes nothing, and enters nothing on a list. */
  lemma UntrackedTurn(s: LogState, to: string, warn: string, warnTo: string, made: seq<string>)
    requires s.limit == 0 && s.name in s.files && Tidy(s.files, s.list, made)
    requires forall a :: a in made + [to] ==> a != s.name && a != warn && a != warnTo
    ensures var s' := Turned(s, to, warn, warnTo);
            Tidy(s'.files, s'.list, made + [to]) <==> to in s.list
  {
    var s' := Turned(s, to, warn, warnTo);
    assert to in made + [to] && to in s'.files;
    forall a | a in made + [to] && a in s'.files && a != to ensures a in s.list { assert a in s.files; }
  }

  /** A rotation with limit zero leaves an archive on disk that is not listed, unless its name already is. */
  lemma TurnTidyIff(c: Conf, stamp: string)
    requires Swept(c) && IsStamp(stamp)
    ensures var c' := Turn(c, stamp);
            Tidy(c'.s.files, c'.s.list, c'.main.made)
            <==> c.s.limit > 0 || ArchiveName(c.s.name, stamp) in c.s.list
  {
    var base, warn := c.s.name, WfName(c.s.name);
    var to, warnTo := ArchiveName(base, stamp), ArchiveName(warn, stamp);
    TurnKinds(c, stamp);
    if c.s.limit > 0 {
      TurnTidy(c, stamp);
    } else {
      UntrackedTurn(c.s, to, warn, warnTo, c.main.made);
    }
  }

  /** A file on disk that is neither active nor listed. */
  predicate Unlisted(s: LogState, a: string) {
    a in s.files && a != s.name && a != WfName(s.name) && a !in s.list && a !in s.wfList
  }

  /** A rotation of this call would not give either archive this name. */
  predicate OtherName(name: string, op: Op, a: string) {
    op.Message? || op.Rotate? ==> a != ArchiveName(name, op.stamp) && a != ArchiveName(WfName(name), op.stamp)
  }

  lemma UnlistedTurn(s: LogState, stamp: string, a: string)
    requires Unlisted(s, a) && a != ArchiveName(s.name, stamp) && a != ArchiveName(WfName(s.name), stamp)
    ensures Unlisted(Rotated(s, stamp), a)
  {
  }

  lemma UnlistedStep(c: Conf, op: Op, a: string)
    requires Unlisted(c.s, a) && OtherName(c.s.name, op, a)
    ensures Unlisted(Do(c, op).s, a) && Do(c, op).s.name == c.s.name
  {
    match op
    case Message(text, severe, stamp) =>
      if Overgrown(Written(c.s, text, severe)) { UnlistedTurn(Written(c.s, text, severe), stamp, a); }
    case Rotate(stamp) => UnlistedTurn(c.s, stamp, a);
    case _ =>
  }

  /** An archive that is not listed is never deleted, unless its name is used again. */
  lemma {:induction false} UnlistedStays(c: Conf, ops: seq<Op>, a: string)
    requires Unlisted(c.s, a) && forall op :: op in ops ==> OtherName(c.s.name, op, a)
    ensures a in DoAll(c, ops).s.files
    decreases |ops|
  {
    if ops != [] {
      assert ops[0] in ops;
      UnlistedStep(c, ops[0], a);
      UnlistedStays(Do(c, ops[0]), ops[1..], a);
    }
  }

  // ---------- the promise over runs ----------

  lemma {:induction false} RunRetains(c: Conf, k: nat, ops: seq<Op>)
    requires Inv(c, k) && Swept(c) && forall op :: op in ops ==> Plain(op)
    ensures AlwaysRetained(c, ops, k) <==> Regular(c, ops, k)
    ensures Regular(c, ops, k) ==> Inv(DoAll(c, ops), k)
    decreases |ops|
  {
    if ops != [] {
      assert Plain(ops[0]);
      StepSweeps(c, ops[0]);
      StepRetains(c, k, ops[0]);
      if Inv(Do(c, ops[0]), k) { RunRetains(Do(c, ops[0]), k, ops[1..]); }
    }
  }

  /** A logger that has just opened its files. */
  function Started(name: string, k: nat, maxSize: nat, wf: bool): Conf {
    var files: FileMap := map[name := ""];
    Conf(LogState(name, if wf then files[WfName(name) := ""] else files, [], [], k, maxSize, wf),
         [], Track([], [], ""), Track([], [], ""))
  }

  lemma StartedOk(name: string, k: nat, maxSize: nat, wf: bool)
    requires k > 0
    ensures Inv(Started(name, k, maxSize, wf), k) && Swept(Started(name, k, maxSize, wf))
  {
    assert |WfName(name)| > |name|;
  }

  /**
   With limit `k`, both logs keep exactly the archives of the last min(n, k) of n rotations,
   listed and on disk, each with what was logged before it, and lose nothing that was logged
   since, after every call of a run, if and only if no two of any `k` consecutive rotations
   share a second.
   */
  lemma Retention(name: string, k: nat, maxSize: nat, wf: bool, ops: seq<Op>)
    requires k > 0 && forall op :: op in ops ==> Plain(op)
    ensures AlwaysRetained(Started(name, k, maxSize, wf), ops, k) <==> Regular(Started(name, k, maxSize, wf), ops, k)
  {
    StartedOk(name, k, maxSize, wf);
    RunRetains(Started(name, k, maxSize, wf), k, ops);
  }

  // ---------- nothing is lost ----------

  /** The text a run logs to the main log, and to the warning log. */
  function Logged(ops: seq<Op>): string {
    if ops == [] then "" else (if ops[0].Message? then ops[0].text else "") + Logged(ops[1..])
  }

  function Alarms(ops: seq<Op>): string {
    if ops == [] then ""
    else (if ops[0].Message? && ops[0].severe then ops[0].text else "") + Alarms(ops[1..])
  }

  lemma CloseSameText(t: Track, to: string)
    ensures AllText(Close(t, to)) == AllText(t)
  {
    ConcatSnoc(t.segments, t.current);
  }

  lemma NoteText(t: Track, text: string)
    ensures AllText(Note(t, text)) == AllText(t) + text
  {
    ConcatAssoc(Concat(t.segments), t.current, text);
  }

  lemma TurnText(c: Conf, stamp: string)
    ensures AllText(Turn(c, stamp).main) == AllText(c.main) && AllText(Turn(c, stamp).alarms) == AllText(c.alarms)
  {
    CloseSameText(c.main, ArchiveName(c.s.name, stamp));
    CloseSameText(c.alarms, ArchiveName(WfName(c.s.name), stamp));
  }

  lemma DoText(c: Conf, op: Op)
    ensures Do(c, op).s.wf == c.s.wf
    ensures AllText(Do(c, op).main) == AllText(c.main) + (if op.Message? then op.text else "")
    ensures c.s.wf ==> AllText(Do(c, op).alarms) == AllText(c.alarms) + (if op.Message? && op.severe then op.text else "")
  {
    assert AllText(c.main) + "" == AllText(c.main) && AllText(c.alarms) + "" == AllText(c.alarms);
    match op
    case Message(text, severe, stamp) =>
      var c' := Write(c, text, severe);
      NoteText(c.main, text);
      NoteText(c.alarms, text);
      TurnText(c', stamp);
    case Rotate(stamp) => TurnText(c, stamp);
    case _ =>
  }

  /** The segments are what was logged: nothing is left out and nothing added. */
  lemma {:induction false} SegmentsAreLogged(c: Conf, ops: seq<Op>)
    ensures DoAll(c, ops).s.wf == c.s.wf
    ensures AllText(DoAll(c, ops).main) == AllText(c.main) + Logged(ops)
    ensures c.s.wf ==> AllText(DoAll(c, ops).alarms) == AllText(c.alarms) + Alarms(ops)
    decreases |ops|
  {
    if ops != [] {
      var c', rest := Do(c, ops[0]), ops[1..];
      SegmentsAreLogged(c', rest);
      DoText(c, ops[0]);
      ConcatAssoc(AllText(c.main), if ops[0].Message? then ops[0].text else "", Logged(rest));
      ConcatAssoc(AllText(c.alarms), if ops[0].Message? && ops[0].severe then ops[0].text else "", Alarms(rest));
    } else {
      assert AllText(c.main) + "" == AllText(c.main) && AllText(c.alarms) + "" == AllText(c.alarms);
    }
  }

  /** What the listed files hold, one after the other. */
  function Contents(files: FileMap, list: seq<string>): (r: seq<string>)
    requires forall a :: a in list ==> a in files
    ensures |r| == |list|
  {
    seq(|list|, i requires 0 <= i < |list| => assert list[i] in list; files[list[i]])
  }

  /**
   The archives on disk followed by the active file are the end of `logged`, and all of it
   as long as there have been no more than `k` rotations.
   */
  ghost predicate OnDisk(files: FileMap, list: seq<string>, active: string, logged: string, rotations: nat, k: nat) {
    && (forall a :: a in list ==> a in files) && active in files
    && exists lost: string ::
         && logged == lost + (Concat(Contents(files, list)) + files[active])
         && (rotations <= k ==> lost == "")
  }

  lemma KeptIsOnDisk(files: FileMap, list: seq<string>, active: string, t: Track, k: nat)
    requires Kept(files, list, active, t, k)
    ensures OnDisk(files, list, active, AllText(t), |t.made|, k)
  {
    var n := |t.segments| - |list|;
    KeptHas(files, list, active, t, k);
    assert Contents(files, list) == t.segments[n..];
    var lost := Concat(t.segments[..n]);
    assert t.segments == t.segments[..n] + t.segments[n..];
    ConcatAppend(t.segments[..n], t.segments[n..]);
    ConcatAssoc(lost, Concat(t.segments[n..]), t.current);
    assert |t.made| <= k ==> t.segments[..n] == [];
  }

  lemma InvIsOnDisk(c: Conf, k: nat)
    requires Inv(c, k)
    ensures OnDisk(c.s.files, c.s.list, c.s.name, AllText(c.main), |c.stamps|, k)
    ensures c.s.wf ==> OnDisk(c.s.files, c.s.wfList, WfName(c.s.name), AllText(c.alarms), |c.stamps|, k)
  {
    KeptIsOnDisk(c.s.files, c.s.list, c.s.name, c.main, k);
    if c.s.wf { KeptIsOnDisk(c.s.files, c.s.wfList, WfName(c.s.name), c.alarms, k); }
  }

  /** A run from the start has logged what its messages say. */
  lemma RunText(name: string, k: nat, maxSize: nat, wf: bool, ops: seq<Op>)
    ensures var c := DoAll(Started(name, k, maxSize, wf), ops);
            c.s.wf == wf && AllText(c.main) == Logged(ops) && (wf ==> AllText(c.alarms) == Alarms(ops))
  {
    var c := Started(name, k, maxSize, wf);
    SegmentsAreLogged(c, ops);
    assert AllText(c.main) == "" && AllText(c.alarms) == "";
    assert "" + Logged(ops) == Logged(ops) && "" + Alarms(ops) == Alarms(ops);
  }

  /** After a regular run, what either log has on disk is the end of what was logged to it. */
  lemma NothingLost(name: string, k: nat, maxSize: nat, wf: bool, ops: seq<Op>)
    requires k > 0 && (forall op :: op in ops ==> Plain(op)) && Regular(Started(name, k, maxSize, wf), ops, k)
    ensures var c := DoAll(Started(name, k, maxSize, wf), ops);
            && OnDisk(c.s.files, c.s.list, c.s.name, Logged(ops), |c.stamps|, k)
            && (wf ==> OnDisk(c.s.files, c.s.wfList, WfName(c.s.name), Alarms(ops), |c.stamps|, k))
  {
    StartedOk(name, k, maxSize, wf);
    RunRetains(Started(name, k, maxSize, wf), k, ops);
    RunText(name, k, maxSize, wf, ops);
    InvIsOnDisk(DoAll(Started(name, k, maxSize, wf), ops), k);
  }

  // ---------- limits ----------

  /** The largest limit in force at the start or set during the run. */
  function LargestLimit(limit: nat, ops: seq<Op>): (m: nat)
    ensures m >= limit
    decreases |ops|
  {
    if ops == [] then limit
    else
      var m := LargestLimit(if ops[0].SetLimit? then ClampLimit(ops[0].n) else limit, ops[1..]);
      if m < limit then limit else m
  }

  lemma RotatedBound(s: LogState, stamp: string, m: nat)
    requires s.limit <= m && |s.list| <= m && |s.wfList| <= m
    ensures var s' := Rotated(s, stamp);
            |s'.list| <= m && |s'.wfList| <= m && s'.limit == s.limit
  {
  }

  /**
   A limit that has been lowered is not reached: a rotation that finds more archives listed
   than the limit deletes one and adds one.
   */
  lemma RotatedLength(s: LogState, stamp: string)
    requires s.limit > 0 && s.name in s.files
    ensures |Rotated(s, stamp).list| <= s.limit <==> |s.list| <= s.limit
    ensures |Rotated(s, stamp).list| == if |s.list| >= s.limit then |s.list| else |s.list| + 1
    ensures s.wf ==> |Rotated(s, stamp).wfList| == if |s.wfList| >= s.limit then |s.wfList| else |s.wfList| + 1
  {
  }

  /** The length of a list of `l` archives after `n` rotations with limit `k`. */
  function LengthAfter(l: nat, n: nat, k: nat): nat {
    if l >= k then l else Min(l + n, k)
  }

  lemma LengthAdds(l: nat, a: nat, b: nat, k: nat)
    ensures LengthAfter(LengthAfter(l, a, k), b, k) == LengthAfter(l, a + b, k)
  {
  }

  /** Between two states with one limit, both lists have grown by the rotations, up to the limit. */
  predicate Grown(c: Conf, d: Conf) {
    && d.s.limit == c.s.limit && d.s.wf == c.s.wf && d.s.name in d.s.files && |c.stamps| <= |d.stamps|
    && |d.s.list| == LengthAfter(|c.s.list|, |d.stamps| - |c.stamps|, c.s.limit)
    && (c.s.wf ==> |d.s.wfList| == LengthAfter(|c.s.wfList|, |d.stamps| - |c.stamps|, c.s.limit))
  }

  lemma GrownTrans(c: Conf, d: Conf, e: Conf)
    requires Grown(c, d) && Grown(d, e)
    ensures Grown(c, e)
  {
    var a, b := |d.stamps| - |c.stamps|, |e.stamps| - |d.stamps|;
    LengthAdds(|c.s.list|, a, b, c.s.limit);
    LengthAdds(|c.s.wfList|, a, b, c.s.limit);
  }

  lemma DoLength(c: Conf, op: Op)
    requires c.s.limit > 0 && c.s.name in c.s.files && !op.SetLimit?
    ensures Grown(c, Do(c, op))
  {
    match op
    case Message(text, severe, stamp) => RotatedLength(Written(c.s, text, severe), stamp);
    case Rotate(stamp) => RotatedLength(c.s, stamp);
    case SetSize(_) =>
  }

  /** With a fixed limit, a list that is shorter grows up to it, and a longer one never shrinks. */
  lemma {:induction false} LengthOverRun(c: Conf, ops: seq<Op>)
    requires c.s.limit > 0 && c.s.name in c.s.files && forall op :: op in ops ==> !op.SetLimit?
    ensures Grown(c, DoAll(c, ops))
    decreases |ops|
  {
    if ops != [] {
      assert ops[0] in ops;
      DoLength(c, ops[0]);
      LengthOverRun(Do(c, ops[0]), ops[1..]);
      GrownTrans(c, Do(c, ops[0]), DoAll(c, ops));
    }
  }

  /** However the limit is changed, neither list outgrows the largest limit ever in force. */
  lemma {:induction false} ListsBounded(c: Conf, ops: seq<Op>, m: nat)
    requires |c.s.list| <= m && |c.s.wfList| <= m && LargestLimit(c.s.limit, ops) <= m
    ensures |DoAll(c, ops).s.list| <= m && |DoAll(c, ops).s.wfList| <= m
    decreases |ops|
  {
    if ops != [] {
      match ops[0] {
        case Message(text, severe, stamp) => RotatedBound(Written(c.s, text, severe), stamp, m);
        case Rotate(stamp) => RotatedBound(c.s, stamp, m);
        case _ =>
      }
      ListsBounded(Do(c, ops[0]), ops[1..], m);
    }
  }

  /** The archives of a log that are on disk. */
  function ArchivesOnDisk(files: FileMap, made: seq<string>): set<string> {
    set a | a in made && a in files
  }

  lemma {:induction false} FewOf(xs: set<string>, list: seq<string>)
    requires forall a :: a in xs ==> a in list
    ensures |xs| <= |list|
    decreases |list|
  {
    if list != [] {
      FewOf(xs - {list[0]}, list[1..]);
      if list[0] in xs { assert xs == (xs - {list[0]}) + {list[0]}; }
    } else {
      assert xs == {};
    }
  }

  /**
   Whatever limits but zero are asked for, and however stamps repeat, neither log ever has an
   archive on disk that is not listed, nor more archives than the largest limit.
   */
  lemma DiskBounded(name: string, k: nat, maxSize: nat, wf: bool, ops: seq<Op>)
    requires k > 0 && forall op :: op in ops ==> Limited(op)
    ensures var c := DoAll(Started(name, k, maxSize, wf), ops);
            && BothTidy(c)
            && |ArchivesOnDisk(c.s.files, c.main.made)| <= LargestLimit(k, ops)
            && (c.s.wf ==> |ArchivesOnDisk(c.s.files, c.alarms.made)| <= LargestLimit(k, ops))
  {
    StartedOk(name, k, maxSize, wf);
    RunSweeps(Started(name, k, maxSize, wf), ops);
    ListsBounded(Started(name, k, maxSize, wf), ops, LargestLimit(k, ops));
    var c := DoAll(Started(name, k, maxSize, wf), ops);
    FewOf(ArchivesOnDisk(c.s.files, c.main.made), c.s.list);
    if c.s.wf { FewOf(ArchivesOnDisk(c.s.files, c.alarms.made), c.s.wfList); }
  }

  lemma {:induction false} LimitsCapped(limit: nat, ops: seq<Op>)
    requires limit <= 1024
    ensures LargestLimit(limit, ops) <= 1024
    decreases |ops|
  {
    if ops != [] { LimitsCapped(if ops[0].SetLimit? then ClampLimit(ops[0].n) else limit, ops[1..]); }
  }

  /** Whatever limits are asked for, a log never has more than 1024 archives listed. */
  lemma NeverOver1024(name: string, maxSize: nat, wf: bool, ops: seq<Op>)
    ensures var s := DoAll(Started(name, 0, maxSize, wf), ops).s;
            |s.list| <= 1024 && |s.wfList| <= 1024
  {
    LimitsCapped(0, ops);
    ListsBounded(Started(name, 0, maxSize, wf), ops, 1024);
  }

  /** When the active file is not there, a rotation only opens new files. */
  lemma NothingToRotate(s: LogState, stamp: string)
    requires s.name !in s.files
    ensures var s' := Rotated(s, stamp);
            && s'.list == s.list && s'.wfList == s.wfList
            && s'.name in s'.files && s'.files[s.name] == "" && (s.wf ==> WfName(s.name) in s'.files)
            && (forall a :: a in s.files ==> a in s'.files && s'.files[a] == s.files[a])
            && (forall a :: a in s'.files ==> a in s.files || a == s.name || (s.wf && a == WfName(s.name)))
  {
    assert |WfName(s.name)| > |s.name|;
  }

  /** A rotation leaves a new, empty active file. */
  lemma TurnedEmpties(s: LogState, to: string, warn: string, warnTo: string)
    requires s.name in s.files && s.name != to && s.name != warn && s.name != warnTo
    ensures var s' := Turned(s, to, warn, warnTo);
            s.name in s'.files && s'.files[s.name] == ""
  {
  }

  /**
   After any message the active file is shorter than the size asked for, or than a gigabyte if
   the size asked for is out of range; and zero turns rotation by size off.
   */
  lemma SizeIsHonoured(c: Conf, n: int, text: string, severe: bool, stamp: string)
    requires IsStamp(stamp) && c.s.name in c.s.files
    ensures var c' := Do(Do(c, SetSize(n)), Message(text, severe, stamp));
            && c'.s.name in c'.s.files
            && (n == 0 ==> c'.stamps == c.stamps)
            && (n != 0 ==> |c'.s.files[c'.s.name]| < if 0 < n <= 0x4000_0000 then n else 0x4000_0000)
  {
    var c1 := Write(Do(c, SetSize(n)), text, severe);
    NamesOf(c.s.name, stamp);
    if Overgrown(c1.s) {
      TurnedEmpties(c1.s, ArchiveName(c.s.name, stamp), WfName(c.s.name), ArchiveName(WfName(c.s.name), stamp));
    }
  }

  // ---------- when the size makes it rotate ----------

  /** The active file holds what has been logged since the last rotation. */
  ghost predicate Current(c: Conf) {
    c.s.name in c.s.files && c.s.files[c.s.name] == c.main.current
  }

  lemma WriteCurrent(c: Conf, text: string, severe: bool)
    requires Current(c)
    ensures Current(Write(c, text, severe)) && Write(c, text, severe).main.current == c.main.current + text
  {
    assert |WfName(c.s.name)| > |c.s.name|;
  }

  lemma TurnCurrent(c: Conf, stamp: string)
    requires Current(c) && IsStamp(stamp)
    ensures Current(Turn(c, stamp))
  {
    NamesOf(c.s.name, stamp);
    TurnedEmpties(c.s, ArchiveName(c.s.name, stamp), WfName(c.s.name), ArchiveName(WfName(c.s.name), stamp));
  }

  lemma StepCurrent(c: Conf, op: Op)
    requires Current(c) && Stamped(op)
    ensures Current(Do(c, op))
  {
    match op
    case Message(text, severe, stamp) =>
      WriteCurrent(c, text, severe);
      if Overgrown(Written(c.s, text, severe)) { TurnCurrent(Write(c, text, severe), stamp); }
    case Rotate(stamp) => TurnCurrent(c, stamp);
    case _ =>
  }

  lemma {:induction false} RunCurrent(c: Conf, ops: seq<Op>)
    requires Current(c) && forall op :: op in ops ==> Stamped(op)
    ensures Current(DoAll(c, ops))
    decreases |ops|
  {
    if ops != [] {
      assert ops[0] in ops;
      StepCurrent(c, ops[0]);
      RunCurrent(Do(c, ops[0]), ops[1..]);
    }
  }

  /** A message rotates exactly when what has been logged since the last rotation reaches the size limit. */
  lemma RotatesAtLimit(c: Conf, text: string, severe: bool, stamp: string)
    requires Current(c)
    ensures var c' := Do(c, Message(text, severe, stamp));
            if 0 < c.s.maxSize <= |c.main.current| + |text|
            then c'.stamps == c.stamps + [stamp] && c'.main.segments == c.main.segments + [c.main.current + text]
            else c'.stamps == c.stamps && c'.main.segments == c.main.segments
                 && c'.main.current == c.main.current + text
  {
    WriteCurrent(c, text, severe);
  }

  /** That is so after any run of a logger just started. */
  lemma RotatesAtLimitInRuns(name: string, k: nat, maxSize: nat, wf: bool, ops: seq<Op>,
                             text: string, severe: bool, stamp: string)
    requires forall op :: op in ops ==> Stamped(op)
    ensures var c := DoAll(Started(name, k, maxSize, wf), ops);
            var c' := Do(c, Message(text, severe, stamp));
            c'.stamps == c.stamps + [stamp] <==> 0 < c.s.maxSize <= |c.main.current| + |text|
  {
    RunCurrent(Started(name, k, maxSize, wf), ops);
    RotatesAtLimit(DoAll(Started(name, k, maxSize, wf), ops), text, severe, stamp);
  }

  ghost predicate LongSegments(c: Conf, size: nat) {
    forall i :: 0 <= i < |c.main.segments| ==> |c.main.segments[i]| >= size
  }

  /** Over a run of messages with one size limit, nothing shorter is archived, and nothing as long stays active. */
  lemma {:induction false} SegmentsReachLimit(c: Conf, ops: seq<Op>)
    requires Current(c) && LongSegments(c, c.s.maxSize) && (forall op :: op in ops ==> Stamped(op))
    requires 0 < c.s.maxSize && |c.main.current| < c.s.maxSize
    requires forall op :: op in ops ==> !op.Rotate? && !op.SetSize?
    ensures var c' := DoAll(c, ops);
            c'.s.maxSize == c.s.maxSize && LongSegments(c', c.s.maxSize) && |c'.main.current| < c.s.maxSize
    decreases |ops|
  {
    if ops != [] {
      var op := ops[0];
      assert op in ops;
      StepCurrent(c, op);
      if op.Message? { RotatesAtLimit(c, op.text, op.severe, op.stamp); }
      SegmentsReachLimit(Do(c, op), ops[1..]);
    }
  }

  // ---------- the class ----------

  class Logger {
    var m_name: string
    var files: FileMap
    var m_fileList: seq<string>
    var m_wfFileList: seq<string>
    var m_maxFileIndex: nat
    var m_maxFileSize: nat
    var m_wfFlag: bool

    ghost function State(): LogState
      reads this
    {
      LogState(m_name, files, m_fileList, m_wfFileList, m_maxFileIndex, m_maxFileSize, m_wfFlag)
    }

    constructor (name: string, wf: bool)
      ensures State() == Started(name, 0, 67108864, wf).s
    {
      m_name, m_wfFlag, m_fileList, m_wfFileList, m_maxFileIndex, m_maxFileSize := name, wf, [], [], 0, 67108864;
      files := if wf then map[name := "", WfName(name) := ""] else map[name := ""];
    }

    method SetMaxFileIndex(n: int)
      modifies `m_maxFileIndex
      ensures m_maxFileIndex == ClampLimit(n)
      ensures 0 <= n <= 1024 ==> m_maxFileIndex == n
      ensures n < 0 ==> m_maxFileIndex == 15
      ensures n > 1024 ==> m_maxFileIndex == 1024
    {
      var m := n;
      if m < 0 { m := 0x0F; }
      if m > 0x400 { m := 0x400; }
      m_maxFileIndex := m;
    }

    method SetMaxFileSize(n: int)
      modifies `m_maxFileSize
      ensures m_maxFileSize == ClampSize(n)
      ensures 0 <= n <= 0x4000_0000 ==> m_maxFileSize == n
      ensures n < 0 || n > 0x4000_0000 ==> m_maxFileSize == 0x4000_0000
    {
      var m := n;
      if m < 0 || m > 0x4000_0000 { m := 0x4000_0000; }
      m_maxFileSize := m;
    }

    method RotateLog(stamp: string)
      modifies this
      ensures State() == Rotated(old(State()), stamp)
    {
      var wfName := WfName(m_name);
      if m_name in files {
        var oldLogFile, oldWfLogFile := ArchiveName(m_name, stamp), ArchiveName(wfName, stamp);
        if m_maxFileIndex > 0 {
          if |m_fileList| >= m_maxFileIndex {
            var oldFile := m_fileList[0];
            m_fileList := m_fileList[1..];
            files := files - {oldFile};
          }
          m_fileList := m_fileList + [oldLogFile];
        }
        files := Rename(files, m_name, oldLogFile);
        if m_wfFlag && m_maxFileIndex > 0 {
          if |m_wfFileList| >= m_maxFileIndex {
            var oldWfFile := m_wfFileList[0];
            m_wfFileList := m_wfFileList[1..];
            files := files - {oldWfFile};
          }
          m_wfFileList := m_wfFileList + [oldWfLogFile];
        }
        files := Rename(files, wfName, oldWfLogFile);
      }
      files := Open(files, m_name);
      if m_wfFlag { files := Open(files, wfName); }
    }

    /** The writes of `log_message` and the check that may rotate. */
    method LogMessage(text: string, severe: bool, stamp: string) returns (rotated: bool)
      modifies this
      ensures var s := Written(old(State()), text, severe);
              rotated == Overgrown(s) && State() == if rotated then Rotated(s, stamp) else s
    {
      files := Append(files, m_name, text);
      if m_wfFlag && severe { files := Append(files, WfName(m_name), text); }
      rotated := false;
      if m_maxFileSize != 0 && m_name in files {
        if |files[m_name]| >= m_maxFileSize {
          RotateLog(stamp);
          rotated := true;
        }
      }
    }
  }
}

/** The cleanup of a restore's staging folder: old files go, but never what the next restore starts from. */
module StagingCleanup {
  import opened Basics
  import opened BackupOrder

  datatype Kind = FullBackup | DiffBackup | LogBackup

  /** The non-empty components of a path, lower case. */
  function Parts(s: string): seq<string> {
    PartsFrom(Lower(Slashes(s)), "")
  }

  function PartsFrom(s: string, part: string): seq<string> {
    var done := if part == "" then [] else [part];
    if s == "" then done
    else if s[0] == '/' then done + PartsFrom(s[1..], "")
    else PartsFrom(s[1..], part + [s[0]])
  }

  predicate Contains(s: string, marker: string) {
    StartsWith(s, marker) || (s != "" && Contains(s[1..], marker))
  }

  const DIFF_FOLDERS := {"diff", "differential", "incr", "incremental"}
  const LOG_FOLDERS := {"log", "archivelog", "arch", "redo"}

  /** What a staged file is, by its folder, its name and its extension. */
  function BackupKind(text: string): Kind {
    var parts := Parts(text);
    var name := if parts == [] then "" else parts[|parts| - 1];
    var folder := if |parts| < 2 then "" else parts[|parts| - 2];
    if EndsWith(name, ".trn") || folder in LOG_FOLDERS || Contains(name, "_log_") then LogBackup
    else if folder in DIFF_FOLDERS || Contains(name, "_diff_") || Contains(name, "_incr_") then DiffBackup
    else FullBackup
  }

  /** The chain a file belongs to: its folder's name, or the one above a folder that only says the kind. */
  function ChainGroup(text: string): string {
    var parts := Parts(text);
    var folders := if parts == [] then [] else parts[..|parts| - 1];
    var above := if folders != [] && folders[|folders| - 1] in DIFF_FOLDERS + LOG_FOLDERS + {"full"}
                 then folders[..|folders| - 1] else folders;
    if above == [] then "" else above[|above| - 1]
  }

  predicate IsFull(f: Stamped) {
    BackupKind(f.text).FullBackup?
  }

  lemma {:induction false} PartsOfBoth(a: string, b: string, part: string)
    ensures PartsFrom(a + "/" + b, part) == PartsFrom(a, part) + PartsFrom(b, "")
  {
    var s := a + "/" + b;
    if a == "" {
      assert s[0] == '/' && s[1..] == b;
    } else {
      assert s[0] == a[0] && s[1..] == a[1..] + "/" + b;
      PartsOfBoth(a[1..], b, if a[0] == '/' then "" else part + [a[0]]);
    }
  }

  lemma PartsJoin(a: string, b: string)
    ensures Parts(a + "/" + b) == Parts(a) + Parts(b)
  {
    assert Lower(Slashes(a + "/" + b)) == Lower(Slashes(a)) + "/" + Lower(Slashes(b));
    PartsOfBoth(Lower(Slashes(a)), Lower(Slashes(b)), "");
  }

  /** A folder that only says the kind does not part a chain: a database's files are of one chain in its own
      folder and in its full, differential and log folders. */
  lemma KindFoldersAreOneChain(root: string, kind: string, name: string)
    requires var r, k := Parts(root), Parts(kind);
      && r != [] && r[|r| - 1] !in DIFF_FOLDERS + LOG_FOLDERS + {"full"}
      && |k| == 1 && k[0] in DIFF_FOLDERS + LOG_FOLDERS + {"full"} && |Parts(name)| == 1
    ensures ChainGroup(root + "/" + (kind + "/" + name)) == ChainGroup(root + "/" + name)
    ensures ChainGroup(root + "/" + name) == Parts(root)[|Parts(root)| - 1]
    ensures Parts(kind)[0] in LOG_FOLDERS ==> BackupKind(root + "/" + (kind + "/" + name)).LogBackup?
    ensures Parts(kind)[0] !in LOG_FOLDERS ==> (BackupKind(root + "/" + (kind + "/" + name)).FullBackup? ==>
      Parts(kind)[0] == "full")
  {
    var r, k, n := Parts(root), Parts(kind), Parts(name);
    PartsJoin(root, name);
    PartsJoin(kind, name);
    PartsJoin(root, kind + "/" + name);
    assert (r + (k + n))[..|r| + 1] == r + k && (r + k)[..|r|] == r;
    assert (r + n)[..|r|] == r;
  }

  ghost predicate At(s: string, i: nat, marker: string) {
    i + |marker| <= |s| && s[i..i + |marker|] == marker
  }

  lemma {:induction false} ContainsExactly(s: string, marker: string)
    ensures Contains(s, marker) <==> exists i: nat :: At(s, i, marker)
  {
    if StartsWith(s, marker) {
      assert At(s, 0, marker);
    } else if s != "" {
      ContainsExactly(s[1..], marker);
      forall i: nat | At(s, i, marker) ensures i > 0 && At(s[1..], i - 1, marker) {
        assert s[1..][i - 1..i - 1 + |marker|] == s[i..i + |marker|];
      }
      forall i: nat | At(s[1..], i, marker) ensures At(s, i + 1, marker) {
        assert s[i + 1..i + 1 + |marker|] == s[1..][i..i + |marker|];
      }
    }
  }

  /** A name: one component, without a slash of either kind. */
  ghost predicate Plain(name: string) {
    name != "" && '/' !in name && '\\' !in name
  }

  lemma {:induction false} PlainFrom(s: string, part: string)
    requires '/' !in s && part + s != ""
    ensures PartsFrom(s, part) == [part + s]
  {
    if s == "" {
      assert part + s == part;
    } else {
      assert s[0] in s && part + s == (part + [s[0]]) + s[1..];
      PlainFrom(s[1..], part + [s[0]]);
    }
  }

  lemma PlainIsOnePart(name: string)
    requires Plain(name)
    ensures Parts(name) == [Lower(name)]
  {
    assert Slashes(name) == name;
    var low := Lower(name);
    forall i | 0 <= i < |low| ensures low[i] != '/' { assert name[i] in name; }
    assert "" + low == low;
    PlainFrom(low, "");
  }

  /** A name holds a marker at a place, in any case. */
  ghost predicate HasAt(name: string, i: nat, marker: string) {
    i + |marker| <= |name| && SameButCase(name[i..i + |marker|], marker)
  }

  ghost predicate Has(name: string, marker: string) {
    exists i: nat :: HasAt(name, i, marker)
  }

  ghost predicate Ending(name: string, suffix: string) {
    |name| >= |suffix| && SameButCase(name[|name| - |suffix|..], suffix)
  }

  lemma HasAtExactly(name: string, i: nat, marker: string)
    requires Lower(marker) == marker
    ensures HasAt(name, i, marker) <==> At(Lower(name), i, marker)
  {
    if i + |marker| <= |name| {
      LowerFolds(name[i..i + |marker|], marker);
      assert Lower(name)[i..i + |marker|] == Lower(name[i..i + |marker|]);
    }
  }

  lemma HasExactly(name: string, marker: string)
    requires Lower(marker) == marker
    ensures Has(name, marker) <==> Contains(Lower(name), marker)
  {
    ContainsExactly(Lower(name), marker);
    forall i: nat ensures HasAt(name, i, marker) <==> At(Lower(name), i, marker) { HasAtExactly(name, i, marker); }
  }

  lemma EndingExactly(name: string, suffix: string)
    requires Lower(suffix) == suffix
    ensures Ending(name, suffix) <==> EndsWith(Lower(name), suffix)
  {
    if |name| >= |suffix| {
      var i := |name| - |suffix|;
      LowerFolds(name[i..], suffix);
      assert Lower(name)[i..] == Lower(name[i..]);
    }
  }

  lemma Markers()
    ensures Lower(".trn") == ".trn" && Lower("_log_") == "_log_"
    ensures Lower("_diff_") == "_diff_" && Lower("_incr_") == "_incr_"
  {
  }

  lemma LogName(name: string)
    ensures EndsWith(Lower(name), ".trn") <==> Ending(name, ".trn")
    ensures Contains(Lower(name), "_log_") <==> Has(name, "_log_")
  {
    Markers();
    EndingExactly(name, ".trn");
    HasExactly(name, "_log_");
  }

  lemma DiffName(name: string)
    ensures Contains(Lower(name), "_diff_") <==> Has(name, "_diff_")
    ensures Contains(Lower(name), "_incr_") <==> Has(name, "_incr_")
  {
    Markers();
    HasExactly(name, "_diff_");
    HasExactly(name, "_incr_");
  }

  lemma PlacedIn(root: string, folder: string, name: string)
    requires Plain(folder) && Plain(name)
    ensures Parts(root + "/" + (folder + "/" + name)) == Parts(root) + [Lower(folder)] + [Lower(name)]
  {
    PlainIsOnePart(folder);
    PlainIsOnePart(name);
    PartsJoin(folder, name);
    PartsJoin(root, folder + "/" + name);
    assert Parts(root) + ([Lower(folder)] + [Lower(name)]) == Parts(root) + [Lower(folder)] + [Lower(name)];
  }

  /** What a staged file is, by its folder's name and its own, in any case: a log by its ending, its folder or its
      name; of the others a differential by its folder or its name; and a full otherwise. */
  lemma KindByName(root: string, folder: string, name: string)
    requires Plain(folder) && Plain(name)
    ensures var kind, low := BackupKind(root + "/" + (folder + "/" + name)), Lower(folder);
      && (kind.LogBackup? <==>
            Ending(name, ".trn") || Has(name, "_log_") || low in {"log", "archivelog", "arch", "redo"})
      && (kind.DiffBackup? <==>
            && !kind.LogBackup?
            && (Has(name, "_diff_") || Has(name, "_incr_") || low in {"diff", "differential", "incr", "incremental"}))
  {
    PlacedIn(root, folder, name);
    LogName(name);
    DiffName(name);
  }

  /** A file's chain is its folder's name, unless that only says a kind. */
  lemma ChainByFolder(root: string, folder: string, name: string)
    requires Plain(folder) && Plain(name)
    requires Lower(folder) !in {"diff", "differential", "incr", "incremental"}
    requires Lower(folder) !in {"full", "log", "archivelog", "arch", "redo"}
    ensures ChainGroup(root + "/" + (folder + "/" + name)) == Lower(folder)
  {
    PlacedIn(root, folder, name);
    var parts := Parts(root + "/" + (folder + "/" + name));
    assert parts[..|parts| - 1] == Parts(root) + [Lower(folder)];
  }

  // ---------------------------------------------------------------- what is obsolete

  function Fulls(files: set<Stamped>): set<Stamped> {
    set f | f in files && IsFull(f)
  }

  function ChainFulls(files: set<Stamped>, group: string): set<Stamped> {
    set f | f in files && IsFull(f) && ChainGroup(f.text) == group
  }

  /** The full a chain hangs on: its own newest, or the folder's newest when it has none. */
  ghost predicate IsAnchor(files: set<Stamped>, group: string, a: Stamped) {
    IsNewest(if ChainFulls(files, group) != {} then ChainFulls(files, group) else Fulls(files), a)
  }

  /** Superseded by its chain's anchor. With no full at all, age alone decides. */
  ghost predicate IsObsolete(files: set<Stamped>, f: Stamped) {
    Fulls(files) != {} ==> exists a ::
      IsAnchor(files, ChainGroup(f.text), a) && if IsFull(f) then Before(f, a) else f.stamp < a.stamp
  }

  ghost function Obsolete(files: set<Stamped>): set<Stamped> {
    set f | f in files && IsObsolete(files, f)
  }

  /** One full is newer than another, or stands at a later moment than any other file. */
  ghost predicate Overtakes(g: Stamped, f: Stamped) {
    g.stamp > f.stamp || (g.stamp == f.stamp && IsFull(f) && TextBefore(f.text, g.text))
  }

  /** Obsolete, file by file: overtaken by a full of its own chain; where its chain has none, by any full; and where
      there is no full at all, always. */
  lemma ObsoleteExactly(files: set<Stamped>, f: Stamped)
    requires f in files
    ensures var all := set g | g in files && IsFull(g);
            var own := set g | g in all && ChainGroup(g.text) == ChainGroup(f.text);
      f in Obsolete(files) <==>
        if own != {} then exists g :: g in own && Overtakes(g, f)
        else all != {} ==> exists g :: g in all && Overtakes(g, f)
  {
    var all := set g | g in files && IsFull(g);
    var own := set g | g in all && ChainGroup(g.text) == ChainGroup(f.text);
    assert all == Fulls(files) && own == ChainFulls(files, ChainGroup(f.text));
    if all != {} { AnchorDecides(files, if own != {} then own else all, f); }
  }

  /** The anchor alone decides: whatever overtakes a file, the newest of the fulls does. */
  lemma AnchorDecides(files: set<Stamped>, among: set<Stamped>, f: Stamped)
    requires among != {} && Fulls(files) != {}
    requires var own := ChainFulls(files, ChainGroup(f.text)); among == if own != {} then own else Fulls(files)
    ensures IsObsolete(files, f) <==> exists g :: g in among && Overtakes(g, f)
  {
    var a := AnchorExists(files, ChainGroup(f.text));
    assert IsNewest(among, a);
    assert IsObsolete(files, f) <==> Overtakes(a, f);
    if o :| o in among && Overtakes(o, f) { OvertakenByTheNewest(among, a, o, f); }
  }

  lemma OvertakenByTheNewest(among: set<Stamped>, a: Stamped, o: Stamped, f: Stamped)
    requires IsNewest(among, a) && o in among && Overtakes(o, f)
    ensures Overtakes(a, f)
  {
    if IsFull(f) && a != o { BeforeChains(f, o, a); }
  }

  lemma AnchorExists(files: set<Stamped>, group: string) returns (a: Stamped)
    requires Fulls(files) != {}
    ensures IsAnchor(files, group, a) && forall b :: IsAnchor(files, group, b) ==> b == a
  {
    var among := if ChainFulls(files, group) != {} then ChainFulls(files, group) else Fulls(files);
    a := NewestExists(among);
    forall b | IsAnchor(files, group, b) ensures b == a { NewestIsOne(among, a, b); }
  }

  /** Each chain with a full keeps exactly its newest full and whatever is at or after it. */
  lemma ChainIsKept(files: set<Stamped>, group: string, anchor: Stamped, f: Stamped)
    requires IsNewest(ChainFulls(files, group), anchor)
    requires f in files && ChainGroup(f.text) == group
    ensures f !in Obsolete(files) <==> if IsFull(f) then f == anchor else f.stamp >= anchor.stamp
  {
    assert anchor in Fulls(files);
    var a := AnchorExists(files, group);
    assert IsAnchor(files, group, anchor);
    BeforeIsStrictOrder(f, anchor);
  }

  /** An anchor is never obsolete, so deleting obsolete files moves no anchor - the folder's own included. */
  lemma AnchorStays(files: set<Stamped>, gone: set<Stamped>, group: string, a: Stamped)
    requires gone <= Obsolete(files) && Fulls(files) != {}
    ensures Fulls(files - gone) != {}
    ensures IsAnchor(files, group, a) <==> IsAnchor(files - gone, group, a)
  {
    var anchor := AnchorExists(files, group);
    var own := ChainGroup(anchor.text);
    AnchorOfItsOwnChain(files, group, anchor);
    ChainIsKept(files, own, anchor, anchor);
    assert anchor in files - gone && anchor in Fulls(files - gone);
    if ChainFulls(files, group) != {} {
      assert anchor in ChainFulls(files - gone, group);
    } else {
      assert ChainFulls(files - gone, group) == {};
    }
    assert IsAnchor(files - gone, group, anchor);
    var still := AnchorExists(files - gone, group);
  }

  lemma AnchorOfItsOwnChain(files: set<Stamped>, group: string, anchor: Stamped)
    requires IsAnchor(files, group, anchor)
    ensures IsNewest(ChainFulls(files, ChainGroup(anchor.text)), anchor)
  {
    assert ChainFulls(files, ChainGroup(anchor.text)) <= Fulls(files);
  }

  /** Deleting any of the obsolete files - aged ones, this entry's, those that could be deleted - leaves the rest
      exactly as obsolete as they were. */
  lemma DeletingMovesNothing(files: set<Stamped>, gone: set<Stamped>)
    requires gone <= Obsolete(files)
    ensures Obsolete(files - gone) == Obsolete(files) - gone
  {
    var left := files - gone;
    if Fulls(files) == {} {
      assert Fulls(left) == {};
    } else {
      forall f | f in left ensures IsObsolete(left, f) <==> IsObsolete(files, f) {
        var group := ChainGroup(f.text);
        var a := AnchorExists(files, group);
        forall b ensures IsAnchor(files, group, b) <==> IsAnchor(left, group, b) { AnchorStays(files, gone, group, b); }
        AnchorStays(files, gone, group, a);
      }
    }
  }

  // ---------------------------------------------------------------- the cleanup and its repetition

  /** 0 removes the age gate; otherwise a file must be at least `retention` old. */
  predicate Aged(retention: nat, now: nat, stamp: nat) {
    retention == 0 || stamp + retention <= now
  }

  ghost function Doomed(files: set<Stamped>, retention: nat, now: nat, mine: string -> bool): set<Stamped> {
    set f | f in Obsolete(files) && Aged(retention, now, f.stamp) && mine(f.text)
  }

  /** Cleaning at `t1` and again at `t2` leaves what cleaning at `t2` alone leaves; a second run finds nothing. */
  lemma CleaningConverges(files: set<Stamped>, retention: nat, t1: nat, t2: nat, mine: string -> bool)
    requires t1 <= t2
    ensures var once := files - Doomed(files, retention, t1, mine);
      && once - Doomed(once, retention, t2, mine) == files - Doomed(files, retention, t2, mine)
      && Doomed(once, retention, t1, mine) == {}
  {
    var gone := Doomed(files, retention, t1, mine);
    DeletingMovesNothing(files, gone);
    forall f | f in gone ensures f in Doomed(files, retention, t2, mine) {}
  }

  // ---------------------------------------------------------------- the rule as it runs

  ghost function AsSet(files: seq<Stamped>): set<Stamped> {
    set f | f in files
  }

  ghost function Texts(files: set<Stamped>): set<string> {
    set f | f in files :: f.text
  }

  lemma NewestReplaced(fulls: set<Stamped>, a: Stamped, f: Stamped)
    requires IsNewest(fulls, a) && Before(a, f)
    ensures IsNewest(fulls + {f}, f)
  {
    forall b | b in fulls ensures Before(b, f) {
      if b != a { BeforeChains(b, a, f); }
    }
  }

  /** The newest full of all, and of each chain, among the files seen. */
  datatype Anchors = Anchors(own: map<string, Stamped>, newest: Option<Stamped>)

  function Newer(a: Option<Stamped>, f: Stamped): Stamped {
    if a.None? || Before(a.value, f) then f else a.value
  }

  function Seen(a: Anchors, f: Stamped): Anchors {
    if !IsFull(f) then a
    else
      var group := ChainGroup(f.text);
      Anchors(a.own[group := Newer(OwnOf(a, group), f)], Some(Newer(a.newest, f)))
  }

  /** `known` is the newest of `fulls`, or nothing when there is none. */
  ghost predicate Knows(known: Option<Stamped>, fulls: set<Stamped>) {
    if known.None? then fulls == {} else IsNewest(fulls, known.value)
  }

  function OwnOf(a: Anchors, group: string): Option<Stamped> {
    if group in a.own then Some(a.own[group]) else None
  }

  ghost predicate Holds(a: Anchors, files: set<Stamped>) {
    Knows(a.newest, Fulls(files)) && forall g :: Knows(OwnOf(a, g), ChainFulls(files, g))
  }

  lemma NewerIsNewest(fulls: set<Stamped>, a: Option<Stamped>, f: Stamped)
    requires Knows(a, fulls)
    ensures Knows(Some(Newer(a, f)), fulls + {f})
  {
    if a.Some? {
      BeforeIsStrictOrder(a.value, f);
      if Before(a.value, f) { NewestReplaced(fulls, a.value, f); }
    }
  }

  lemma FullsNext(files: set<Stamped>, f: Stamped, g: string)
    ensures Fulls(files + {f}) == Fulls(files) + if IsFull(f) then {f} else {}
    ensures ChainFulls(files + {f}, g) ==
      ChainFulls(files, g) + if IsFull(f) && ChainGroup(f.text) == g then {f} else {}
  {
  }

  lemma SeenKnows(a: Anchors, files: set<Stamped>, f: Stamped, g: string)
    requires Knows(OwnOf(a, g), ChainFulls(files, g))
    ensures Knows(OwnOf(Seen(a, f), g), ChainFulls(files + {f}, g))
  {
    FullsNext(files, f, g);
    NewerIsNewest(ChainFulls(files, g), OwnOf(a, g), f);
  }

  lemma SeenHolds(a: Anchors, files: set<Stamped>, f: Stamped)
    requires Holds(a, files)
    ensures Holds(Seen(a, f), files + {f})
  {
    FullsNext(files, f, "");
    NewerIsNewest(Fulls(files), a.newest, f);
    forall g ensures Knows(OwnOf(Seen(a, f), g), ChainFulls(files + {f}, g)) {
      assert Knows(OwnOf(a, g), ChainFulls(files, g));
      SeenKnows(a, files, f, g);
    }
  }

  /** The anchors after a whole listing. */
  function AnchorsOf(files: seq<Stamped>): Anchors {
    if files == [] then Anchors(map[], None) else Seen(AnchorsOf(files[..|files| - 1]), files[|files| - 1])
  }

  lemma AnchorsNext(files: seq<Stamped>, i: nat)
    requires i < |files|
    ensures AnchorsOf(files[..i + 1]) == Seen(AnchorsOf(files[..i]), files[i])
  {
    assert files[..i + 1][..i] == files[..i];
  }

  lemma {:induction false} AnchorsHold(files: seq<Stamped>)
    ensures Holds(AnchorsOf(files), AsSet(files))
  {
    if files != [] {
      var before, last := files[..|files| - 1], files[|files| - 1];
      AnchorsHold(before);
      SeenHolds(AnchorsOf(before), AsSet(before), last);
      assert files == before + [last];
      assert AsSet(files) == AsSet(before) + {last};
    }
  }

  /** Obsolete, read off the anchors. */
  predicate Superseded(a: Anchors, f: Stamped) {
    if a.newest.None? then true
    else
      var group := ChainGroup(f.text);
      var anchor := if group in a.own then a.own[group] else a.newest.value;
      if IsFull(f) then Before(f, anchor) else f.stamp < anchor.stamp
  }

  lemma SupersededIsObsolete(a: Anchors, files: set<Stamped>, f: Stamped)
    requires Holds(a, files)
    ensures Superseded(a, f) <==> IsObsolete(files, f)
  {
    if a.newest.Some? {
      var group := ChainGroup(f.text);
      var only := AnchorExists(files, group);
      assert IsAnchor(files, group, if group in a.own then a.own[group] else a.newest.value);
    }
  }

  /** The files' texts that are obsolete, whatever order the folder was listed in. */
  method ObsoleteOnly(candidates: seq<Stamped>) returns (obsolete: set<string>)
    ensures obsolete == Texts(Obsolete(AsSet(candidates)))
  {
    var own: map<string, Stamped>, newest: Option<Stamped> := map[], None;
    for i := 0 to |candidates|
      invariant Anchors(own, newest) == AnchorsOf(candidates[..i])
    {
      var f := candidates[i];
      AnchorsNext(candidates, i);
      if IsFull(f) {
        var group := ChainGroup(f.text);
        if group !in own || Before(own[group], f) {
          own := own[group := f];
        }
        if newest.None? || Before(newest.value, f) {
          newest := Some(f);
        }
      }
    }
    assert candidates[..|candidates|] == candidates;
    AnchorsHold(candidates);
    obsolete := SupersededTexts(candidates, Anchors(own, newest));
  }

  method SupersededTexts(candidates: seq<Stamped>, a: Anchors) returns (obsolete: set<string>)
    requires Holds(a, AsSet(candidates))
    ensures obsolete == Texts(Obsolete(AsSet(candidates)))
  {
    obsolete := {};
    ghost var found: set<Stamped> := {};
    for i := 0 to |candidates|
      invariant found == set f | f in candidates[..i] && Superseded(a, f)
      invariant obsolete == Texts(found)
    {
      var f := candidates[i];
      TakeNext(candidates, i);
      if Superseded(a, f) {
        obsolete, found := obsolete + {f.text}, found + {f};
      }
    }
    assert candidates[..|candidates|] == candidates;
    forall f | f in candidates ensures Superseded(a, f) <==> IsObsolete(AsSet(candidates), f) {
      SupersededIsObsolete(a, AsSet(candidates), f);
    }
    assert found == Obsolete(AsSet(candidates));
  }

  datatype Status = WithinRetention | StillNeeded | WouldDelete | Deleted | DeleteFailed

  ghost function FilesOf(files: map<string, nat>): set<Stamped> {
    set t | t in files :: Stamped(t, files[t])
  }

  /** What the cleanup makes of one file of this entry. */
  function StatusOf(obsolete: set<string>, retention: nat, now: nat, dryRun: bool, stuck: set<string>,
                    f: Stamped): Status {
    if !Aged(retention, now, f.stamp) then WithinRetention
    else if f.text !in obsolete then StillNeeded
    else if dryRun then WouldDelete
    else if f.text in stuck then DeleteFailed
    else Deleted
  }

  function DeletedIn(results: map<string, Status>): set<string> {
    set t | t in results && results[t].Deleted?
  }

  lemma DeletedTogether(within: map<string, Status>, rest: map<string, Status>)
    requires within.Keys !! rest.Keys && forall t :: t in within ==> within[t].WithinRetention?
    ensures DeletedIn(within + rest) == DeletedIn(rest)
  {
  }

  lemma ScannedIsAll(files: map<string, nat>, listing: seq<string>, scanned: seq<Stamped>)
    requires (forall t :: t in listing <==> t in files) && |scanned| == |listing|
    requires forall j :: 0 <= j < |listing| ==>
      listing[j] in files && scanned[j] == Stamped(listing[j], files[listing[j]])
    ensures AsSet(scanned) == FilesOf(files)
  {
    forall f | f in FilesOf(files) ensures f in scanned {
      var j :| 0 <= j < |listing| && listing[j] == f.text;
      assert scanned[j] == f;
    }
  }

  lemma ObsoleteTexts(files: map<string, nat>, t: string)
    requires t in files
    ensures t in Texts(Obsolete(FilesOf(files))) <==> Stamped(t, files[t]) in Obsolete(FilesOf(files))
  {
  }

  /** The staging folder of one entry's target. */
  class StagingFolder {
    var files: map<string, nat>

    constructor (files: map<string, nat>)
      ensures this.files == files
    {
      this.files := files;
    }

    /** One cleanup: aged by the retention, obsolete by the chain over the whole folder, and this entry's own.
        `stuck` are the files the host will not delete. Every file of the entry is reported. */
    method CleanUp(listing: seq<string>, retention: nat, now: nat, dryRun: bool, mine: string -> bool,
                   stuck: set<string>)
      returns (results: map<string, Status>)
      requires forall t :: t in listing <==> t in files
      modifies this
      ensures results.Keys == set t | t in old(files) && mine(t)
      ensures forall t :: t in results ==>
        results[t] == StatusOf(Texts(Obsolete(FilesOf(old(files)))), retention, now, dryRun, stuck,
            Stamped(t, old(files)[t]))
      ensures files == old(files) - DeletedIn(results)
      ensures forall t :: t in results ==>
        && (results[t].WithinRetention? <==> retention > 0 && now < old(files)[t] + retention)
        && (results[t].StillNeeded? <==>
              && (retention == 0 || old(files)[t] + retention <= now)
              && Stamped(t, old(files)[t]) !in Obsolete(FilesOf(old(files))))
        && (dryRun ==> !results[t].Deleted? && !results[t].DeleteFailed?)
        && (!dryRun ==> !results[t].WouldDelete? && (results[t].DeleteFailed? ==> t in stuck))
        && (results[t].Deleted? ==> t !in stuck)
      ensures forall t :: t in old(files) ==>
        if t in results && results[t].Deleted? then t !in files else t in files && files[t] == old(files)[t]
      ensures dryRun ==> files == old(files)
    {
      ghost var before := files;
      var scanned, candidates, within := Scan(listing, retention, now, mine);
      var obsolete := ObsoleteOnly(scanned);
      ScannedIsAll(before, listing, scanned);
      var rest := DeleteObsolete(candidates, obsolete, retention, now, dryRun, stuck);
      forall t | t in rest ensures t in before && mine(t) && Aged(retention, now, before[t]) {
        var f :| f in candidates && f.text == t;
      }
      forall t | t in before && mine(t) && Aged(retention, now, before[t]) ensures t in rest {
        assert Stamped(t, before[t]) in candidates;
      }
      DeletedTogether(within, rest);
      results := within + rest;
      forall t | t in results ensures t in obsolete <==> Stamped(t, before[t]) in Obsolete(FilesOf(before)) {
        ObsoleteTexts(before, t);
      }
    }

    /** The folder read once: every file, this entry's aged ones, and its younger ones already reported. */
    method Scan(listing: seq<string>, retention: nat, now: nat, mine: string -> bool)
      returns (scanned: seq<Stamped>, candidates: seq<Stamped>, within: map<string, Status>)
      requires forall t :: t in listing <==> t in files
      ensures |scanned| == |listing|
      ensures forall j :: 0 <= j < |listing| ==> scanned[j] == Stamped(listing[j], files[listing[j]])
      ensures within.Keys == set t | t in files && mine(t) && !Aged(retention, now, files[t])
      ensures forall t :: t in within ==> within[t].WithinRetention?
      ensures forall f :: f in candidates <==>
        f.text in files && mine(f.text) && f.stamp == files[f.text] && Aged(retention, now, f.stamp)
    {
      scanned, candidates, within := [], [], map[];
      for i := 0 to |listing|
        invariant |scanned| == i && forall j :: 0 <= j < i ==> scanned[j] == Stamped(listing[j], files[listing[j]])
        invariant within.Keys == set t | t in listing[..i] && mine(t) && !Aged(retention, now, files[t])
        invariant forall t :: t in within ==> within[t].WithinRetention?
        invariant forall f :: f in candidates <==>
          f.text in listing[..i] && mine(f.text) && f.stamp == files[f.text] && Aged(retention, now, f.stamp)
      {
        assert listing[i] in listing;
        var f := Stamped(listing[i], files[listing[i]]);
        TakeNext(listing, i);
        scanned := scanned + [f];
        if mine(f.text) {
          if Aged(retention, now, f.stamp) {
            candidates := candidates + [f];
          } else {
            within := within[f.text := WithinRetention];
          }
        }
      }
      assert listing[..|listing|] == listing;
    }

    /** An aged file: kept while a chain needs it, deleted otherwise. */
    method DeleteOne(f: Stamped, obsolete: set<string>, ghost retention: nat, ghost now: nat, dryRun: bool,
                     stuck: set<string>)
      returns (status: Status)
      requires Aged(retention, now, f.stamp)
      modifies this
      ensures status == StatusOf(obsolete, retention, now, dryRun, stuck, f)
      ensures files == old(files) - if status.Deleted? then {f.text} else {}
    {
      status := if f.text !in obsolete then StillNeeded
                else if dryRun then WouldDelete
                else if f.text in stuck then DeleteFailed
                else Deleted;
      if status.Deleted? {
        files := files - {f.text};
      }
    }

    /** The aged files, one by one: kept while a chain needs them, deleted otherwise. */
    method DeleteObsolete(candidates: seq<Stamped>, obsolete: set<string>, retention: nat, now: nat, dryRun: bool,
                          stuck: set<string>) returns (results: map<string, Status>)
      requires forall f :: f in candidates ==>
        f.text in files && f.stamp == files[f.text] && Aged(retention, now, f.stamp)
      modifies this
      ensures forall t :: t in results <==> exists f :: f in candidates && f.text == t
      ensures forall t :: t in results ==> t in old(files)
      ensures forall t :: t in results ==>
        results[t] == StatusOf(obsolete, retention, now, dryRun, stuck, Stamped(t, old(files)[t]))
      ensures files == old(files) - DeletedIn(results)
    {
      ghost var before := files;
      ghost var gone: set<string> := {};
      results := map[];
      for i := 0 to |candidates|
        invariant forall t :: t in results <==> exists f :: f in candidates[..i] && f.text == t
        invariant forall t :: t in results ==> t in before
        invariant forall t :: t in results ==>
          results[t] == StatusOf(obsolete, retention, now, dryRun, stuck, Stamped(t, before[t]))
        invariant gone == DeletedIn(results)
        invariant files == before - gone
      {
        var f := candidates[i];
        assert f in candidates && f == Stamped(f.text, before[f.text]);
        TakeNext(candidates, i);
        var status := DeleteOne(f, obsolete, retention, now, dryRun, stuck);
        results := results[f.text := status];
        gone := gone + if status.Deleted? then {f.text} else {};
      }
      assert candidates[..|candidates|] == candidates;
    }
  }

  /** What a cleanup that meets no obstacle leaves is the folder without the doomed files. */
  lemma CleanUpRemovesTheDoomed(files: map<string, nat>, retention: nat, now: nat, mine: string -> bool,
                                left: map<string, nat>)
    requires left == files - set t | t in files && mine(t)
      && StatusOf(Texts(Obsolete(FilesOf(files))), retention, now, false, {}, Stamped(t, files[t])).Deleted?
    ensures FilesOf(left) == FilesOf(files) - Doomed(FilesOf(files), retention, now, mine)
  {
    forall t | t in files ensures t in left <==> Stamped(t, files[t]) !in Doomed(FilesOf(files), retention, now, mine) {
      ObsoleteTexts(files, t);
    }
  }
}

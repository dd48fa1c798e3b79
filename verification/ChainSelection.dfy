/** Which full, differential and logs a restore to a moment uses - as the restore of a folder picks them and as
    the restore by id does - and what the picked chain comes to when it is restored. */
module ChainSelection {
  import opened Basics
  import opened BackupOrder
  import opened LogRestore

  // ---------------------------------------------------------------- the full and the differential

  /** Fulls of one moment are compared by their lower-case paths. */
  function Folded(f: Stamped): Stamped {
    Stamped(Lower(f.text), f.stamp)
  }

  /** What files of one moment are compared by: their paths, on a Windows target in lower case. */
  function Key(f: Stamped, windows: bool): Stamped {
    if windows then Folded(f) else f
  }

  /** By moment, and within one moment by path, with or without its case. */
  ghost predicate Sooner(a: Stamped, b: Stamped, fold: bool) {
    || a.stamp < b.stamp
    || (a.stamp == b.stamp && if fold then TextBefore(Lower(a.text), Lower(b.text)) else TextBefore(a.text, b.text))
  }

  lemma SoonerIs(a: Stamped, b: Stamped, fold: bool)
    ensures Sooner(a, b, fold) <==> Before(Key(a, fold), Key(b, fold))
  {
  }

  lemma SoonerChains(a: Stamped, b: Stamped, c: Stamped, fold: bool)
    ensures Sooner(a, b, fold) && !Sooner(c, b, fold) ==> Sooner(a, c, fold)
    ensures !Sooner(b, a, fold) && Sooner(b, c, fold) ==> Sooner(a, c, fold)
    ensures !Sooner(b, a, fold) && !Sooner(c, b, fold) ==> !Sooner(c, a, fold)
    ensures !Sooner(a, a, fold)
  {
    var x, y, z := Key(a, fold), Key(b, fold), Key(c, fold);
    SoonerIs(a, b, fold);
    SoonerIs(c, b, fold);
    SoonerIs(a, c, fold);
    SoonerIs(b, a, fold);
    SoonerIs(b, c, fold);
    SoonerIs(c, a, fold);
    SoonerIs(a, a, fold);
    KeysChain(x, y, z);
  }

  lemma KeysChain(x: Stamped, y: Stamped, z: Stamped)
    ensures Before(x, y) && !Before(z, y) ==> Before(x, z)
    ensures !Before(y, x) && Before(y, z) ==> Before(x, z)
    ensures !Before(y, x) && !Before(z, y) ==> !Before(z, x)
    ensures !Before(x, x)
  {
    BeforeIsStrictOrder(x, y);
    BeforeIsStrictOrder(y, z);
    BeforeIsStrictOrder(x, z);
    if Before(x, y) && Before(y, z) { BeforeChains(x, y, z); }
    if Before(z, x) && Before(x, y) { BeforeChains(z, x, y); }
  }

  lemma AndNotBack(a: Stamped, b: Stamped, fold: bool)
    requires Sooner(a, b, fold)
    ensures !Sooner(b, a, fold)
  {
    SoonerIs(a, b, fold);
    SoonerIs(b, a, fold);
    BeforeIsStrictOrder(Key(a, fold), Key(b, fold));
  }

  /** The newest full at or before the moment. */
  method FindFull(listing: seq<Stamped>, moment: nat) returns (full: Option<Stamped>)
    ensures full.None? <==> forall f :: f in listing ==> f.stamp > moment
    ensures full.Some? ==> full.value in listing && full.value.stamp <= moment
    ensures full.Some? ==> forall f :: f in listing && f.stamp <= moment ==> !Sooner(full.value, f, true)
  {
    full := None;
    for i := 0 to |listing|
      invariant full.None? <==> forall f :: f in listing[..i] ==> f.stamp > moment
      invariant full.Some? ==> full.value in listing && full.value.stamp <= moment
      invariant full.Some? ==> forall f :: f in listing[..i] && f.stamp <= moment ==> !Sooner(full.value, f, true)
    {
      var f := listing[i];
      TakeNext(listing, i);
      SoonerChains(f, f, f, true);
      if full.Some? { SoonerIs(full.value, f, true); }
      if f.stamp <= moment && (full.None? || Before(Folded(full.value), Folded(f))) {
        if full.Some? {
          forall g | g in listing[..i] && g.stamp <= moment ensures !Sooner(f, g, true) {
            SoonerChains(g, full.value, f, true);
            AndNotBack(g, f, true);
          }
        }
        full := Some(f);
      }
    }
    assert listing[..|listing|] == listing;
  }

  /** The newest differential of the full, at or before the moment; of equals the last listed. */
  method FindDiff(listing: seq<Stamped>, full: Stamped, moment: nat, windows: bool) returns (diff: Option<Stamped>)
    ensures diff.None? <==> forall f :: f in listing ==> !(full.stamp <= f.stamp <= moment)
    ensures diff.Some? ==> diff.value in listing && full.stamp <= diff.value.stamp <= moment
    ensures diff.Some? ==>
      forall f :: f in listing && full.stamp <= f.stamp <= moment ==> !Sooner(diff.value, f, windows)
  {
    diff := None;
    for i := 0 to |listing|
      invariant diff.None? <==> forall f :: f in listing[..i] ==> !(full.stamp <= f.stamp <= moment)
      invariant diff.Some? ==> diff.value in listing && full.stamp <= diff.value.stamp <= moment
      invariant diff.Some? ==>
        forall f :: f in listing[..i] && full.stamp <= f.stamp <= moment ==> !Sooner(diff.value, f, windows)
    {
      var f := listing[i];
      TakeNext(listing, i);
      SoonerChains(f, f, f, windows);
      if diff.Some? { SoonerIs(f, diff.value, windows); }
      if full.stamp <= f.stamp <= moment && (diff.None? || !Before(Key(f, windows), Key(diff.value, windows))) {
        if diff.Some? {
          forall g | g in listing[..i] && full.stamp <= g.stamp <= moment ensures !Sooner(f, g, windows) {
            SoonerChains(g, diff.value, f, windows);
          }
        }
        diff := Some(f);
      } else if diff.Some? && full.stamp <= f.stamp <= moment {
        AndNotBack(f, diff.value, windows);
      }
    }
    assert listing[..|listing|] == listing;
  }

  // ---------------------------------------------------------------- the logs

  /** Into a sorted list, before what compares the same: sorting keeps the order of the listing there. */
  function Insert(f: Stamped, s: seq<Stamped>, windows: bool): seq<Stamped> {
    if s == [] || !Before(Key(s[0], windows), Key(f, windows)) then [f] + s else [s[0]] + Insert(f, s[1..], windows)
  }

  function Sort(s: seq<Stamped>, windows: bool): seq<Stamped> {
    if s == [] then [] else Insert(s[0], Sort(s[1..], windows), windows)
  }

  ghost predicate InOrder(s: seq<Stamped>) {
    forall i, j :: 0 <= i < j < |s| ==> s[i].stamp <= s[j].stamp
  }

  lemma InOrderFrom(f: Stamped, s: seq<Stamped>)
    requires InOrder(s) && forall x :: x in s ==> f.stamp <= x.stamp
    ensures InOrder([f] + s)
  {
    var r := [f] + s;
    forall i, j | 0 <= i < j < |r| ensures r[i].stamp <= r[j].stamp {
      assert r[j] == s[j - 1] && r[j] in s;
      if i > 0 { assert r[i] == s[i - 1]; }
    }
  }

  lemma {:induction false} InsertKeepsOrder(f: Stamped, s: seq<Stamped>, windows: bool)
    requires InOrder(s)
    ensures InOrder(Insert(f, s, windows))
  {
    if s == [] || !Before(Key(s[0], windows), Key(f, windows)) {
      forall x | x in s ensures f.stamp <= x.stamp {
        var j :| 0 <= j < |s| && s[j] == x;
        assert f.stamp <= s[0].stamp && (j == 0 || s[0].stamp <= s[j].stamp);
      }
      InOrderFrom(f, s);
    } else {
      var rest := Insert(f, s[1..], windows);
      InsertKeepsOrder(f, s[1..], windows);
      InsertAdds(f, s[1..], windows);
      forall x | x in rest ensures s[0].stamp <= x.stamp {
        assert x in multiset(rest);
        if x != f {
          assert x in multiset(s[1..]);
          var j :| 0 <= j < |s[1..]| && s[1..][j] == x;
          assert s[0].stamp <= s[j + 1].stamp;
        }
      }
      InOrderFrom(s[0], rest);
    }
  }

  lemma {:induction false} InsertAdds(f: Stamped, s: seq<Stamped>, windows: bool)
    ensures multiset(Insert(f, s, windows)) == multiset(s) + multiset{f}
  {
    if s != [] && Before(Key(s[0], windows), Key(f, windows)) {
      InsertAdds(f, s[1..], windows);
      assert s == [s[0]] + s[1..];
    }
  }

  lemma {:induction false} SortOrders(s: seq<Stamped>, windows: bool)
    ensures InOrder(Sort(s, windows)) && multiset(Sort(s, windows)) == multiset(s)
  {
    if s != [] {
      SortOrders(s[1..], windows);
      InsertKeepsOrder(s[0], Sort(s[1..], windows), windows);
      InsertAdds(s[0], Sort(s[1..], windows), windows);
      assert s == [s[0]] + s[1..];
    }
  }

  /** In the order the target compares paths in. */
  ghost predicate Sorted(s: seq<Stamped>, windows: bool) {
    forall i, j :: 0 <= i < j < |s| ==> !Sooner(s[j], s[i], windows)
  }

  lemma SortedFrom(f: Stamped, s: seq<Stamped>, windows: bool)
    requires Sorted(s, windows) && (s == [] || !Sooner(s[0], f, windows))
    ensures Sorted([f] + s, windows)
  {
    var r := [f] + s;
    forall i, j | 0 <= i < j < |r| ensures !Sooner(r[j], r[i], windows) {
      if i == 0 && j > 1 { SoonerChains(f, s[0], s[j - 1], windows); }
    }
  }

  lemma {:induction false} InsertSorts(f: Stamped, s: seq<Stamped>, windows: bool)
    requires Sorted(s, windows)
    ensures Sorted(Insert(f, s, windows), windows)
    ensures Insert(f, s, windows)[0] == f || (s != [] && Insert(f, s, windows)[0] == s[0])
  {
    if s != [] { SoonerIs(s[0], f, windows); }
    if s == [] || !Before(Key(s[0], windows), Key(f, windows)) {
      SortedFrom(f, s, windows);
    } else {
      InsertSorts(f, s[1..], windows);
      AndNotBack(s[0], f, windows);
      SortedFrom(s[0], Insert(f, s[1..], windows), windows);
    }
  }

  lemma {:induction false} SortSorts(s: seq<Stamped>, windows: bool)
    ensures Sorted(Sort(s, windows), windows)
  {
    if s != [] {
      SortSorts(s[1..], windows);
      InsertSorts(s[0], Sort(s[1..], windows), windows);
    }
  }

  /** The run up to and including the first file stamped at `bound` or later; all of it when none is. */
  function RunTo(s: seq<Stamped>, bound: nat): seq<Stamped> {
    if s == [] then [] else if s[0].stamp >= bound then [s[0]] else [s[0]] + RunTo(s[1..], bound)
  }

  function AtOrAfter(listing: seq<Stamped>, baseline: nat): seq<Stamped> {
    if listing == [] then [] else
      var rest, f := AtOrAfter(listing[..|listing| - 1], baseline), listing[|listing| - 1];
      if f.stamp >= baseline then rest + [f] else rest
  }

  lemma {:induction false} AtOrAfterHas(listing: seq<Stamped>, baseline: nat, f: Stamped)
    ensures f in AtOrAfter(listing, baseline) <==> f in listing && f.stamp >= baseline
  {
    if listing != [] {
      AtOrAfterHas(listing[..|listing| - 1], baseline, f);
      assert listing == listing[..|listing| - 1] + [listing[|listing| - 1]];
    }
  }

  function LogsFrom(listing: seq<Stamped>, baseline: nat, windows: bool): seq<Stamped> {
    Sort(AtOrAfter(listing, baseline), windows)
  }

  lemma LogsFromHas(listing: seq<Stamped>, baseline: nat, windows: bool)
    ensures InOrder(LogsFrom(listing, baseline, windows))
    ensures forall f :: f in LogsFrom(listing, baseline, windows) <==> f in listing && f.stamp >= baseline
  {
    var entries := AtOrAfter(listing, baseline);
    SortOrders(entries, windows);
    forall f ensures f in Sort(entries, windows) <==> f in listing && f.stamp >= baseline {
      AtOrAfterHas(listing, baseline, f);
      assert f in multiset(Sort(entries, windows)) <==> f in multiset(entries);
    }
  }

  lemma {:induction false} AtOrAfterCounts(listing: seq<Stamped>, baseline: nat, f: Stamped)
    ensures Count(AtOrAfter(listing, baseline), f) == if f.stamp >= baseline then Count(listing, f) else 0
  {
    if listing != [] {
      var before, last := listing[..|listing| - 1], listing[|listing| - 1];
      AtOrAfterCounts(before, baseline, f);
      assert listing == before + [last];
      CountAppend(before, [last], f);
      CountAppend(AtOrAfter(before, baseline), [last], f);
    }
  }

  /** The logs of a baseline: those listed that are no older, each as often as it is listed, in the target's order. */
  lemma LogsFromExactly(listing: seq<Stamped>, baseline: nat, windows: bool, f: Stamped)
    ensures Sorted(LogsFrom(listing, baseline, windows), windows)
    ensures Count(LogsFrom(listing, baseline, windows), f) == if f.stamp >= baseline then Count(listing, f) else 0
  {
    var entries := AtOrAfter(listing, baseline);
    SortOrders(entries, windows);
    SortSorts(entries, windows);
    AtOrAfterCounts(listing, baseline, f);
  }

  /** A run of logs for a moment: only its last may reach it. */
  ghost predicate Reaches(run: seq<Stamped>, moment: nat) {
    run != [] && run[|run| - 1].stamp >= moment && forall i :: 0 <= i < |run| - 1 ==> run[i].stamp < moment
  }

  lemma {:induction false} RunToIsAPrefix(s: seq<Stamped>, bound: nat)
    ensures RunTo(s, bound) <= s && |RunTo(s, bound)| <= |s|
  {
    if s != [] {
      RunToIsAPrefix(s[1..], bound);
      assert s == [s[0]] + s[1..];
    }
  }

  ghost predicate SomeAt(s: seq<Stamped>, bound: nat) {
    exists i :: 0 <= i < |s| && s[i].stamp >= bound
  }

  lemma {:induction false} RunToReaches(s: seq<Stamped>, bound: nat)
    ensures if SomeAt(s, bound) then Reaches(RunTo(s, bound), bound) else RunTo(s, bound) == s
  {
    if s != [] && s[0].stamp < bound {
      var rest := RunTo(s[1..], bound);
      RunToReaches(s[1..], bound);
      assert s == [s[0]] + s[1..];
      if i :| 0 <= i < |s| && s[i].stamp >= bound { assert s[1..][i - 1] == s[i]; }
      if SomeAt(s[1..], bound) {
        assert SomeAt(s, bound) by {
          var i :| 0 <= i < |s[1..]| && s[1..][i].stamp >= bound;
          assert s[i + 1].stamp >= bound;
        }
        assert forall i :: 0 < i <= |rest| ==> ([s[0]] + rest)[i] == rest[i - 1];
      }
    }
  }

  datatype LogError = NoLogs | OutOfReach(latest: nat)

  /** Why a moment is not reached: no log is there, or the last one ends before it. */
  ghost function Unreached(entries: seq<Stamped>): LogError {
    if entries == [] then NoLogs else OutOfReach(entries[|entries| - 1].stamp)
  }

  method CutAt(entries: seq<Stamped>, moment: nat) returns (run: seq<Stamped>)
    requires entries != []
    ensures run == RunTo(entries, moment) && run != []
  {
    run := [];
    var i := 0;
    while i < |entries|
      invariant 0 <= i <= |entries| && run == entries[..i]
      invariant forall j :: 0 <= j < i ==> entries[j].stamp < moment
    {
      run := run + [entries[i]];
      i := i + 1;
      if run[i - 1].stamp >= moment {
        break;
      }
    }
    RunIsTheShortest(entries, moment, i);
  }

  /** The logs a restore to the moment applies: from the baseline on, the shortest run that reaches the moment. */
  method FindLogs(listing: seq<Stamped>, baseline: nat, moment: nat, windows: bool)
    returns (r: Result<seq<Stamped>, LogError>)
    ensures r == Err(NoLogs) <==> LogsFrom(listing, baseline, windows) == []
    ensures r.Ok? <==> SomeAt(LogsFrom(listing, baseline, windows), moment)
    ensures r.Ok? ==> r.value == RunTo(LogsFrom(listing, baseline, windows), moment) && Reaches(r.value, moment)
    ensures r.Err? ==> r.error == Unreached(LogsFrom(listing, baseline, windows))
  {
    var after: seq<Stamped> := [];
    for i := 0 to |listing|
      invariant after == AtOrAfter(listing[..i], baseline)
    {
      assert listing[..i + 1][..i] == listing[..i];
      if listing[i].stamp >= baseline {
        after := after + [listing[i]];
      }
    }
    assert listing[..|listing|] == listing;
    var entries := Sort(after, windows);
    if entries == [] {
      return Err(NoLogs);
    }
    var run := CutAt(entries, moment);
    RunToReaches(entries, moment);
    if run[|run| - 1].stamp < moment {
      assert run == entries;
    }
    r := if run[|run| - 1].stamp < moment then Err(OutOfReach(run[|run| - 1].stamp)) else Ok(run);
  }

  /** A log at or after the moment is all the selection needs, whatever the baseline before it. */
  lemma ReachableExactlyByALogAtTheMoment(listing: seq<Stamped>, baseline: nat, moment: nat, windows: bool)
    requires baseline <= moment
    ensures SomeAt(LogsFrom(listing, baseline, windows), moment) <==> SomeAt(listing, moment)
  {
    var entries := LogsFrom(listing, baseline, windows);
    LogsFromHas(listing, baseline, windows);
    if i :| 0 <= i < |entries| && entries[i].stamp >= moment {
      assert entries[i] in listing;
    }
    if i :| 0 <= i < |listing| && listing[i].stamp >= moment {
      assert listing[i] in entries;
    }
  }

  /** Whatever prefix reaches the moment with its last file alone is the run; no shorter prefix reaches it. */
  lemma {:induction false} RunIsTheShortest(s: seq<Stamped>, bound: nat, n: nat)
    requires 0 < n <= |s| && forall j :: 0 <= j < n - 1 ==> s[j].stamp < bound
    requires s[n - 1].stamp >= bound || n == |s|
    ensures RunTo(s, bound) == s[..n]
  {
    if n == 1 {
      assert s[..1] == [s[0]];
      if s[0].stamp < bound { assert s[1..] == []; }
    } else {
      RunIsTheShortest(s[1..], bound, n - 1);
      assert s[..n] == [s[0]] + s[1..][..n - 1];
    }
  }

  // ---------------------------------------------------------------- the two selections of logs

  /** A listed log, as the restore by id reads it; one that does not say when it finished never ends the run. */
  datatype Listed = Listed(path: string, finished: Option<nat>, header: Header)

  /** The moments a backup's header says it runs from and to, the moment other backups know it by, and the one it is
      based on; 0 is a value the header did not give. */
  datatype Header = Header(first: nat, last: nat, checkpoint: nat, base: nat)

  predicate Ends(f: Listed, moment: nat) {
    f.finished.Some? && f.finished.value > moment
  }

  function ThroughMoment(files: seq<Listed>, moment: nat): seq<Listed> {
    if files == [] then []
    else if Ends(files[0], moment) then [files[0]]
    else [files[0]] + ThroughMoment(files[1..], moment)
  }

  lemma {:induction false} ThroughIs(files: seq<Listed>, moment: nat, n: nat)
    requires 0 < n <= |files| && forall j :: 0 <= j < n - 1 ==> !Ends(files[j], moment)
    requires Ends(files[n - 1], moment) || n == |files|
    ensures ThroughMoment(files, moment) == files[..n]
  {
    if n == 1 {
      assert files[..1] == [files[0]];
      if !Ends(files[0], moment) { assert files[1..] == []; }
    } else {
      ThroughIs(files[1..], moment, n - 1);
      assert files[..n] == [files[0]] + files[1..][..n - 1];
    }
  }

  /** Where every log says when it finished, that is the run to the second after the moment. */
  lemma {:induction false} ThroughIsTheRun(files: seq<Listed>, moment: nat)
    requires forall f :: f in files ==> f.finished.Some?
    ensures StampsOf(ThroughMoment(files, moment)) == RunTo(StampsOf(files), moment + 1)
  {
    if files != [] {
      var rest := ThroughMoment(files[1..], moment);
      ThroughIsTheRun(files[1..], moment);
      assert StampsOf(files)[1..] == StampsOf(files[1..]);
      assert StampsOf([files[0]] + rest) == [StampsOf(files)[0]] + StampsOf(rest);
    }
  }

  /** Every log finished by the moment, and the first one finished after it. */
  method LogsThrough(files: seq<Listed>, moment: nat) returns (kept: seq<Listed>)
    ensures kept == ThroughMoment(files, moment) && kept <= files
    ensures forall i :: 0 <= i < |kept| - 1 ==> kept[i].finished.None? || kept[i].finished.value <= moment
    ensures kept == files ||
      (kept != [] && kept[|kept| - 1].finished.Some? && kept[|kept| - 1].finished.value > moment)
    ensures (forall f :: f in files ==> f.finished.Some?) ==> StampsOf(kept) == RunTo(StampsOf(files), moment + 1)
  {
    kept := [];
    var i := 0;
    while i < |files|
      invariant 0 <= i <= |files| && kept == files[..i]
      invariant forall j :: 0 <= j < i ==> !Ends(files[j], moment)
    {
      kept := kept + [files[i]];
      i := i + 1;
      if Ends(kept[i - 1], moment) {
        break;
      }
    }
    if files != [] {
      ThroughIs(files, moment, i);
    }
    if forall f :: f in files ==> f.finished.Some? { ThroughIsTheRun(files, moment); }
  }

  function StampsOf(files: seq<Listed>): seq<Stamped> {
    seq(|files|, i requires 0 <= i < |files| =>
      Stamped(files[i].path, if files[i].finished.Some? then files[i].finished.value else 0))
  }

  /** How many files are stamped before `bound`. */
  ghost function Earlier(s: seq<Stamped>, bound: nat): nat {
    if s == [] then 0 else (if s[0].stamp < bound then 1 else 0) + Earlier(s[1..], bound)
  }

  /** In an ordered list the run is what comes before the bound, and one more if anything does not. */
  lemma {:induction false} RunLength(s: seq<Stamped>, bound: nat)
    requires InOrder(s)
    ensures |RunTo(s, bound)| == Earlier(s, bound) + if Earlier(s, bound) < |s| then 1 else 0
    ensures Earlier(s, bound) <= |s| && (Earlier(s, bound) < |s| <==> s != [] && s[|s| - 1].stamp >= bound)
  {
    if s != [] {
      assert forall i, j :: 0 <= i < j < |s[1..]| ==> s[1..][i] == s[i + 1] && s[1..][j] == s[j + 1];
      RunLength(s[1..], bound);
      if s[0].stamp >= bound { NoneEarlier(s[1..], bound); }
    }
  }

  lemma {:induction false} NoneEarlier(s: seq<Stamped>, bound: nat)
    requires forall i :: 0 <= i < |s| ==> s[i].stamp >= bound
    ensures Earlier(s, bound) == 0
  {
    if s != [] { NoneEarlier(s[1..], bound); }
  }

  lemma {:induction false} EarlierByOne(s: seq<Stamped>, bound: nat)
    ensures Earlier(s, bound) <= Earlier(s, bound + 1)
    ensures Earlier(s, bound + 1) > Earlier(s, bound) <==> exists f :: f in s && f.stamp == bound
  {
    if s != [] {
      EarlierByOne(s[1..], bound);
      assert s == [s[0]] + s[1..];
      assert forall f :: f in s <==> f == s[0] || f in s[1..];
    }
  }

  lemma {:induction false} StrictHasOne(s: seq<Stamped>, bound: nat)
    requires forall i, j :: 0 <= i < j < |s| ==> s[i].stamp < s[j].stamp
    ensures Earlier(s, bound + 1) <= Earlier(s, bound) + 1
  {
    if s != [] {
      assert forall i, j :: 0 <= i < j < |s[1..]| ==> s[1..][i] == s[i + 1] && s[1..][j] == s[j + 1];
      StrictHasOne(s[1..], bound);
      if s[0].stamp == bound {
        assert forall i :: 0 <= i < |s[1..]| ==> s[1..][i] == s[i + 1];
        NoneEarlier(s[1..], bound + 1);
      }
    }
  }

  /** Over one ordered list the two selections agree unless a log is stamped exactly at the moment; the second
      never picks fewer, and of a strictly increasing list at most one more. The first also needs a log to reach
      the moment, which the second does not ask. */
  lemma SelectionsAgree(s: seq<Stamped>, moment: nat)
    requires InOrder(s)
    ensures RunTo(s, moment) <= RunTo(s, moment + 1)
    ensures (forall f :: f in s ==> f.stamp != moment) ==> RunTo(s, moment) == RunTo(s, moment + 1)
    ensures (forall i, j :: 0 <= i < j < |s| ==> s[i].stamp < s[j].stamp) ==>
      |RunTo(s, moment + 1)| <= |RunTo(s, moment)| + 1
    ensures RunTo(s, moment) != RunTo(s, moment + 1) <==>
      |s| > Earlier(s, moment) + 1 && Earlier(s, moment + 1) > Earlier(s, moment)
  {
    RunToIsAPrefix(s, moment);
    RunToIsAPrefix(s, moment + 1);
    RunLength(s, moment);
    RunLength(s, moment + 1);
    EarlierByOne(s, moment);
    if forall i, j :: 0 <= i < j < |s| ==> s[i].stamp < s[j].stamp { StrictHasOne(s, moment); }
  }

  // ---------------------------------------------------------------- the chain, and where it leads

  datatype Chain = Chain(full: Stamped, diff: Option<Stamped>, logs: seq<Stamped>)

  datatype ChainError = NoFull | LogsFail(error: LogError)

  function Baseline(c: Chain): nat {
    if c.diff.Some? then c.diff.value.stamp else c.full.stamp
  }

  /** A chain for the moment: full, differential and logs in order, and nothing but the last log past it. */
  ghost predicate WellChosen(c: Chain, moment: nat) {
    && c.full.stamp <= Baseline(c) <= moment && InOrder(c.logs) && Reaches(c.logs, moment)
    && forall i :: 0 <= i < |c.logs| ==> Baseline(c) <= c.logs[i].stamp
  }

  ghost predicate SomeUpTo(files: seq<Stamped>, moment: nat) {
    exists i :: 0 <= i < |files| && files[i].stamp <= moment
  }

  /** The chain of one database for a moment. There is one exactly when a full lies at or before the moment and a
      log at or after it; a differential is used exactly when one lies between the full and the moment. */
  method SelectChain(fulls: seq<Stamped>, diffs: seq<Stamped>, logs: seq<Stamped>, moment: nat, windows: bool)
    returns (r: Result<Chain, ChainError>)
    ensures r == Err(NoFull) <==> !SomeUpTo(fulls, moment)
    ensures r.Ok? <==> SomeUpTo(fulls, moment) && SomeAt(logs, moment)
    ensures r.Ok? ==> WellChosen(r.value, moment)
    ensures r.Ok? ==> r.value.full in fulls
    ensures r.Ok? ==> forall f :: f in fulls && f.stamp <= moment ==> !Sooner(r.value.full, f, true)
    ensures r.Ok? ==> (r.value.diff.Some? <==> exists f :: f in diffs && r.value.full.stamp <= f.stamp <= moment)
    ensures r.Ok? && r.value.diff.Some? ==> r.value.diff.value in diffs
    ensures r.Ok? && r.value.diff.Some? ==> forall f :: f in diffs && r.value.full.stamp <= f.stamp <= moment ==>
      !Sooner(r.value.diff.value, f, windows)
    ensures r.Ok? ==>
      var baseline := if r.value.diff.Some? then r.value.diff.value.stamp else r.value.full.stamp;
      r.value.logs == RunTo(LogsFrom(logs, baseline, windows), moment)
  {
    var full := FindFull(fulls, moment);
    if full.None? {
      assert forall i :: 0 <= i < |fulls| ==> fulls[i] in fulls;
      return Err(NoFull);
    }
    var diff := FindDiff(diffs, full.value, moment, windows);
    var baseline := if diff.Some? then diff.value.stamp else full.value.stamp;
    var found := FindLogs(logs, baseline, moment, windows);
    ReachableExactlyByALogAtTheMoment(logs, baseline, moment, windows);
    if found.Err? {
      return Err(LogsFail(found.error));
    }
    var chain := Chain(full.value, diff, found.value);
    RunIsOfTheListing(logs, baseline, moment, windows);
    r := Ok(chain);
  }

  lemma RunIsOfTheListing(logs: seq<Stamped>, baseline: nat, moment: nat, windows: bool)
    ensures var run := RunTo(LogsFrom(logs, baseline, windows), moment);
      InOrder(run) && forall i :: 0 <= i < |run| ==> baseline <= run[i].stamp
  {
    var entries := LogsFrom(logs, baseline, windows);
    LogsFromHas(logs, baseline, windows);
    RunToIsAPrefix(entries, moment);
    forall i | 0 <= i < |RunTo(entries, moment)| ensures baseline <= RunTo(entries, moment)[i].stamp {
      assert RunTo(entries, moment)[i] == entries[i] && entries[i] in entries;
    }
  }

  /** The selected logs as the server meets them; a log ends at the moment it is stamped with. */
  ghost predicate Stands(files: seq<Stamped>, logs: seq<Log>) {
    |logs| == |files| && forall i :: 0 <= i < |files| ==>
      logs[i].file == files[i].text && logs[i].last == files[i].stamp
  }

  /** No log starts after the end of the one before it; the first starts by the baseline. */
  ghost predicate NoGap(baseline: nat, logs: seq<Log>) {
    forall i :: 0 <= i < |logs| ==> logs[i].first <= if i == 0 then baseline else logs[i - 1].last
  }

  lemma NoGapIsContiguous(baseline: nat, logs: seq<Log>, i: nat)
    requires NoGap(baseline, logs) && i < |logs|
    ensures logs[i].first <= Reach(baseline, logs, i)
  {
    if i == 0 {
      assert Reach(baseline, logs, i) == baseline;
    } else {
      assert logs[i].first <= logs[i - 1].last;
      var before := Reach(baseline, logs, i - 1);
      assert Reach(baseline, logs, i) == if logs[i - 1].last > before then logs[i - 1].last else before;
    }
  }

  /** From the folder to the moment: a chain so selected and restored from its baseline never takes the database
      past the moment, over any connection; and if its logs leave no gap and no stale row vouches for one, a
      restore that comes back leaves the database online at the very moment. */
  lemma SelectedChainRestoresTheMoment(c: Chain, moment: nat, s: Server, logs: seq<Log>, w: Wire)
    requires WellChosen(c, moment) && Stands(c.logs, logs) && s.db == Restoring(Baseline(c))
    ensures var run := RunFrom(s, logs, 0, Some(moment), w);
      && Within(Recovered(run.server.db), moment)
      && (DistinctFiles(logs) && !StaleRow(s, logs, 0) && NoGap(Baseline(c), logs) && Returned(run.steps)
          ==> Recovered(run.server.db) == Online(moment))
  {
    assert Bounded(logs, moment);
    NeverPastTheMoment(s, logs, 0, moment, w);
    if NoGap(Baseline(c), logs) && DistinctFiles(logs) && !StaleRow(s, logs, 0) {
      forall i | 0 <= i < |logs| ensures logs[i].first <= Reach(s.db.at, logs, i) {
        NoGapIsContiguous(s.db.at, logs, i);
      }
      RestoredToTheMoment(s, logs, moment, w);
    }
  }
}

/** The restore workflow, phase by phase: copy, restore, verify, clean up - each only when everything before it
    succeeded for every entry. */
module Workflow {
  import opened Basics
  import LocalCopy

  datatype Status = Success | DryRun | Skipped | Failed | CheckFailed

  predicate Succeeded(s: Status) {
    s.Success? || s.DryRun?
  }

  /** A database the run had no work for has not failed. */
  predicate Acceptable(s: Status) {
    Succeeded(s) || s.Skipped?
  }

  // ---------------------------------------------------------------- one server's databases

  /** One database's restore: it came back with a status, or it threw - after the data was there, in the check. */
  datatype Attempt = Came(name: string, status: Status) | Threw(name: string, inCheck: bool)

  function StatusOf(a: Attempt): Status {
    if a.Came? then a.status else if a.inCheck then CheckFailed else Failed
  }

  /** The statuses by database name: a nameless result is left out, and a name's later result replaces its
      earlier one. */
  function PerDatabase(attempts: seq<Attempt>): map<string, Status> {
    if attempts == [] then map[] else
      var before, last := PerDatabase(attempts[..|attempts| - 1]), attempts[|attempts| - 1];
      if last.name == "" then before else before[last.name := StatusOf(last)]
  }

  datatype ServerOutput = ServerOutput(considered: nat, per: map<string, Status>, verdict: Status)

  function Failures(per: map<string, Status>): set<string> {
    set n | n in per && !Succeeded(per[n])
  }

  function Verdict(per: map<string, Status>, dryRun: bool): Status {
    if dryRun then DryRun else if Failures(per) == {} then Success else Failed
  }

  /** What one entry's restore answers; None when it throws - with nothing to restore, or in a point-in-time
      restore at the first database that throws. */
  function OutputOf(attempts: seq<Attempt>, pointInTime: bool, dryRun: bool): Option<ServerOutput> {
    if attempts == [] || (pointInTime && exists a :: a in attempts && a.Threw?) then None
    else Some(ServerOutput(|attempts|, PerDatabase(attempts), Verdict(PerDatabase(attempts), dryRun)))
  }

  method RestoreServer(attempts: seq<Attempt>, pointInTime: bool, dryRun: bool) returns (output: Option<ServerOutput>)
    ensures output == OutputOf(attempts, pointInTime, dryRun)
  {
    var results: seq<Attempt>, per: map<string, Status> := [], map[];
    for i := 0 to |attempts|
      invariant results == attempts[..i] && per == PerDatabase(attempts[..i])
      invariant pointInTime ==> forall a :: a in attempts[..i] ==> !a.Threw?
    {
      assert attempts[i] in attempts;
      assert attempts[..i + 1][..i] == attempts[..i];
      TakeNext(attempts, i);
      if attempts[i].Threw? && pointInTime {
        return None;
      }
      results := results + [attempts[i]];
      if attempts[i].name != "" {
        per := per[attempts[i].name := StatusOf(attempts[i])];
      }
    }
    assert attempts[..|attempts|] == attempts;
    if results == [] {
      return None;
    }
    output := Some(ServerOutput(|results|, per, Verdict(per, dryRun)));
  }

  ghost predicate LastOfItsName(attempts: seq<Attempt>, i: nat)
    requires i < |attempts|
  {
    attempts[i].name != "" && forall j :: i < j < |attempts| ==> attempts[j].name != attempts[i].name
  }

  lemma {:induction false} PerDatabaseIsTheLast(attempts: seq<Attempt>, n: string)
    ensures n in PerDatabase(attempts) <==> exists i :: 0 <= i < |attempts| && attempts[i].name == n && n != ""
    ensures n in PerDatabase(attempts) ==>
      exists i :: 0 <= i < |attempts| && attempts[i].name == n && LastOfItsName(attempts, i)
        && PerDatabase(attempts)[n] == StatusOf(attempts[i])
    ensures forall i :: 0 <= i < |attempts| && attempts[i].name == n && LastOfItsName(attempts, i) ==>
      PerDatabase(attempts)[n] == StatusOf(attempts[i])
  {
    if attempts != [] {
      var k := |attempts| - 1;
      var before := attempts[..k];
      PerDatabaseIsTheLast(before, n);
      assert forall i :: 0 <= i < k ==> before[i] == attempts[i];
      if attempts[k].name == n != "" {
        assert LastOfItsName(attempts, k);
      } else {
        assert forall i :: 0 <= i < k && attempts[i].name == n != "" ==>
          (LastOfItsName(before, i) <==> LastOfItsName(attempts, i));
      }
    }
  }

  /** The entry is reported failed exactly when some named database's last result did not succeed. */
  lemma {:induction false} FailedExactly(attempts: seq<Attempt>)
    ensures Verdict(PerDatabase(attempts), false).Failed? <==>
      exists i :: 0 <= i < |attempts| && LastOfItsName(attempts, i) && !Succeeded(StatusOf(attempts[i]))
  {
    var per := PerDatabase(attempts);
    if i :| 0 <= i < |attempts| && LastOfItsName(attempts, i) && !Succeeded(StatusOf(attempts[i])) {
      PerDatabaseIsTheLast(attempts, attempts[i].name);
      assert attempts[i].name in Failures(per);
    }
    if n :| n in Failures(per) {
      PerDatabaseIsTheLast(attempts, n);
    }
  }

  /** Some name's last attempt threw, or came with one of these statuses. */
  ghost predicate SomeLast(attempts: seq<Attempt>, statuses: set<Status>) {
    exists i :: 0 <= i < |attempts| && LastOfItsName(attempts, i)
                && (attempts[i].Threw? || (attempts[i].Came? && attempts[i].status in statuses))
  }

  /** What one server answers for each name: what its last attempt came with, and of one that threw whether it was the
      check that did. */
  lemma {:induction false} AnswersByName(attempts: seq<Attempt>, pointInTime: bool, dryRun: bool)
    requires OutputOf(attempts, pointInTime, dryRun).Some?
    ensures var output := OutputOf(attempts, pointInTime, dryRun).value;
      && output.considered == |attempts|
      && (forall n :: n in output.per <==> n != "" && exists i :: 0 <= i < |attempts| && attempts[i].name == n)
      && (forall i :: 0 <= i < |attempts| && LastOfItsName(attempts, i) ==>
            match attempts[i]
            case Came(n, status) => output.per[n] == status
            case Threw(n, true) => output.per[n] == CheckFailed
            case Threw(n, false) => output.per[n] == Failed)
  {
    forall n
      ensures n in PerDatabase(attempts) <==> n != "" && exists i :: 0 <= i < |attempts| && attempts[i].name == n
    {
      PerDatabaseIsTheLast(attempts, n);
    }
    forall i | 0 <= i < |attempts| && LastOfItsName(attempts, i)
      ensures attempts[i].name in PerDatabase(attempts)
      ensures PerDatabase(attempts)[attempts[i].name] == StatusOf(attempts[i])
    {
      PerDatabaseIsTheLast(attempts, attempts[i].name);
    }
  }

  /** When a server throws, and otherwise its verdict: a dry run is one whatever came; else it fails by any name whose
      last attempt threw, in the check or before it, or came with anything but success or a dry run. */
  lemma {:induction false} AnswersInAll(attempts: seq<Attempt>, pointInTime: bool, dryRun: bool)
    ensures var output := OutputOf(attempts, pointInTime, dryRun);
      && (output.None? <==> attempts == [] || (pointInTime && exists i :: 0 <= i < |attempts| && attempts[i].Threw?))
      && (output.Some? ==>
            if dryRun then output.value.verdict == DryRun
            else if SomeLast(attempts, {Skipped, Failed, CheckFailed}) then output.value.verdict == Failed
            else output.value.verdict == Success)
  {
    FailedExactly(attempts);
    forall i | 0 <= i < |attempts|
      ensures Succeeded(StatusOf(attempts[i])) <==>
        !(attempts[i].Threw? || (attempts[i].Came? && attempts[i].status in {Skipped, Failed, CheckFailed}))
    {
    }
  }

  /** A name stops the run exactly when its last attempt threw, in the check or before it, or came failed: success, a
      dry run and a skip are accepted, and nothing else. */
  lemma {:induction false} StopsTheRunExactly(attempts: seq<Attempt>, n: string)
    ensures n in Bad(PerDatabase(attempts)) <==>
      exists i :: 0 <= i < |attempts| && attempts[i].name == n && LastOfItsName(attempts, i)
                  && (attempts[i].Threw? || (attempts[i].Came? && attempts[i].status in {Failed, CheckFailed}))
  {
    PerDatabaseIsTheLast(attempts, n);
  }

  ghost predicate DistinctNames(attempts: seq<Attempt>) {
    && (forall i :: 0 <= i < |attempts| ==> attempts[i].name != "")
    && forall i, j :: 0 <= i < j < |attempts| ==> attempts[i].name != attempts[j].name
  }

  /** With its databases named, each by its own name, an entry is never reported greener than they are. */
  lemma {:induction false} NeverGreener(attempts: seq<Attempt>)
    requires DistinctNames(attempts)
    ensures Verdict(PerDatabase(attempts), false).Failed? <==>
      exists i :: 0 <= i < |attempts| && !Succeeded(StatusOf(attempts[i]))
    ensures forall i :: 0 <= i < |attempts| ==>
      attempts[i].name in PerDatabase(attempts) && PerDatabase(attempts)[attempts[i].name] == StatusOf(attempts[i])
  {
    assert forall i :: 0 <= i < |attempts| ==> LastOfItsName(attempts, i);
    FailedExactly(attempts);
    forall i | 0 <= i < |attempts|
      ensures attempts[i].name in PerDatabase(attempts)
      ensures PerDatabase(attempts)[attempts[i].name] == StatusOf(attempts[i])
    {
      PerDatabaseIsTheLast(attempts, attempts[i].name);
    }
  }

  function NamesOf(attempts: seq<Attempt>): seq<string> {
    seq(|attempts|, i requires 0 <= i < |attempts| => attempts[i].name)
  }

  ghost predicate Greener(attempts: seq<Attempt>) {
    && Verdict(PerDatabase(attempts), false).Success?
    && exists i :: 0 <= i < |attempts| && !Succeeded(StatusOf(attempts[i]))
  }

  /** One attempt failed, every other succeeded. */
  function AllButOne(names: seq<string>, k: nat): seq<Attempt> {
    seq(|names|, i requires 0 <= i < |names| => if i == k then Threw(names[i], false) else Came(names[i], Success))
  }

  /** Some outcomes of these databases make their entry greener than they are exactly when two share a name or one
      has none. */
  lemma GreenerExactly(names: seq<string>)
    ensures (exists attempts: seq<Attempt> :: NamesOf(attempts) == names && Greener(attempts)) <==>
      !(NoDuplicates(names) && "" !in names)
  {
    if NoDuplicates(names) && "" !in names {
      forall attempts: seq<Attempt> | NamesOf(attempts) == names ensures !Greener(attempts) {
        forall i, j | 0 <= i < j < |attempts| ensures attempts[i].name != attempts[j].name {
          assert names[i] == attempts[i].name && names[j] == attempts[j].name;
        }
        forall i | 0 <= i < |attempts| ensures attempts[i].name != "" { assert names[i] in names; }
        NeverGreener(attempts);
      }
    } else {
      var k :| 0 <= k < |names| && (names[k] == "" || exists j :: k < j < |names| && names[j] == names[k]);
      var attempts := AllButOne(names, k);
      assert !LastOfItsName(attempts, k) by {
        if names[k] != "" {
          var j :| k < j < |names| && names[j] == names[k];
          assert attempts[j].name == attempts[k].name;
        }
      }
      FailedExactly(attempts);
      assert !Succeeded(StatusOf(attempts[k]));
      assert NamesOf(attempts) == names && Greener(attempts);
    }
  }

  /** Two databases of one name: the second's success hides the first's failure. */
  lemma GreenerThanItsDatabases()
    ensures Verdict(PerDatabase([Threw("APP", false), Came("APP", Success)]), false) == Success
  {
    var a := [Threw("APP", false), Came("APP", Success)];
    assert a[..1] == [a[0]] && [a[0]][..0] == [];
    assert PerDatabase([a[0]]) == map["APP" := Failed];
    assert PerDatabase(a) == map["APP" := Success];
  }

  // ---------------------------------------------------------------- counting

  function Bad(per: map<string, Status>): set<string> {
    set n | n in per && !Acceptable(per[n])
  }

  function Good(per: map<string, Status>): set<string> {
    set n | n in per && Succeeded(per[n])
  }

  function Passed(per: map<string, Status>): set<string> {
    set n | n in per && per[n].Skipped?
  }

  lemma EveryStatusCountsOnce(per: map<string, Status>)
    ensures |per| == |Good(per)| + |Bad(per)| + |Passed(per)|
  {
    assert per.Keys == Good(per) + Bad(per) + Passed(per);
    assert |per.Keys| == |per|;
    assert Good(per) !! Bad(per) && (Good(per) + Bad(per)) !! Passed(per);
    assert |Good(per) + Bad(per)| == |Good(per)| + |Bad(per)|;
    assert |(Good(per) + Bad(per)) + Passed(per)| == |Good(per) + Bad(per)| + |Passed(per)|;
  }

  function Having(per: map<string, Status>, statuses: set<Status>): set<string> {
    set n | n in per && per[n] in statuses
  }

  /** How many databases of all the outputs ended with one of these statuses. */
  ghost function Sum(outputs: seq<ServerOutput>, statuses: set<Status>): nat {
    if outputs == [] then 0
    else Sum(outputs[..|outputs| - 1], statuses) + |Having(outputs[|outputs| - 1].per, statuses)|
  }

  lemma {:induction false} NoneBad(outputs: seq<ServerOutput>)
    ensures Sum(outputs, {Failed, CheckFailed}) == 0 <==> forall i :: 0 <= i < |outputs| ==> Bad(outputs[i].per) == {}
  {
    if outputs != [] {
      var before, last := outputs[..|outputs| - 1], outputs[|outputs| - 1].per;
      NoneBad(before);
      assert forall i :: 0 <= i < |before| ==> before[i] == outputs[i];
      KindsOfStatus(last);
    }
  }

  lemma KindsOfStatus(per: map<string, Status>)
    ensures Good(per) == Having(per, {Success, DryRun})
    ensures Bad(per) == Having(per, {Failed, CheckFailed})
    ensures Passed(per) == Having(per, {Skipped})
  {
  }

  /** Success, failed and skipped are each the databases of that kind, and together all considered. */
  method CountStatuses(outputs: seq<ServerOutput>) returns (considered: nat, success: nat, failed: nat, skipped: nat)
    ensures success == Sum(outputs, {Success, DryRun}) && skipped == Sum(outputs, {Skipped})
    ensures failed == Sum(outputs, {Failed, CheckFailed})
    ensures considered == success + failed + skipped
  {
    considered, success, skipped := 0, 0, 0;
    ghost var bad: nat := 0;
    for i := 0 to |outputs|
      invariant success == Sum(outputs[..i], {Success, DryRun}) && skipped == Sum(outputs[..i], {Skipped})
      invariant bad == Sum(outputs[..i], {Failed, CheckFailed})
      invariant considered == success + bad + skipped
    {
      assert outputs[..i + 1][..i] == outputs[..i];
      EveryStatusCountsOnce(outputs[i].per);
      KindsOfStatus(outputs[i].per);
      considered := considered + |outputs[i].per|;
      success := success + |Good(outputs[i].per)|;
      skipped := skipped + |Passed(outputs[i].per)|;
      bad := bad + |Bad(outputs[i].per)|;
    }
    assert outputs[..|outputs|] == outputs;
    failed := considered - success - skipped;
  }

  // ---------------------------------------------------------------- one entry

  datatype Copy = CopyThrew | CopyDone(reports: seq<LocalCopy.Report>)

  datatype Restore = RestoreThrew | Tried(attempts: seq<Attempt>)

  /** The check of an entry's databases: it threw, it could not be asked, or what it answered, in all and for each. */
  datatype Verify = VerifyThrew | NotAsked | Checked(ok: bool, usable: seq<bool>)

  datatype Cleanup = CleanupThrew | Cleaned(code: nat)

  datatype Entry = Entry(copy: Copy, restore: Restore, verify: Verify, cleanup: Cleanup)

  /** How a run was asked for. */
  datatype Asked = Asked(preflight: bool, dryRun: bool, copyOnly: bool, pointInTime: bool)

  /** Every file of the entry proven, and at least one. */
  predicate CopyPasses(e: Entry) {
    e.copy.CopyDone? && e.copy.reports != [] && LocalCopy.Tally(e.copy.reports, LocalCopy.Failed) == 0
  }

  predicate RestoreReturns(e: Entry, ask: Asked) {
    e.restore.Tried? && OutputOf(e.restore.attempts, ask.pointInTime, ask.dryRun).Some?
  }

  predicate NoneFailed(e: Entry) {
    e.restore.Tried? && Bad(PerDatabase(e.restore.attempts)) == {}
  }

  predicate VerifyReturns(e: Entry) {
    !e.verify.VerifyThrew?
  }

  predicate NoneUnusable(e: Entry) {
    e.verify.Checked? ==> false !in e.verify.usable
  }

  predicate CleanupPasses(e: Entry) {
    e.cleanup == Cleaned(0)
  }

  ghost predicate AllCopied(entries: seq<Entry>) {
    forall i :: 0 <= i < |entries| ==> CopyPasses(entries[i])
  }

  ghost predicate AllAcceptable(entries: seq<Entry>, ask: Asked) {
    && (forall i :: 0 <= i < |entries| ==> RestoreReturns(entries[i], ask))
    && (forall i :: 0 <= i < |entries| ==> NoneFailed(entries[i]))
  }

  ghost predicate AllOpen(entries: seq<Entry>) {
    && (forall i :: 0 <= i < |entries| ==> VerifyReturns(entries[i]))
    && (forall i :: 0 <= i < |entries| ==> NoneUnusable(entries[i]))
  }

  ghost predicate AllCleaned(entries: seq<Entry>) {
    forall i :: 0 <= i < |entries| ==> entries[i].cleanup == Cleaned(0)
  }

  // ---------------------------------------------------------------- the run

  datatype Phase = Copying | Restoring | Verifying | Cleaning

  datatype Event = Event(phase: Phase, entry: nat)

  function Marks(phase: Phase, n: nat): seq<Event> {
    seq(n, i requires 0 <= i < n => Event(phase, i))
  }

  /** One phase over the entries, up to the first that does not pass; how many it began. */
  method RunPhase(entries: seq<Entry>, passes: Entry -> bool) returns (begun: nat, ok: bool)
    ensures begun <= |entries| && (begun == 0 <==> entries == [])
    ensures ok <==> forall i :: 0 <= i < |entries| ==> passes(entries[i])
    ensures forall i :: 0 <= i < begun - 1 ==> passes(entries[i])
    ensures if ok then begun == |entries| else !passes(entries[begun - 1])
  {
    begun := 0;
    while begun < |entries|
      invariant begun <= |entries| && forall j :: 0 <= j < begun ==> passes(entries[j])
    {
      begun := begun + 1;
      if !passes(entries[begun - 1]) {
        return begun, false;
      }
    }
    ok := true;
  }

  datatype Ended = RunSucceeded | RunDry | RunFailed

  /** Where the run may go on to its restores. */
  ghost predicate MayRestore(entries: seq<Entry>, ask: Asked) {
    ask.preflight && entries != [] && !ask.copyOnly && (ask.dryRun || AllCopied(entries))
  }

  /** Where the run is past its restores. */
  ghost predicate MayVerify(entries: seq<Entry>, ask: Asked) {
    MayRestore(entries, ask) && AllAcceptable(entries, ask)
  }

  /** Where the run may go on to the cleanup. */
  ghost predicate MayClean(entries: seq<Entry>, ask: Asked) {
    MayVerify(entries, ask) && (ask.dryRun || AllOpen(entries))
  }

  ghost predicate CopiedOnly(entries: seq<Entry>, ask: Asked) {
    ask.preflight && entries != [] && ask.copyOnly && !ask.dryRun && AllCopied(entries)
  }

  ghost predicate Reached(events: seq<Event>, phase: Phase) {
    exists i :: 0 <= i < |events| && events[i].phase == phase
  }

  /** The first event may come before the second: copies before restores, restores before checks, checks before
      cleanups, and in one phase the entries in their order. */
  predicate MayPrecede(a: Event, b: Event) {
    match b.phase
    case Copying => a.phase.Copying? && a.entry < b.entry
    case Restoring => a.phase.Copying? || (a.phase.Restoring? && a.entry < b.entry)
    case Verifying => a.phase.Copying? || a.phase.Restoring? || (a.phase.Verifying? && a.entry < b.entry)
    case Cleaning => a.phase.Cleaning? ==> a.entry < b.entry
  }

  ghost predicate InPhaseOrder(events: seq<Event>) {
    forall i, j :: 0 <= i < j < |events| ==> MayPrecede(events[i], events[j])
  }

  /** The phases of a run laid end to end. */
  function Laid(copied: nat, restored: nat, verified: nat, cleaned: nat): seq<Event> {
    Marks(Copying, copied) + Marks(Restoring, restored) + Marks(Verifying, verified) + Marks(Cleaning, cleaned)
  }

  lemma LaidAt(a: nat, b: nat, c: nat, d: nat, i: nat)
    requires i < a + b + c + d
    ensures Laid(a, b, c, d)[i] ==
      if i < a then Event(Copying, i) else if i < a + b then Event(Restoring, i - a)
      else if i < a + b + c then Event(Verifying, i - a - b) else Event(Cleaning, i - a - b - c)
  {
  }

  lemma LaidInOrder(a: nat, b: nat, c: nat, d: nat)
    ensures InPhaseOrder(Laid(a, b, c, d))
  {
    forall i, j | 0 <= i < j < a + b + c + d
      ensures MayPrecede(Laid(a, b, c, d)[i], Laid(a, b, c, d)[j])
    {
      LaidAt(a, b, c, d, i);
      LaidAt(a, b, c, d, j);
    }
  }

  lemma LaidReaches(a: nat, b: nat, c: nat, d: nat)
    ensures forall k :: 0 <= k < a ==> Event(Copying, k) in Laid(a, b, c, d)
    ensures forall k :: 0 <= k < b ==> Event(Restoring, k) in Laid(a, b, c, d)
    ensures forall k :: 0 <= k < c ==> Event(Verifying, k) in Laid(a, b, c, d)
    ensures forall k :: 0 <= k < d ==> Event(Cleaning, k) in Laid(a, b, c, d)
    ensures Reached(Laid(a, b, c, d), Copying) <==> a > 0
    ensures Reached(Laid(a, b, c, d), Restoring) <==> b > 0
    ensures Reached(Laid(a, b, c, d), Verifying) <==> c > 0
    ensures Reached(Laid(a, b, c, d), Cleaning) <==> d > 0
  {
    forall i | 0 <= i < a + b + c + d
      ensures Laid(a, b, c, d)[i].phase
        == if i < a then Copying else if i < a + b then Restoring else if i < a + b + c then Verifying else Cleaning
    {
      LaidAt(a, b, c, d, i);
    }
    forall k | 0 <= k < a ensures Event(Copying, k) in Laid(a, b, c, d) { LaidAt(a, b, c, d, k); }
    forall k | 0 <= k < b ensures Event(Restoring, k) in Laid(a, b, c, d) { LaidAt(a, b, c, d, a + k); }
    forall k | 0 <= k < c ensures Event(Verifying, k) in Laid(a, b, c, d) { LaidAt(a, b, c, d, a + b + k); }
    forall k | 0 <= k < d ensures Event(Cleaning, k) in Laid(a, b, c, d) { LaidAt(a, b, c, d, a + b + c + k); }
    if a > 0 { assert Laid(a, b, c, d)[0].phase == Copying; }
    if b > 0 { assert Laid(a, b, c, d)[a].phase == Restoring; }
    if c > 0 { assert Laid(a, b, c, d)[a + b].phase == Verifying; }
    if d > 0 { assert Laid(a, b, c, d)[a + b + c].phase == Cleaning; }
  }

  /** The whole run. A restore starts exactly when every entry's copy is proven; the cleanup starts exactly when
      every database of every entry ended acceptably and no checked one is unusable; nothing of an earlier phase
      follows a later one, and no entry meets a phase twice. */
  method RunWorkflow(entries: seq<Entry>, ask: Asked) returns (events: seq<Event>, ended: Ended)
    ensures InPhaseOrder(events)
    ensures Reached(events, Restoring) <==> MayRestore(entries, ask)
    ensures Reached(events, Verifying) <==> MayVerify(entries, ask) && !ask.dryRun
    ensures Reached(events, Cleaning) <==> MayClean(entries, ask)
    ensures ended == RunSucceeded <==> CopiedOnly(entries, ask) || (MayClean(entries, ask) && AllCleaned(entries))
    ensures ask.dryRun ==> !Reached(events, Copying) && !Reached(events, Verifying)
    ensures Reached(events, Restoring) && !ask.dryRun ==>
      forall k :: 0 <= k < |entries| ==> Event(Copying, k) in events
    ensures Reached(events, Cleaning) ==> forall k :: 0 <= k < |entries| ==>
      Event(Restoring, k) in events && (ask.dryRun || Event(Verifying, k) in events)
    ensures ended == RunSucceeded && !ask.copyOnly ==> forall k :: 0 <= k < |entries| ==> Event(Cleaning, k) in events
  {
    var copied: nat, restored: nat, verified: nat, cleaned: nat := 0, 0, 0, 0;
    ended := RunFailed;
    if ask.preflight && (entries != [] || ask.dryRun) {
      var ok := ask.dryRun;
      if !ask.dryRun {
        copied, ok := RunPhase(entries, (e: Entry) => CopyPasses(e));
      }
      if ok && ask.copyOnly {
        ended := if ask.dryRun then RunDry else RunSucceeded;
      } else if ok {
        restored, verified, cleaned, ended := RunRestores(entries, ask);
      }
    }
    events := Laid(copied, restored, verified, cleaned);
    LaidInOrder(copied, restored, verified, cleaned);
    LaidReaches(copied, restored, verified, cleaned);
  }

  /** From the restores on: the failed databases stop the run before the check, the unusable before the cleanup. */
  method RunRestores(entries: seq<Entry>, ask: Asked) returns (restored: nat, verified: nat, cleaned: nat, ended: Ended)
    ensures restored > 0 <==> entries != []
    ensures verified > 0 <==> entries != [] && AllAcceptable(entries, ask) && !ask.dryRun
    ensures cleaned > 0 <==> entries != [] && AllAcceptable(entries, ask) && (ask.dryRun || AllOpen(entries))
    ensures ended == RunSucceeded <==> cleaned > 0 && AllCleaned(entries)
    ensures cleaned > 0 ==> restored == |entries| && (ask.dryRun || verified == |entries|)
    ensures ended == RunSucceeded ==> cleaned == |entries|
  {
    verified, cleaned, ended := 0, 0, RunFailed;
    var came: bool;
    restored, came := RunPhase(entries, (e: Entry) => RestoreReturns(e, ask));
    if !came {
      return;
    }
    var names, failed := FailedDatabases(entries, ask);
    if failed > 0 {
      return;
    }
    var open := true;
    if !ask.dryRun {
      verified, open := RunChecks(entries);
    }
    if open && entries != [] {
      var clean: bool;
      cleaned, clean := RunPhase(entries, (e: Entry) => CleanupPasses(e));
      ended := if clean then RunSucceeded else RunFailed;
    }
  }

  method RunChecks(entries: seq<Entry>) returns (verified: nat, open: bool)
    ensures (verified > 0 <==> entries != []) && (open ==> verified == |entries|)
    ensures open <==> AllOpen(entries)
  {
    verified, open := RunPhase(entries, (e: Entry) => VerifyReturns(e));
    if open {
      open := AllUsable(entries);
    }
  }

  /** The databases the run is stopped for, by name, entry by entry. */
  method FailedDatabases(entries: seq<Entry>, ask: Asked) returns (names: seq<set<string>>, failed: nat)
    requires forall i :: 0 <= i < |entries| ==> RestoreReturns(entries[i], ask)
    ensures |names| == |entries|
    ensures forall i :: 0 <= i < |entries| && entries[i].restore.Tried? ==>
      names[i] == Bad(PerDatabase(entries[i].restore.attempts))
    ensures failed == 0 <==> forall i :: 0 <= i < |entries| ==> NoneFailed(entries[i])
  {
    var outputs: seq<ServerOutput> := [];
    names := [];
    for i := 0 to |entries|
      invariant |outputs| == |names| == i
      invariant forall j :: 0 <= j < i ==> outputs[j].per == PerDatabase(entries[j].restore.attempts)
      invariant forall j :: 0 <= j < i ==> names[j] == Bad(PerDatabase(entries[j].restore.attempts))
    {
      var output := RestoreServer(entries[i].restore.attempts, ask.pointInTime, ask.dryRun);
      outputs, names := outputs + [output.value], names + [Bad(output.value.per)];
    }
    var considered, success, skipped: nat;
    considered, success, failed, skipped := CountStatuses(outputs);
    NoneBad(outputs);
  }

  method AllUsable(entries: seq<Entry>) returns (ok: bool)
    ensures ok <==> forall i :: 0 <= i < |entries| ==> NoneUnusable(entries[i])
  {
    for i := 0 to |entries|
      invariant forall j :: 0 <= j < i ==> NoneUnusable(entries[j])
    {
      if !NoneUnusable(entries[i]) {
        return false;
      }
    }
    ok := true;
  }

  // ---------------------------------------------------------------- what a cleanup rests on

  /** Of one entry: every file of its copy came to something better than failed; its restore came back, with no throw in
      a point-in-time restore, and the last attempt of every name with success, a dry run or a skip; its check did not
      throw and listed no database as unusable. */
  ghost predicate EntryProven(e: Entry, pointInTime: bool) {
    && e.copy.CopyDone? && e.copy.reports != []
    && (forall r :: r in e.copy.reports ==>
          r.status in {LocalCopy.FreshCopy, LocalCopy.Replaced, LocalCopy.SkippedExists})
    && e.restore.Tried? && e.restore.attempts != []
    && (pointInTime ==> forall a :: a in e.restore.attempts ==> a.Came?)
    && (forall i :: 0 <= i < |e.restore.attempts| && LastOfItsName(e.restore.attempts, i) ==>
          e.restore.attempts[i].Came? && e.restore.attempts[i].status in {Success, DryRun, Skipped})
    && (e.verify.NotAsked? || (e.verify.Checked? && forall usable :: usable in e.verify.usable ==> usable))
  }

  lemma EntryProvenExactly(e: Entry, ask: Asked)
    ensures EntryProven(e, ask.pointInTime) <==>
      CopyPasses(e) && RestoreReturns(e, ask) && NoneFailed(e) && VerifyReturns(e) && NoneUnusable(e)
  {
    if e.copy.CopyDone? {
      LocalCopy.EveryReportIsCounted(e.copy.reports);
      forall r | r in e.copy.reports
        ensures r.status.Failed? <==> r.status !in {LocalCopy.FreshCopy, LocalCopy.Replaced, LocalCopy.SkippedExists} {}
    }
    if e.restore.Tried? {
      var attempts := e.restore.attempts;
      AnswersInAll(attempts, ask.pointInTime, ask.dryRun);
      forall i | 0 <= i < |attempts| && LastOfItsName(attempts, i)
        ensures attempts[i].name in Bad(PerDatabase(attempts)) <==>
          !(attempts[i].Came? && attempts[i].status in {Success, DryRun, Skipped})
      {
        PerDatabaseIsTheLast(attempts, attempts[i].name);
        assert PerDatabase(attempts)[attempts[i].name] == StatusOf(attempts[i]);
      }
      if n :| n in Bad(PerDatabase(attempts)) { StopsTheRunExactly(attempts, n); }
    }
  }

  /** A run that writes cleans up exactly when it was let to, was not to copy only, has entries, and every one of them
      was proven. */
  lemma CleanupRestsOnProof(entries: seq<Entry>, ask: Asked)
    requires !ask.dryRun
    ensures MayClean(entries, ask) <==>
      ask.preflight && !ask.copyOnly && entries != [] && forall e :: e in entries ==> EntryProven(e, ask.pointInTime)
  {
    forall e ensures EntryProven(e, ask.pointInTime) <==>
      CopyPasses(e) && RestoreReturns(e, ask) && NoneFailed(e) && VerifyReturns(e) && NoneUnusable(e)
    {
      EntryProvenExactly(e, ask);
    }
    if MayClean(entries, ask) {
      forall e | e in entries ensures EntryProven(e, ask.pointInTime) {
        var i :| 0 <= i < |entries| && entries[i] == e;
        assert CopyPasses(entries[i]) && RestoreReturns(entries[i], ask) && NoneFailed(entries[i]);
        assert VerifyReturns(entries[i]) && NoneUnusable(entries[i]);
      }
    }
    if forall e :: e in entries ==> EntryProven(e, ask.pointInTime) {
      forall i | 0 <= i < |entries|
        ensures CopyPasses(entries[i]) && RestoreReturns(entries[i], ask) && NoneFailed(entries[i])
        ensures VerifyReturns(entries[i]) && NoneUnusable(entries[i])
      {
        assert entries[i] in entries;
      }
    }
  }

  /** Nothing in the answer is listed as unusable: the check was not asked, or it names no such database - whatever
      it says in all. */
  predicate ListsNothing(verify: Verify) {
    verify.NotAsked? || (verify.Checked? && false !in verify.usable)
  }

  /** Over every run: what an entry's check answers holds the cleanup back exactly when it throws or lists a database
      it found unusable; an entry that was not checked is cleaned up like one whose databases all opened. */
  lemma CleanedUpUncheckedExactly(entries: seq<Entry>, ask: Asked, k: nat)
    requires k < |entries| && !ask.dryRun
    ensures MayClean(entries, ask) <==>
      && ListsNothing(entries[k].verify)
      && MayClean(entries[k := entries[k].(verify := NotAsked)], ask)
  {
    var others := entries[k := entries[k].(verify := NotAsked)];
    forall i | 0 <= i < |entries|
      ensures others[i] == if i == k then entries[k].(verify := NotAsked) else entries[i]
      ensures CopyPasses(others[i]) == CopyPasses(entries[i]) && NoneFailed(others[i]) == NoneFailed(entries[i])
      ensures RestoreReturns(others[i], ask) == RestoreReturns(entries[i], ask)
    {
    }
    OpenExactly(entries, k);
  }

  lemma OpenExactly(entries: seq<Entry>, k: nat)
    requires k < |entries|
    ensures AllOpen(entries) <==>
      ListsNothing(entries[k].verify) && AllOpen(entries[k := entries[k].(verify := NotAsked)])
  {
    var others := entries[k := entries[k].(verify := NotAsked)];
    forall i | 0 <= i < |entries| && i != k ensures others[i] == entries[i] {}
    if AllOpen(entries) {
      assert VerifyReturns(entries[k]) && NoneUnusable(entries[k]);
    }
    if ListsNothing(entries[k].verify) && AllOpen(others) {
      forall i | 0 <= i < |entries| ensures VerifyReturns(entries[i]) && NoneUnusable(entries[i]) {
        if i != k { assert VerifyReturns(others[i]) && NoneUnusable(others[i]); }
      }
    }
  }

  /** Neither an entry whose databases could not be asked, nor a check that answers failed and lists no database,
      holds the cleanup back. */
  lemma UncheckedIsCleanedUp(report: LocalCopy.Report, verify: Verify)
    requires report.status.FreshCopy? && (verify.NotAsked? || verify == Checked(false, []))
    ensures MayClean([Entry(CopyDone([report]), Tried([Came("APP", Success)]), verify, Cleaned(0))],
                     Asked(true, false, false, false))
  {
    var attempts := [Came("APP", Success)];
    assert attempts[..0] == [];
    assert PerDatabase(attempts) == map["APP" := Success];
    LocalCopy.EveryReportIsCounted([report]);
    assert CopyPasses(Entry(CopyDone([report]), Tried(attempts), verify, Cleaned(0)));
  }
}

/** The generated plan of a SQL Server restore by id, what it does to the databases when its steps are run, and
    the walk over its steps. */
module RestorePlan {
  import opened Basics
  import opened BackupOrder
  import opened ChainSelection
  import L = LogRestore

  /** One database's chain, as the listings give it. */
  datatype DbChain = DbChain(full: Listed, diff: Option<Listed>, logs: seq<Listed>)

  /** What the listings answer: the names with a full; the newest full of a database; the newest differential and
      the logs after an anchor; how many files could not be read. */
  datatype Catalogue = Catalogue(names: seq<string>, full: string -> Option<Listed>,
                                 diff: (string, Option<nat>) -> Option<Listed>,
                                 logs: (string, Option<nat>) -> seq<Listed>, unreadable: nat)

  /** What a restore is asked for: a moment or the newest, and whether it may overwrite a database that is online. */
  datatype Wanted = Wanted(moment: Option<nat>, overwrite: bool)

  datatype Step =
    | RestoreKey
    | RestoreFull(db: string, path: string, recover: bool, overwrite: bool)
    | RestoreDiff(db: string, path: string, recover: bool)
    | RestoreLogs(db: string, paths: seq<string>, stopAt: Option<nat>)
    | VerifyRestore(dbs: seq<string>)
    | Warning(unreadable: nat)

  datatype PlanError = NoDatabases | FullMissing(db: string) | BrokenChain(db: string)

  // ---------------------------------------------------------------- the chain, held to its headers

  /** A differential of another full, a first log that starts too late, or a log missing between two. */
  datatype Break = OtherFull | StartsLate | LogMissing

  function AnchorEnd(full: Listed, diff: Option<Listed>): nat {
    if diff.Some? then diff.value.header.last else full.header.last
  }

  function LogBreak(logs: seq<Listed>, end: nat, started: bool): Option<Break> {
    if logs == [] then None else
      var h := logs[0].header;
      if h.first == 0 || h.last == 0 || end == 0 then None
      else if !started && h.last <= end then LogBreak(logs[1..], end, false)
      else if !started && h.first > end then Some(StartsLate)
      else if started && h.first != end then Some(LogMissing)
      else LogBreak(logs[1..], h.last, true)
  }

  predicate BaseBreaks(full: Listed, diff: Option<Listed>) {
    && diff.Some? && diff.value.header.base != 0 && full.header.checkpoint != 0
    && diff.value.header.base != full.header.checkpoint
  }

  function ChainBreak(full: Listed, diff: Option<Listed>, logs: seq<Listed>): Option<Break> {
    if BaseBreaks(full, diff) then Some(OtherFull) else LogBreak(logs, AnchorEnd(full, diff), false)
  }

  /** The first break of a chain, read off the headers; a value not given is not judged. */
  method SqlServerChainBreak(full: Listed, diff: Option<Listed>, logs: seq<Listed>) returns (broken: Option<Break>)
    ensures broken == ChainBreak(full, diff, logs)
  {
    if diff.Some? && diff.value.header.base != 0 && full.header.checkpoint != 0
       && diff.value.header.base != full.header.checkpoint {
      return Some(OtherFull);
    }
    var end, started := AnchorEnd(full, diff), false;
    for i := 0 to |logs|
      invariant ChainBreak(full, diff, logs) == LogBreak(logs[i..], end, started)
    {
      var h := logs[i].header;
      assert logs[i..][1..] == logs[i + 1..];
      if h.first == 0 || h.last == 0 || end == 0 {
        return None;
      }
      if !started {
        if h.last <= end {
          continue;
        }
        if h.first > end {
          return Some(StartsLate);
        }
        started := true;
      } else if h.first != end {
        return Some(LogMissing);
      }
      end := h.last;
    }
    broken := None;
  }

  /** How many of the first logs end by the anchor's end. */
  function EarlyLogs(logs: seq<Listed>, end: nat): (n: nat)
    ensures n <= |logs|
  {
    if logs == [] || logs[0].header.last > end then 0 else 1 + EarlyLogs(logs[1..], end)
  }

  ghost predicate LogsGiven(logs: seq<Listed>) {
    forall i :: 0 <= i < |logs| ==> logs[i].header.first > 0 && logs[i].header.last > 0
  }

  /** Each log starts where the one before it ended. */
  predicate Linked(logs: seq<Listed>, end: nat)
    decreases |logs|
  {
    logs == [] || (logs[0].header.first == end && Linked(logs[1..], logs[0].header.last))
  }

  lemma {:induction false} LinkedExactly(logs: seq<Listed>, end: nat)
    requires LogsGiven(logs) && end > 0
    ensures LogBreak(logs, end, true).None? <==> Linked(logs, end)
    decreases |logs|
  {
    if logs != [] {
      assert LogsGiven(logs[1..]) by { assert forall i :: 0 <= i < |logs[1..]| ==> logs[1..][i] == logs[i + 1]; }
      LinkedExactly(logs[1..], logs[0].header.last);
    }
  }

  /** With its headers given, a chain holds exactly when a differential is of its full, the first log that ends after
      the anchor starts by the anchor's end, and from there on each log starts where the one before ended. */
  lemma {:induction false} LogsHoldExactly(logs: seq<Listed>, end: nat)
    requires LogsGiven(logs) && end > 0
    ensures EarlyLogs(logs, end) <= |logs|
    ensures forall i :: 0 <= i < EarlyLogs(logs, end) ==> logs[i].header.last <= end
    ensures EarlyLogs(logs, end) < |logs| ==> logs[EarlyLogs(logs, end)].header.last > end
    ensures LogBreak(logs, end, false).None? <==>
      var rest := logs[EarlyLogs(logs, end)..];
      rest == [] || (rest[0].header.first <= end && Linked(rest[1..], rest[0].header.last))
    ensures LogBreak(logs, end, false) == Some(StartsLate) <==>
      EarlyLogs(logs, end) < |logs| && logs[EarlyLogs(logs, end)].header.first > end
  {
    if logs != [] {
      assert LogsGiven(logs[1..]) by { assert forall i :: 0 <= i < |logs[1..]| ==> logs[1..][i] == logs[i + 1]; }
      if logs[0].header.last <= end {
        LogsHoldExactly(logs[1..], end);
        assert logs[1..][EarlyLogs(logs[1..], end)..] == logs[EarlyLogs(logs, end)..];
      } else {
        assert logs[0..] == logs;
        LinkedExactly(logs[1..], logs[0].header.last);
        LinksNeverStartLate(logs[1..], logs[0].header.last);
      }
    }
  }

  lemma {:induction false} LinksNeverStartLate(logs: seq<Listed>, end: nat)
    ensures LogBreak(logs, end, true) != Some(StartsLate)
    decreases |logs|
  {
    if logs != [] { LinksNeverStartLate(logs[1..], logs[0].header.last); }
  }

  /** A header value that is not given ends the judging: the logs before it are judged, itself and those after are
      not. */
  lemma {:induction false} JudgedWhileGiven(logs: seq<Listed>, end: nat, started: bool, k: nat)
    requires k <= |logs| && (k < |logs| ==> logs[k].header.first == 0 || logs[k].header.last == 0)
    ensures LogBreak(logs, end, started) == LogBreak(logs[..k], end, started)
    ensures end == 0 ==> LogBreak(logs, end, started).None?
    decreases |logs|
  {
    if k == |logs| {
      assert logs[..k] == logs;
    } else if k > 0 {
      var h, rest := logs[0].header, logs[1..];
      assert logs[..k][1..] == rest[..k - 1];
      JudgedWhileGiven(rest, end, started, k - 1);
      JudgedWhileGiven(rest, h.last, true, k - 1);
    }
  }

  /** With its headers given, a chain holds exactly when a differential names its full's checkpoint as its base, the
      first log that ends after the anchor starts by its end, and from there on each log starts where the one before
      ended. */
  lemma ChainHoldsExactly(full: Listed, diff: Option<Listed>, logs: seq<Listed>)
    requires LogsGiven(logs) && full.header.last > 0 && full.header.checkpoint > 0
    requires diff.Some? ==> diff.value.header.last > 0 && diff.value.header.base > 0
    ensures var end := if diff.Some? then diff.value.header.last else full.header.last;
      ChainBreak(full, diff, logs).None? <==>
        && (diff.Some? ==> diff.value.header.base == full.header.checkpoint)
        && var late := logs[EarlyLogs(logs, end)..];
           late == [] || (late[0].header.first <= end && Linked(late[1..], late[0].header.last))
  {
    LogsHoldExactly(logs, if diff.Some? then diff.value.header.last else full.header.last);
  }

  /** A base or a checkpoint that is not given is not judged. */
  lemma BaseJudgedWhenGiven(full: Listed, diff: Option<Listed>, logs: seq<Listed>)
    ensures ChainBreak(full, diff, logs) == Some(OtherFull) <==>
      diff.Some? && diff.value.header.base > 0 && full.header.checkpoint > 0
      && diff.value.header.base != full.header.checkpoint
  {
    LogsBreakOtherwise(logs, if diff.Some? then diff.value.header.last else full.header.last, false);
  }

  lemma {:induction false} LogsBreakOtherwise(logs: seq<Listed>, end: nat, started: bool)
    ensures LogBreak(logs, end, started) != Some(OtherFull)
    decreases |logs|
  {
    if logs != [] {
      LogsBreakOtherwise(logs[1..], end, false);
      LogsBreakOtherwise(logs[1..], logs[0].header.last, true);
    }
  }

  // ---------------------------------------------------------------- one database

  function ChainOf(c: Catalogue, db: string, moment: Option<nat>): Result<DbChain, PlanError> {
    match c.full(db)
    case None => Err(FullMissing(db))
    case Some(full) =>
      var diff := c.diff(db, full.finished);
      var anchor := if diff.Some? && diff.value.finished.Some? then diff.value.finished else full.finished;
      var logs := c.logs(db, anchor);
      var chain := DbChain(full, diff, if moment.Some? then ThroughMoment(logs, moment.value) else logs);
      if ChainBreak(chain.full, chain.diff, chain.logs).Some? then Err(BrokenChain(db)) else Ok(chain)
  }

  function PathsOf(files: seq<Listed>): seq<string> {
    seq(|files|, i requires 0 <= i < |files| => files[i].path)
  }

  /** Everything but the last step leaves the database restoring. */
  function StepsOf(db: string, chain: DbChain, want: Wanted): seq<Step> {
    [RestoreFull(db, chain.full.path, chain.logs == [] && chain.diff.None?, want.overwrite)]
    + (if chain.diff.Some? then [RestoreDiff(db, chain.diff.value.path, chain.logs == [])] else [])
    + (if chain.logs != [] then [RestoreLogs(db, PathsOf(chain.logs), want.moment)] else [])
  }

  function StepsOfAll(c: Catalogue, dbs: seq<string>, want: Wanted): Result<seq<Step>, PlanError> {
    if dbs == [] then Ok([]) else
      var before, db := StepsOfAll(c, dbs[..|dbs| - 1], want), dbs[|dbs| - 1];
      if before.Err? then before else
        match ChainOf(c, db, want.moment)
        case Err(e) => Err(e)
        case Ok(chain) => Ok(before.value + StepsOf(db, chain, want))
  }

  // ---------------------------------------------------------------- the databases of a restore

  function InsertName(s: seq<string>, n: string): seq<string> {
    if s == [] || TextBefore(n, s[0]) then [n] + s else if n == s[0] then s else [s[0]] + InsertName(s[1..], n)
  }

  ghost predicate NamesInOrder(s: seq<string>) {
    forall i, j :: 0 <= i < j < |s| ==> TextBefore(s[i], s[j])
  }

  lemma {:induction false} InsertedInOrder(s: seq<string>, n: string)
    requires NamesInOrder(s)
    ensures NamesInOrder(InsertName(s, n)) && forall x :: x in InsertName(s, n) <==> x == n || x in s
  {
    if s == [] {
    } else if TextBefore(n, s[0]) {
      forall j | 0 <= j < |s| ensures TextBefore(n, s[j]) { if j > 0 { TextOrderChains(n, s[0], s[j]); } }
    } else if n != s[0] {
      TextOrder(n, s[0]);
      InsertedInOrder(s[1..], n);
      assert s == [s[0]] + s[1..];
      var rest := InsertName(s[1..], n);
      forall j | 0 <= j < |rest| ensures TextBefore(s[0], rest[j]) {
        assert rest[j] in rest;
        if rest[j] != n {
          var k :| 0 <= k < |s[1..]| && s[1..][k] == rest[j];
          assert s[k + 1] == rest[j];
        }
      }
    } else {
      assert n in s;
    }
  }

  lemma InOrderIsDistinct(s: seq<string>)
    requires NamesInOrder(s)
    ensures NoDuplicates(s)
  {
    forall i, j | 0 <= i < j < |s| ensures s[i] != s[j] { TextOrder(s[i], s[i]); }
  }

  /** Every name found, once, in order; a file without one is passed over. */
  method NamesFound(names: seq<string>) returns (dbs: seq<string>)
    ensures NamesInOrder(dbs) && NoDuplicates(dbs)
    ensures forall n :: n in dbs <==> n in names && n != ""
  {
    dbs := [];
    for i := 0 to |names|
      invariant NamesInOrder(dbs)
      invariant forall n :: n in dbs <==> n in names[..i] && n != ""
    {
      TakeNext(names, i);
      if names[i] != "" {
        InsertedInOrder(dbs, names[i]);
        dbs := InsertName(dbs, names[i]);
      }
    }
    assert names[..|names|] == names;
    InOrderIsDistinct(dbs);
  }

  // ---------------------------------------------------------------- the plan

  function Tail(c: Catalogue, dbs: seq<string>): seq<Step> {
    [VerifyRestore(dbs)] + if c.unreadable > 0 then [Warning(c.unreadable)] else []
  }

  method ChainFor(c: Catalogue, db: string, moment: Option<nat>) returns (r: Result<DbChain, PlanError>)
    ensures r == ChainOf(c, db, moment)
  {
    var full := c.full(db);
    if full.None? {
      return Err(FullMissing(db));
    }
    var anchor := full.value.finished;
    var diff := c.diff(db, anchor);
    if diff.Some? && diff.value.finished.Some? {
      anchor := diff.value.finished;
    }
    var logs := c.logs(db, anchor);
    if moment.Some? {
      logs := LogsThrough(logs, moment.value);
    }
    var broken := SqlServerChainBreak(full.value, diff, logs);
    r := if broken.Some? then Err(BrokenChain(db)) else Ok(DbChain(full.value, diff, logs));
  }

  /** The stated databases, or every one found; each one's chain; the check of all of them at the end. */
  method PlanSqlServer(c: Catalogue, stated: seq<string>, key: bool, want: Wanted)
    returns (plan: Result<seq<Step>, PlanError>, dbs: seq<string>)
    ensures stated != [] ==> dbs == stated
    ensures stated == [] ==> NoDuplicates(dbs) && forall n :: n in dbs <==> n in c.names && n != ""
    ensures plan == if dbs == [] then Err(NoDatabases) else
      match StepsOfAll(c, dbs, want)
      case Err(e) => Err(e)
      case Ok(steps) => Ok((if key then [RestoreKey] else []) + steps + [VerifyRestore(dbs)]
                           + if c.unreadable > 0 then [Warning(c.unreadable)] else [])
  {
    var steps: seq<Step> := if key then [RestoreKey] else [];
    ghost var first := steps;
    dbs := stated;
    if dbs == [] {
      dbs := NamesFound(c.names);
    }
    if dbs == [] {
      return Err(NoDatabases), dbs;
    }
    for i := 0 to |dbs|
      invariant StepsOfAll(c, dbs[..i], want).Ok? && steps == first + StepsOfAll(c, dbs[..i], want).value
    {
      var chain := ChainFor(c, dbs[i], want.moment);
      OneMoreDatabase(c, dbs, i, want, first);
      if chain.Err? {
        ErrorStays(c, dbs, i + 1, want);
        return Err(chain.error), dbs;
      }
      steps := steps + StepsOf(dbs[i], chain.value, want);
    }
    assert dbs[..|dbs|] == dbs;
    plan := Ok(steps + Tail(c, dbs));
    assert first + StepsOfAll(c, dbs, want).value + Tail(c, dbs) == first + StepsOfAll(c, dbs, want).value
      + [VerifyRestore(dbs)] + if c.unreadable > 0 then [Warning(c.unreadable)] else [];
  }

  lemma OneMoreDatabase(c: Catalogue, dbs: seq<string>, i: nat, want: Wanted, first: seq<Step>)
    requires i < |dbs| && StepsOfAll(c, dbs[..i], want).Ok?
    ensures var chain := ChainOf(c, dbs[i], want.moment);
      var before, next := StepsOfAll(c, dbs[..i], want), StepsOfAll(c, dbs[..i + 1], want);
      if chain.Err? then next == Err(chain.error)
      else next.Ok? && first + before.value + StepsOf(dbs[i], chain.value, want) == first + next.value
  {
    assert dbs[..i + 1][..i] == dbs[..i];
  }

  lemma {:induction false} ErrorStays(c: Catalogue, dbs: seq<string>, n: nat, want: Wanted)
    requires n <= |dbs| && StepsOfAll(c, dbs[..n], want).Err?
    ensures StepsOfAll(c, dbs, want) == StepsOfAll(c, dbs[..n], want)
    decreases |dbs| - n
  {
    if n == |dbs| {
      assert dbs[..n] == dbs;
    } else {
      assert dbs[..n + 1][..n] == dbs[..n];
      ErrorStays(c, dbs, n + 1, want);
    }
  }

  /** There is a plan exactly when every database has a full and an unbroken chain. */
  lemma {:induction false} PlannedExactly(c: Catalogue, dbs: seq<string>, want: Wanted)
    ensures StepsOfAll(c, dbs, want).Ok? <==> forall i :: 0 <= i < |dbs| ==> ChainOf(c, dbs[i], want.moment).Ok?
  {
    if dbs != [] { PlannedExactly(c, dbs[..|dbs| - 1], want); }
  }

  /** A chain chosen for a moment: only its last log may have finished after it, and it holds. */
  lemma ChainChosen(c: Catalogue, db: string, moment: Option<nat>)
    requires ChainOf(c, db, moment).Ok?
    ensures var chain := ChainOf(c, db, moment).value;
      && c.full(db) == Some(chain.full) && chain.diff == c.diff(db, chain.full.finished)
      && ChainBreak(chain.full, chain.diff, chain.logs).None?
      && (moment.Some? ==> OnlyTheLastEnds(chain.logs, moment.value))
  {
    if moment.Some? {
      var full := c.full(db).value;
      var diff := c.diff(db, full.finished);
      ThroughKeeps(c.logs(db, if diff.Some? && diff.value.finished.Some? then diff.value.finished else full.finished),
          moment.value);
    }
  }

  /** The first `n` logs a restore to the moment takes: all of them with no moment, and under one up to the first that
      finished after it. */
  ghost predicate Through(listed: seq<Listed>, moment: Option<nat>, n: nat) {
    && n <= |listed| && (moment.None? ==> n == |listed|)
    && (moment.Some? ==>
          && (forall i :: 0 <= i < n - 1 ==> listed[i].finished.Some? ==> listed[i].finished.value <= moment.value)
          && (n < |listed| ==> n > 0 && listed[n - 1].finished.Some? && listed[n - 1].finished.value > moment.value))
  }

  lemma {:induction false} ThroughSome(files: seq<Listed>, moment: nat) returns (n: nat)
    ensures Through(files, Some(moment), n) && ThroughMoment(files, moment) == files[..n]
  {
    if files == [] {
      n := 0;
    } else if files[0].finished.Some? && files[0].finished.value > moment {
      n := 1;
      assert files[..1] == [files[0]];
    } else {
      var m := ThroughSome(files[1..], moment);
      n := m + 1;
      assert files[..n] == [files[0]] + files[1..][..m];
      assert forall i :: 0 < i < |files| ==> files[i] == files[1..][i - 1];
    }
  }

  /** What the steps of one database are, from what the listings answer: its newest full; the differential listed after
      it; and the logs listed after the differential when that says when it finished, else after the full - all of them,
      or under a moment up to the first that finished after it. Only the last step recovers, and only logs stop. */
  lemma PlannedFromTheListing(c: Catalogue, db: string, want: Wanted) returns (n: nat)
    requires ChainOf(c, db, want.moment).Ok?
    ensures c.full(db).Some?
    ensures var full := c.full(db).value;
      var diff := c.diff(db, full.finished);
      var listed := c.logs(db, if diff.Some? && diff.value.finished.Some? then diff.value.finished else full.finished);
      && Through(listed, want.moment, n)
      && StepsOf(db, ChainOf(c, db, want.moment).value, want) ==
           [RestoreFull(db, full.path, diff.None? && n == 0, want.overwrite)]
           + (if diff.Some? then [RestoreDiff(db, diff.value.path, n == 0)] else [])
           + (if n > 0 then [RestoreLogs(db, seq(n, i requires 0 <= i < n <= |listed| => listed[i].path), want.moment)]
              else [])
  {
    var full := c.full(db).value;
    var diff := c.diff(db, full.finished);
    var listed := c.logs(db, if diff.Some? && diff.value.finished.Some? then diff.value.finished else full.finished);
    if want.moment.Some? {
      n := ThroughSome(listed, want.moment.value);
    } else {
      n := |listed|;
      assert listed[..n] == listed;
    }
    assert ChainOf(c, db, want.moment).value == DbChain(full, diff, listed[..n]);
    assert PathsOf(listed[..n]) == seq(n, i requires 0 <= i < n <= |listed| => listed[i].path);
  }

  /** The databases' steps stand one after the other, in the order of the databases. */
  lemma {:induction false} PlannedInOrder(c: Catalogue, dbs: seq<string>, want: Wanted, i: nat)
    requires i < |dbs| && StepsOfAll(c, dbs, want).Ok?
    ensures ChainOf(c, dbs[i], want.moment).Ok? && StepsOfAll(c, dbs[..i], want).Ok?
    ensures StepsOfAll(c, dbs[..i + 1], want).Ok?
    ensures StepsOfAll(c, dbs[..i + 1], want).value ==
      StepsOfAll(c, dbs[..i], want).value + StepsOf(dbs[i], ChainOf(c, dbs[i], want.moment).value, want)
    ensures StepsOfAll(c, dbs[..i + 1], want).value <= StepsOfAll(c, dbs, want).value
    ensures StepsOfAll(c, [], want).value == []
  {
    var last := |dbs| - 1;
    if i < last {
      PlannedInOrder(c, dbs[..last], want, i);
      assert dbs[..last][..i] == dbs[..i] && dbs[..last][..i + 1] == dbs[..i + 1];
    } else {
      assert dbs[..i + 1] == dbs;
    }
  }

  ghost predicate OnlyTheLastEnds(kept: seq<Listed>, moment: nat) {
    forall i :: 0 <= i < |kept| - 1 ==> !Ends(kept[i], moment)
  }

  lemma {:induction false} ThroughKeeps(files: seq<Listed>, moment: nat)
    ensures OnlyTheLastEnds(ThroughMoment(files, moment), moment)
  {
    if files != [] && !Ends(files[0], moment) {
      var rest := ThroughMoment(files[1..], moment);
      ThroughKeeps(files[1..], moment);
      var kept := [files[0]] + rest;
      forall i | 0 <= i < |kept| - 1 ensures !Ends(kept[i], moment) {
        if i > 0 { assert kept[i] == rest[i - 1]; }
      }
    }
  }

  // ---------------------------------------------------------------- what the plan does

  /** A database on the target, and the full it was restored from. */
  datatype Restored = Restored(db: L.Db, base: nat)

  /** The target's databases, and whether they were checked. */
  datatype Target = Target(dbs: map<string, Restored>, checked: bool)

  /** What each file really holds. */
  type Media = string -> Header

  function At(recover: bool, at: nat): L.Db {
    if recover then L.Online(at) else L.Restoring(at)
  }

  predicate OnlineIn(t: Target, db: string) {
    db in t.dbs && t.dbs[db].db.Online?
  }

  /** The logs of one step, in order; the last stops at the moment and recovers. One that does not apply fails the
      whole step. */
  function Roll(media: Media, db: L.Db, paths: seq<string>, stopAt: Option<nat>): Option<L.Db>
    decreases |paths|
  {
    if paths == [] then Some(db) else
      var h := media(paths[0]);
      var log, stop := L.Log(paths[0], h.first, h.last), if |paths| == 1 then stopAt else None;
      var (after, reply) := L.Restore(L.Server(db, [], 0), log, stop);
      if reply.Done? then Roll(media, after.db, paths[1..], stopAt) else None
  }

  /** One step on the target; None when it fails. A full is refused over a database that is online unless it may
      overwrite it; a differential goes onto its own full, logs onto a database still restoring; and the check, which
      comes after every restore, fails when a database is not online. */
  function Act(media: Media, t: Target, step: Step): Option<Target> {
    match step
    case RestoreKey => Some(t)
    case RestoreFull(db, path, recover, overwrite) =>
      if t.checked || (OnlineIn(t, db) && !overwrite) then None
      else Some(t.(dbs := t.dbs[db := Restored(At(recover, media(path).last), media(path).checkpoint)]))
    case RestoreDiff(db, path, recover) =>
      if t.checked || db !in t.dbs || !t.dbs[db].db.Restoring? || media(path).base != t.dbs[db].base then None
      else Some(t.(dbs := t.dbs[db := t.dbs[db].(db := At(recover, media(path).last))]))
    case RestoreLogs(db, paths, stopAt) =>
      if t.checked || db !in t.dbs || paths == [] then None
      else
        var rolled := Roll(media, t.dbs[db].db, paths, stopAt);
        if rolled.None? then None
        else
          var ended := if stopAt.None? then L.Recovered(rolled.value) else rolled.value;
          Some(t.(dbs := t.dbs[db := t.dbs[db].(db := ended)]))
    case VerifyRestore(dbs) =>
      if forall d :: d in dbs ==> OnlineIn(t, d) then Some(t.(checked := true)) else None
    case Warning(_) => Some(t)
  }

  function Acts(media: Media, t: Option<Target>, steps: seq<Step>): Option<Target>
    decreases |steps|
  {
    if t.None? || steps == [] then t else Acts(media, Act(media, t.value, steps[0]), steps[1..])
  }

  lemma {:induction false} ActsInTurn(media: Media, t: Option<Target>, a: seq<Step>, b: seq<Step>)
    ensures Acts(media, t, a + b) == Acts(media, Acts(media, t, a), b)
    decreases |a|
  {
    if a == [] {
      assert a + b == b;
    } else if t.Some? {
      assert (a + b)[0] == a[0] && (a + b)[1..] == a[1..] + b;
      ActsInTurn(media, Act(media, t.value, a[0]), a[1..], b);
    }
  }

  // ---------------------------------------------------------------- where one database ends

  /** The listing's headers are given, and say what the files hold. */
  ghost predicate Truthful(media: Media, chain: DbChain) {
    && media(chain.full.path) == chain.full.header && chain.full.header.last > 0 && chain.full.header.checkpoint > 0
    && (chain.diff.Some? ==> media(chain.diff.value.path) == chain.diff.value.header && chain.diff.value.header.last > 0
                             && chain.diff.value.header.base > 0)
    && LogsGiven(chain.logs) && TruthfulLogs(media, chain.logs)
  }

  ghost predicate TruthfulLogs(media: Media, logs: seq<Listed>) {
    forall i :: 0 <= i < |logs| ==> media(logs[i].path) == logs[i].header
  }

  /** Each log ends after where the one before it ended. */
  predicate Rising(end: nat, logs: seq<Listed>)
    decreases |logs|
  {
    logs == [] || (logs[0].header.last > end && Rising(logs[0].header.last, logs[1..]))
  }

  /** Where the database stands before the last of the logs. */
  function EndBefore(end: nat, logs: seq<Listed>): nat
    decreases |logs|
  {
    if |logs| <= 1 then end else EndBefore(logs[0].header.last, logs[1..])
  }

  function EndOf(chain: DbChain): nat {
    AnchorEnd(chain.full, chain.diff)
  }

  /** What the listing shows of a chain whose restore ends with the database online: it has no logs, or every log
      ends after the one before it and the last one spans the moment. */
  predicate Lands(chain: DbChain, moment: Option<nat>) {
    chain.logs == [] || LogsLand(EndOf(chain), chain.logs, moment)
  }

  predicate LogsLand(end: nat, logs: seq<Listed>, moment: Option<nat>)
    requires logs != []
  {
    Rising(end, logs) && (moment.Some? ==> EndBefore(end, logs) <= moment.value <= logs[|logs| - 1].header.last)
  }

  /** Where it then stands: at the moment, or at the end of its chain. */
  function LandsAt(chain: DbChain, moment: Option<nat>): nat {
    if chain.logs == [] then EndOf(chain)
    else if moment.Some? then moment.value else chain.logs[|chain.logs| - 1].header.last
  }

  /** Logs without a break, rolled: online exactly when they land, and otherwise failed or still restoring. */
  lemma {:induction false} RollExactly(media: Media, end: nat, logs: seq<Listed>, started: bool, stopAt: Option<nat>)
    requires logs != [] && end > 0 && LogsGiven(logs) && TruthfulLogs(media, logs) && LogBreak(logs, end, started).None?
    ensures var rolled, last := Roll(media, L.Restoring(end), PathsOf(logs), stopAt), logs[|logs| - 1].header.last;
      if LogsLand(end, logs, stopAt)
      then rolled == Some(if stopAt.Some? then L.Online(stopAt.value) else L.Restoring(last))
      else rolled.None? || (stopAt.Some? && rolled == Some(L.Restoring(last)))
    decreases |logs|
  {
    var h, paths := logs[0].header, PathsOf(logs);
    assert media(paths[0]) == h && paths[1..] == PathsOf(logs[1..]) && |paths| == |logs|;
    if |logs| > 1 {
      assert LogsGiven(logs[1..]) && TruthfulLogs(media, logs[1..]) by {
        assert forall i :: 0 <= i < |logs[1..]| ==> logs[1..][i] == logs[i + 1];
      }
      if h.last > end { RollExactly(media, h.last, logs[1..], true, stopAt); }
    } else {
      assert paths[1..] == [] && logs[1..] == [] && Rising(h.last, []);
    }
  }

  /** The target with one database restored as `db` from the chain's full. */
  function With(t: Target, name: string, chain: DbChain, db: L.Db): Target {
    t.(dbs := t.dbs[name := Restored(db, chain.full.header.checkpoint)])
  }

  /** One database's steps ended as its chain says: online where it lands, and otherwise failed or still restoring. */
  ghost predicate EndedAsChained(t: Target, after: Option<Target>, name: string, chain: DbChain, moment: Option<nat>) {
    if Lands(chain, moment) then after == Some(With(t, name, chain, L.Online(LandsAt(chain, moment))))
    else after.None? || exists at: nat :: after == Some(With(t, name, chain, L.Restoring(at)))
  }

  function LogSteps(db: string, chain: DbChain, want: Wanted): seq<Step> {
    if chain.logs != [] then [RestoreLogs(db, PathsOf(chain.logs), want.moment)] else []
  }

  /** The full, and its differential if there is one, take the database to where the logs begin. */
  lemma ToTheAnchor(media: Media, t: Target, db: string, chain: DbChain, want: Wanted)
    requires !t.checked && Truthful(media, chain) && ChainBreak(chain.full, chain.diff, chain.logs).None?
    requires OnlineIn(t, db) ==> want.overwrite
    ensures Acts(media, Some(t), StepsOf(db, chain, want))
         == Acts(media, Some(With(t, db, chain, At(chain.logs == [], EndOf(chain)))), LogSteps(db, chain, want))
  {
    var full, tail := StepsOf(db, chain, want)[0], LogSteps(db, chain, want);
    var t1 := Act(media, t, full).value;
    match chain.diff
    case None =>
      assert StepsOf(db, chain, want)[1..] == tail;
    case Some(diff) =>
      var step := RestoreDiff(db, diff.path, chain.logs == []);
      assert StepsOf(db, chain, want)[1..] == [step] + tail;
      assert ([step] + tail)[1..] == tail;
      assert Act(media, t1, step).value.dbs == With(t, db, chain, At(chain.logs == [], EndOf(chain))).dbs;
  }

  /** One database's steps fail on one that is online and may not be overwritten; otherwise they leave it online
      exactly when its chain lands, and touch no other. */
  lemma OneDatabase(media: Media, t: Target, db: string, chain: DbChain, want: Wanted)
    requires !t.checked && Truthful(media, chain) && ChainBreak(chain.full, chain.diff, chain.logs).None?
    ensures var after := Acts(media, Some(t), StepsOf(db, chain, want));
      if OnlineIn(t, db) && !want.overwrite then after.None? else EndedAsChained(t, after, db, chain, want.moment)
  {
    if !(OnlineIn(t, db) && !want.overwrite) {
      ToTheAnchor(media, t, db, chain, want);
      if chain.logs != [] { LastLogs(media, t, db, chain, want); }
    }
  }

  lemma LastLogs(media: Media, t: Target, db: string, chain: DbChain, want: Wanted)
    requires !t.checked && Truthful(media, chain) && ChainBreak(chain.full, chain.diff, chain.logs).None?
    requires chain.logs != []
    ensures var step := RestoreLogs(db, PathsOf(chain.logs), want.moment);
      var after := Acts(media, Some(With(t, db, chain, L.Restoring(EndOf(chain)))), [step]);
      EndedAsChained(t, after, db, chain, want.moment)
  {
    var step, last := RestoreLogs(db, PathsOf(chain.logs), want.moment), With(t, db, chain, L.Restoring(EndOf(chain)));
    RollExactly(media, EndOf(chain), chain.logs, false, want.moment);
    assert [step][1..] == [];
    assert Acts(media, Some(last), [step]) == Acts(media, Act(media, last, step), []);
    var rolled := Roll(media, L.Restoring(EndOf(chain)), PathsOf(chain.logs), want.moment);
    if rolled.Some? {
      var ended := if want.moment.None? then L.Recovered(rolled.value) else rolled.value;
      assert last.dbs[db := Restored(ended, chain.full.header.checkpoint)] == With(t, db, chain, ended).dbs;
      assert Act(media, last, step) == Some(With(t, db, chain, ended));
    }
  }

  /** Where the listing is of backups that finished no earlier than they end: the plan's chain under a moment lands
      exactly when its logs rise and the last of them reaches the moment. */
  lemma LandsByItsLastLog(c: Catalogue, db: string, moment: nat)
    requires ChainOf(c, db, Some(moment)).Ok?
    requires var chain := ChainOf(c, db, Some(moment)).value;
      && EndOf(chain) <= moment
      && forall i :: 0 <= i < |chain.logs| ==>
        chain.logs[i].finished.Some? && chain.logs[i].header.last <= chain.logs[i].finished.value
    ensures var chain := ChainOf(c, db, Some(moment)).value;
      Lands(chain, Some(moment)) <==> (
        chain.logs == [] || (Rising(EndOf(chain), chain.logs) && chain.logs[|chain.logs| - 1].header.last >= moment))
  {
    var chain := ChainOf(c, db, Some(moment)).value;
    ChainChosen(c, db, Some(moment));
    EndBeforeIs(EndOf(chain), chain.logs);
  }

  lemma {:induction false} EndBeforeIs(end: nat, logs: seq<Listed>)
    ensures EndBefore(end, logs) == if |logs| <= 1 then end else logs[|logs| - 2].header.last
    decreases |logs|
  {
    if |logs| > 1 {
      EndBeforeIs(logs[0].header.last, logs[1..]);
      assert |logs| > 2 ==> logs[1..][|logs| - 3] == logs[|logs| - 2];
    }
  }

  // ---------------------------------------------------------------- where the plan ends

  ghost predicate AllTruthful(c: Catalogue, media: Media, dbs: seq<string>, want: Wanted) {
    forall d :: d in dbs && ChainOf(c, d, want.moment).Ok? ==> Truthful(media, ChainOf(c, d, want.moment).value)
  }

  /** Every listed chain lands. */
  predicate AllLand(c: Catalogue, dbs: seq<string>, want: Wanted) {
    forall d :: d in dbs && ChainOf(c, d, want.moment).Ok? ==> Lands(ChainOf(c, d, want.moment).value, want.moment)
  }

  /** No database is online when its full comes: none is at the start, and none is stated twice. */
  ghost predicate NoneInTheWay(t: Target, dbs: seq<string>) {
    NoDuplicates(dbs) && forall d :: d in dbs ==> !OnlineIn(t, d)
  }

  /** Of one database: online exactly when it was planned and its chain lands, and then where it lands; any other is as
      it was. */
  ghost predicate DbAsPlanned(c: Catalogue, t: Target, after: Target, dbs: seq<string>, want: Wanted, d: string) {
    if d in dbs then
      var chain := ChainOf(c, d, want.moment);
      && chain.Ok? && d in after.dbs && (OnlineIn(after, d) <==> Lands(chain.value, want.moment))
      && (OnlineIn(after, d) ==> after.dbs[d].db.at == LandsAt(chain.value, want.moment))
    else OnlineIn(after, d) <==> OnlineIn(t, d)
  }

  ghost predicate AsPlanned(c: Catalogue, t: Target, after: Target, dbs: seq<string>, want: Wanted) {
    !after.checked && forall d :: DbAsPlanned(c, t, after, dbs, want, d)
  }

  lemma NextDatabase(c: Catalogue, media: Media, t: Target, mid: Target, before: seq<string>, db: string, want: Wanted)
    requires AsPlanned(c, t, mid, before, want) && ChainOf(c, db, want.moment).Ok?
    requires Truthful(media, ChainOf(c, db, want.moment).value)
    ensures var chain := ChainOf(c, db, want.moment).value;
      var after := Acts(media, Some(mid), StepsOf(db, chain, want));
      && (after.Some? ==> AsPlanned(c, t, after.value, before + [db], want))
      && (OnlineIn(mid, db) && !want.overwrite ==> after.None?)
      && (!(OnlineIn(mid, db) && !want.overwrite) && Lands(chain, want.moment) ==> after.Some?)
  {
    var chain := ChainOf(c, db, want.moment).value;
    OneDatabase(media, mid, db, chain, want);
    var after := Acts(media, Some(mid), StepsOf(db, chain, want));
    if after.Some? {
      forall d ensures DbAsPlanned(c, t, after.value, before + [db], want, d) {
        assert DbAsPlanned(c, t, mid, before, want, d);
        assert d in before + [db] <==> d in before || d == db;
      }
    }
  }

  lemma {:induction false} EveryDatabase(c: Catalogue, media: Media, t: Target, dbs: seq<string>, want: Wanted)
    requires !t.checked && StepsOfAll(c, dbs, want).Ok? && AllTruthful(c, media, dbs, want)
    ensures var after := Acts(media, Some(t), StepsOfAll(c, dbs, want).value);
      && (after.Some? ==> AsPlanned(c, t, after.value, dbs, want))
      && (AllLand(c, dbs, want) ==> (after.Some? <==> want.overwrite || NoneInTheWay(t, dbs)))
  {
    if dbs != [] {
      var before, db := dbs[..|dbs| - 1], dbs[|dbs| - 1];
      assert dbs == before + [db];
      EveryDatabase(c, media, t, before, want);
      var steps := StepsOfAll(c, before, want).value;
      ActsInTurn(media, Some(t), steps, StepsOf(db, ChainOf(c, db, want.moment).value, want));
      var mid := Acts(media, Some(t), steps);
      if mid.Some? { NextDatabase(c, media, t, mid.value, before, db, want); }
      if AllLand(c, dbs, want) { InTheWayNext(c, t, mid, before, db, want); }
    }
  }

  /** With every chain landing, the last database's full meets it online exactly when it was so at the start or is
      stated before. */
  lemma InTheWayNext(c: Catalogue, t: Target, mid: Option<Target>, before: seq<string>, db: string, want: Wanted)
    requires AllLand(c, before + [db], want)
    requires mid.Some? ==> AsPlanned(c, t, mid.value, before, want)
    requires mid.Some? <==> want.overwrite || NoneInTheWay(t, before)
    ensures AllLand(c, before, want)
    ensures NoneInTheWay(t, before + [db]) <==> NoneInTheWay(t, before) && db !in before && !OnlineIn(t, db)
    ensures mid.Some? ==> (OnlineIn(mid.value, db) <==> db in before || OnlineIn(t, db))
  {
    var dbs := before + [db];
    assert dbs[..|dbs| - 1] == before;
    LastOfDistinct(dbs);
    forall d ensures d in dbs <==> d in before || d == db {}
    if mid.Some? { assert DbAsPlanned(c, t, mid.value, before, want, db); }
  }

  lemma LastOfDistinct(dbs: seq<string>)
    requires dbs != []
    ensures NoDuplicates(dbs) <==> NoDuplicates(dbs[..|dbs| - 1]) && dbs[|dbs| - 1] !in dbs[..|dbs| - 1]
  {
    var before, db := dbs[..|dbs| - 1], dbs[|dbs| - 1];
    if NoDuplicates(before) && db !in before {
      forall i, j | 0 <= i < j < |dbs| ensures dbs[i] != dbs[j] {
        assert before[i] == dbs[i];
        if j < |before| { assert before[j] == dbs[j]; }
      }
    }
    if NoDuplicates(dbs) {
      forall i, j | 0 <= i < j < |before| ensures before[i] != before[j] { assert dbs[i] != dbs[j]; }
    }
  }

  /** The generated plan runs to its end - every database online where its chain lands, and checked after all of
      them - exactly when every chain lands, and no full comes to a database online unless it may overwrite it. */
  lemma {:induction false} PlanRunsExactly(c: Catalogue, media: Media, t: Target, dbs: seq<string>, key: bool,
                                           want: Wanted)
    requires !t.checked && StepsOfAll(c, dbs, want).Ok? && AllTruthful(c, media, dbs, want)
    ensures var plan := (if key then [RestoreKey] else []) + StepsOfAll(c, dbs, want).value + Tail(c, dbs);
      var after := Acts(media, Some(t), plan);
      && (after.Some? <==> AllLand(c, dbs, want) && (want.overwrite || NoneInTheWay(t, dbs)))
      && (after.Some? ==> after.value.checked && AsPlanned(c, t, after.value.(checked := false), dbs, want))
  {
    var first, steps := if key then [RestoreKey] else [], StepsOfAll(c, dbs, want).value;
    ActsInTurn(media, Some(t), first + steps, Tail(c, dbs));
    ActsInTurn(media, Some(t), first, steps);
    if key {
      assert first[1..] == [];
      assert Acts(media, Some(t), first) == Acts(media, Act(media, t, RestoreKey), []);
    }
    EveryDatabase(c, media, t, dbs, want);
    var mid := Acts(media, Some(t), steps);
    if mid.Some? {
      TailChecks(c, media, mid.value, dbs);
      forall d | d in dbs 
        ensures ChainOf(c, d, want.moment).Ok?
        ensures OnlineIn(mid.value, d) <==> Lands(ChainOf(c, d, want.moment).value, want.moment)
      {
        assert DbAsPlanned(c, t, mid.value, dbs, want, d);
      }
    }
  }

  lemma TailChecks(c: Catalogue, media: Media, t: Target, dbs: seq<string>)
    ensures Acts(media, Some(t), Tail(c, dbs)) ==
      if forall d :: d in dbs ==> OnlineIn(t, d) then Some(t.(checked := true)) else None
  {
    var tail, done := Tail(c, dbs), t.(checked := true);
    assert Acts(media, Some(t), tail) == Acts(media, Act(media, t, VerifyRestore(dbs)), tail[1..]);
    if c.unreadable > 0 {
      assert tail[1..] == [Warning(c.unreadable)];
      assert [Warning(c.unreadable)][1..] == [];
      assert Acts(media, Some(done), tail[1..]) == Acts(media, Act(media, done, Warning(c.unreadable)), []);
    } else {
      assert tail[1..] == [];
    }
  }

  const PAST_FULL := Listed("f.bak", Some(10), Header(1, 10, 5, 0))

  const PAST_LOG := Listed("l.trn", Some(20), Header(10, 20, 0, 0))

  /** A moment past the last log: the log is kept and the chain holds, and its database is left restoring at the log's
      end, so that the plan's check fails. */
  lemma StoppedPastTheLastLog(media: Media)
    requires media("f.bak") == PAST_FULL.header && media("l.trn") == PAST_LOG.header
    ensures ThroughMoment([PAST_LOG], 25) == [PAST_LOG] && ChainBreak(PAST_FULL, None, [PAST_LOG]).None?
    ensures Acts(media, Some(Target(map[], false)),
        StepsOf("A", DbChain(PAST_FULL, None, [PAST_LOG]), Wanted(Some(25), false)))
         == Some(Target(map["A" := Restored(L.Restoring(20), 5)], false))
  {
    var steps := StepsOf("A", DbChain(PAST_FULL, None, [PAST_LOG]), Wanted(Some(25), false));
    var logs, t0 := RestoreLogs("A", ["l.trn"], Some(25)), Target(map[], false);
    assert [PAST_LOG][1..] == [] && AnchorEnd(PAST_FULL, None) == 10;
    assert LogBreak([PAST_LOG], 10, false) == LogBreak([PAST_LOG][1..], 20, true);
    var t1 := Target(map["A" := Restored(L.Restoring(10), 5)], false);
    assert PathsOf([PAST_LOG]) == ["l.trn"] && [PAST_LOG][1..] == [] && ["l.trn"][1..] == [];
    assert steps[0] == RestoreFull("A", "f.bak", false, false) && steps[1..] == [logs] && [logs][1..] == [];
    assert Act(media, t0, steps[0]) == Some(t1);
    assert Roll(media, L.Restoring(10), ["l.trn"], Some(25)) == Some(L.Restoring(20));
    assert t1.dbs["A" := Restored(L.Restoring(20), 5)] == map["A" := Restored(L.Restoring(20), 5)];
    assert Act(media, t1, logs) == Some(Target(map["A" := Restored(L.Restoring(20), 5)], false));
    assert Acts(media, Some(t1), [logs]) == Acts(media, Act(media, t1, logs), []);
    assert Acts(media, Some(t0), steps) == Acts(media, Act(media, t0, steps[0]), [logs]);
  }

  // ---------------------------------------------------------------- recovered once, and last

  predicate Touches(step: Step, db: string) {
    (step.RestoreFull? || step.RestoreDiff? || step.RestoreLogs?) && step.db == db
  }

  /** No full of this database may overwrite it while it is online. */
  predicate NeverOverwrites(steps: seq<Step>, db: string) {
    forall i :: 0 <= i < |steps| ==> steps[i].RestoreFull? && steps[i].db == db ==> !steps[i].overwrite
  }

  /** Whatever list of steps runs: a database online is not touched. */
  lemma {:induction false} RecoveredIsLeftAlone(media: Media, t: Target, steps: seq<Step>, db: string)
    requires OnlineIn(t, db) && NeverOverwrites(steps, db) && Acts(media, Some(t), steps).Some?
    ensures forall i :: 0 <= i < |steps| ==> !Touches(steps[i], db)
    ensures forall n :: 0 <= n <= |steps| ==>
      var after := Acts(media, Some(t), steps[..n]); after.Some? && OnlineIn(after.value, db)
    decreases |steps|
  {
    if steps == [] {
      assert steps[..0] == [];
    } else {
      var next, rest := Act(media, t, steps[0]).value, steps[1..];
      assert NeverOverwrites(rest, db) by { assert forall i :: 0 <= i < |rest| ==> rest[i] == steps[i + 1]; }
      RecoveredIsLeftAlone(media, next, rest, db);
      assert forall i :: 0 < i < |steps| ==> steps[i] == rest[i - 1];
      forall n | 0 <= n <= |steps|
        ensures var after := Acts(media, Some(t), steps[..n]); after.Some? && OnlineIn(after.value, db)
      {
        if n > 0 { assert steps[..n][1..] == rest[..n - 1] && steps[..n][0] == steps[0]; }
      }
    }
  }

  /** Whatever list of steps runs and leaves a database online: one step brings it online, it is online after no
      earlier step and after every later one, and no later step touches it. */
  lemma {:induction false} RecoveredOnceAndLast(media: Media, t: Target, steps: seq<Step>, db: string) returns (k: nat)
    requires !OnlineIn(t, db) && NeverOverwrites(steps, db)
    requires var after := Acts(media, Some(t), steps); after.Some? && OnlineIn(after.value, db)
    ensures k < |steps| && Touches(steps[k], db) && forall i :: k < i < |steps| ==> !Touches(steps[i], db)
    ensures forall n :: 0 <= n <= |steps| ==>
      var after := Acts(media, Some(t), steps[..n]); after.Some? && (OnlineIn(after.value, db) <==> n > k)
    decreases |steps|
  {
    var next, rest := Act(media, t, steps[0]).value, steps[1..];
    assert NeverOverwrites(rest, db) by { assert forall i :: 0 <= i < |rest| ==> rest[i] == steps[i + 1]; }
    assert forall i :: 0 < i < |steps| ==> steps[i] == rest[i - 1];
    if OnlineIn(next, db) {
      RecoveredIsLeftAlone(media, next, rest, db);
      k := 0;
    } else {
      k := RecoveredOnceAndLast(media, next, rest, db);
      k := k + 1;
    }
    forall n | 0 <= n <= |steps|
      ensures var after := Acts(media, Some(t), steps[..n]); after.Some? && (OnlineIn(after.value, db) <==> n > k)
    {
      if n > 0 { assert steps[..n][1..] == rest[..n - 1] && steps[..n][0] == steps[0]; }
    }
  }

  /** A plan that may not overwrite and runs to its end brings each of its databases online once, in the last step
      that touches it. */
  lemma {:induction false} PlanRecoversEachOnce(c: Catalogue, media: Media, t: Target, dbs: seq<string>, key: bool,
                                                want: Wanted, db: string)
    returns (k: nat)
    requires !t.checked && StepsOfAll(c, dbs, want).Ok? && AllTruthful(c, media, dbs, want)
    requires AllLand(c, dbs, want) && !want.overwrite && NoneInTheWay(t, dbs) && db in dbs
    ensures var plan := (if key then [RestoreKey] else []) + StepsOfAll(c, dbs, want).value + Tail(c, dbs);
      && k < |plan| && Touches(plan[k], db) && (forall i :: k < i < |plan| ==> !Touches(plan[i], db))
      && forall n :: 0 <= n <= |plan| ==>
        var after := Acts(media, Some(t), plan[..n]); after.Some? && (OnlineIn(after.value, db) <==> n > k)
  {
    var plan := (if key then [RestoreKey] else []) + StepsOfAll(c, dbs, want).value + Tail(c, dbs);
    PlanRunsExactly(c, media, t, dbs, key, want);
    AsWanted(c, dbs, want);
    k := RecoveredOnceAndLast(media, t, plan, db);
  }

  lemma {:induction false} AsWanted(c: Catalogue, dbs: seq<string>, want: Wanted)
    requires StepsOfAll(c, dbs, want).Ok?
    ensures forall i :: 0 <= i < |StepsOfAll(c, dbs, want).value| ==>
      StepsOfAll(c, dbs, want).value[i].RestoreFull? ==> StepsOfAll(c, dbs, want).value[i].overwrite == want.overwrite
  {
    if dbs != [] { AsWanted(c, dbs[..|dbs| - 1], want); }
  }

  // ---------------------------------------------------------------- the walk over the steps

  /** How one step ended: done, or the check answered that some databases cannot be used, or it raised. */
  datatype Ending = Finished | Unusable(count: nat) | Threw

  datatype Walk = Walk(executed: seq<Step>, warnings: nat, verified: bool, raised: bool, pruned: bool)

  ghost predicate PassesThrough(steps: seq<Step>, ending: nat -> Ending, i: nat)
    requires i < |steps|
  {
    forall j :: 0 <= j <= i ==> Passes(steps[j], ending(j))
  }

  /** Every step before the `k`th passed and it did not; what was run is every step up to it that the walk runs. */
  ghost predicate RaisedAt(steps: seq<Step>, ending: nat -> Ending, executed: seq<Step>, k: nat)
    requires k < |steps|
  {
    && executed == Executable(steps[..k + 1]) && !Passes(steps[k], ending(k))
    && forall i :: 0 <= i < k ==> Passes(steps[i], ending(i))
  }

  /** The steps in order; a step run while planning is not run again, and the staged files are pruned only after
      the last of them. A step that raises ends the walk; so does a check that finds a database it cannot use. */
  method WalkSteps(steps: seq<Step>, ending: nat -> Ending, staged: bool) returns (w: Walk)
    ensures !w.raised ==> w.executed == Executable(steps)
    ensures !w.raised ==> Sifted(w.executed, steps, (s: Step) => !s.Warning? && !s.RestoreKey?)
    ensures !w.raised <==> forall i :: 0 <= i < |steps| ==>
      match steps[i]
      case RestoreKey => true
      case Warning(_) => true
      case VerifyRestore(_) => ending(i).Finished?
      case _ => !ending(i).Threw?
    ensures w.raised ==> exists k :: 0 <= k < |steps| && RaisedAt(steps, ending, w.executed, k)
    ensures !w.raised ==> (w.warnings > 0 <==> exists s :: s in steps && s.Warning?)
    ensures w.pruned <==> !w.raised && staged
    ensures w.verified <==> exists i :: 0 <= i < |steps| && steps[i].VerifyRestore? && PassesThrough(steps, ending, i)
  {
    w := Walk([], 0, false, false, false);
    for i := 0 to |steps|
      invariant !w.raised && !w.pruned && w.executed == Executable(steps[..i])
      invariant forall j :: 0 <= j < i ==> Passes(steps[j], ending(j))
      invariant w.verified <==> exists j :: 0 <= j < i && steps[j].VerifyRestore?
      invariant w.warnings > 0 <==> exists j :: 0 <= j < i && steps[j].Warning?
    {
      var step := steps[i];
      assert steps[..i + 1][..i] == steps[..i];
      if step.Warning? {
        w := w.(warnings := w.warnings + 1);
      } else if !step.RestoreKey? {
        if !Passes(step, ending(i)) {
          w := w.(executed := w.executed + [step], raised := true);
          assert RaisedAt(steps, ending, w.executed, i);
          return;
        }
        w := w.(executed := w.executed + [step], verified := w.verified || step.VerifyRestore?);
      }
    }
    assert steps[..|steps|] == steps;
    ExecutableSifts(steps);
    w := w.(pruned := staged);
  }

  lemma {:induction false} ExecutableSifts(steps: seq<Step>)
    ensures Sifted(Executable(steps), steps, (s: Step) => !s.Warning? && !s.RestoreKey?)
  {
    var runs := (s: Step) => !s.Warning? && !s.RestoreKey?;
    if steps != [] {
      var k := |steps| - 1;
      ExecutableSifts(steps[..k]);
      SiftedNext(Executable(steps[..k]), steps, k, runs);
      assert steps[..k + 1] == steps;
    }
  }

  /** The steps the walk runs itself. */
  function Executable(steps: seq<Step>): seq<Step> {
    if steps == [] then [] else
      var before, last := Executable(steps[..|steps| - 1]), steps[|steps| - 1];
      if last.Warning? || last.RestoreKey? then before else before + [last]
  }

  /** A restore step must finish; the check must also find nothing unusable. */
  predicate Passes(step: Step, ending: Ending) {
    step.Warning? || step.RestoreKey? || ending.Finished? || (ending.Unusable? && !step.VerifyRestore?)
  }
}

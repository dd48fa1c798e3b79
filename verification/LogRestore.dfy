/** The transaction logs of one database, restored over a connection that may break: what each log does to
    the database, which failures are sent again, and when a lost answer may be taken as done. */
module LogRestore {
  import opened Basics

  /** A log backup covers the moments after `first` up to `last`. */
  datatype Log = Log(file: string, first: nat, last: nat)

  /** A database and the moment it stands at. */
  datatype Db = Absent | Restoring(at: nat) | Online(at: nat)

  /** One restored log in the server's history, whichever restore wrote it. */
  datatype Row = Row(file: string, files: nat)

  /** The server as this database sees it, and how many batches it was sent. */
  datatype Server = Server(db: Db, history: seq<Row>, sent: nat)

  datatype Reply = Done | TooRecent | TooEarly | Rejected

  /** RESTORE LOG. A log applies when it starts at or before the database's position and ends after it; one that
      stops inside itself recovers the database, one that ends before the asked moment leaves it restoring. */
  function Restore(s: Server, log: Log, stopAt: Option<nat>): (Server, Reply) {
    if !s.db.Restoring? then (s, Rejected)
    else if log.first > s.db.at then (s, TooRecent)
    else if log.last <= s.db.at then (s, TooEarly)
    else if stopAt.Some? && stopAt.value < s.db.at then (s, Rejected)
    else
      var db := if stopAt.Some? && stopAt.value <= log.last then Online(stopAt.value) else Restoring(log.last);
      (s.(db := db, history := s.history + [Row(log.file, 1)]), Done)
  }

  // ---------------------------------------------------------------- the connection

  /** What becomes of one batch: the login never happened (the text may name a reset as well), it was answered,
      the connection or the time ran out with the batch run or not, or it failed in any other way. */
  datatype Fate = NotStarted(torn: bool) | Answered | Lost(ran: bool) | Broken(ran: bool)

  /** The fate of each batch sent, and each look at the server's sessions: unreadable, or whether a restore runs. */
  datatype Wire = Wire(fate: nat -> Fate, looks: nat -> Option<bool>)

  datatype Answer = Told(reply: Reply) | NeverStarted(torn: bool) | Ambiguous | Failed

  function Dispatched(s: Server, log: Log, stopAt: Option<nat>, w: Wire): (Server, Answer) {
    var (after, reply) := Restore(s, log, stopAt);
    match w.fate(s.sent)
    case NotStarted(torn) => (s.(sent := s.sent + 1), NeverStarted(torn))
    case Answered => (after.(sent := s.sent + 1), Told(reply))
    case Lost(ran) => ((if ran then after else s).(sent := s.sent + 1), Ambiguous)
    case Broken(ran) => ((if ran then after else s).(sent := s.sent + 1), Failed)
  }

  const ATTEMPTS: nat := 3

  /** A batch is sent again only when the one before never started. */
  function Sent(s: Server, log: Log, stopAt: Option<nat>, w: Wire, attempt: nat): (Server, Answer)
    decreases ATTEMPTS - attempt
  {
    var (t, answer) := Dispatched(s, log, stopAt, w);
    if !answer.NeverStarted? then (t, answer)
    else if attempt < ATTEMPTS then Sent(t, log, stopAt, w, attempt + 1)
    else (t, if answer.torn then Ambiguous else Failed)
  }

  predicate NewestRowIs(s: Server, log: Log) {
    s.history != [] && s.history[|s.history| - 1].files > 0 && s.history[|s.history| - 1].file == log.file
  }

  /** The resume check: nothing runs, and the newest log the history holds for this database is this one. */
  predicate Confirms(s: Server, log: Log, w: Wire) {
    w.looks(s.sent) == Some(false) && NewestRowIs(s, log)
  }

  datatype Step = Applied | Resumed | SkippedGap | SkippedEarly | Raised

  function StepOf(answer: Answer, confirmed: bool): Step {
    match answer
    case Told(Done) => Applied
    case Told(TooRecent) => SkippedGap
    case Told(TooEarly) => SkippedEarly
    case Ambiguous => if confirmed then Resumed else Raised
    case _ => Raised
  }

  function OneLog(s: Server, log: Log, stopAt: Option<nat>, w: Wire): (Server, Step) {
    var (t, answer) := Sent(s, log, stopAt, w, 1);
    (t, StepOf(answer, Confirms(t, log, w)))
  }

  datatype LogRun = LogRun(server: Server, steps: seq<Step>)

  function StopAt(logs: seq<Log>, i: nat, moment: Option<nat>): Option<nat> {
    if i + 1 == |logs| then moment else None
  }

  /** The logs from the `i`-th on, until one raises. */
  function RunFrom(s: Server, logs: seq<Log>, i: nat, moment: Option<nat>, w: Wire): LogRun
    decreases |logs| - i
  {
    if i >= |logs| then LogRun(s, [])
    else
      var (t, step) := OneLog(s, logs[i], StopAt(logs, i, moment), w);
      if step.Raised? then LogRun(t, [Raised])
      else
        var rest := RunFrom(t, logs, i + 1, moment, w);
        LogRun(rest.server, [step] + rest.steps)
  }

  lemma RunGoesOn(s: Server, t: Server, step: Step, logs: seq<Log>, i: nat, moment: Option<nat>, w: Wire,
                  done: seq<Step>)
    requires i < |logs| && (t, step) == OneLog(s, logs[i], StopAt(logs, i, moment), w)
    ensures var run, rest := RunFrom(s, logs, i, moment, w), RunFrom(t, logs, i + 1, moment, w);
      && run.server == (if step.Raised? then t else rest.server)
      && done + run.steps == done + [step] + if step.Raised? then [] else rest.steps
  {
  }

  predicate Took(step: Step) {
    step.Applied? || step.Resumed?
  }

  predicate TookAny(steps: seq<Step>) {
    Applied in steps || Resumed in steps
  }

  lemma OneMoreStep(steps: seq<Step>, step: Step)
    ensures TookAny(steps + [step]) <==> TookAny(steps) || Took(step)
    ensures Raised in steps + [step] <==> Raised in steps || step.Raised?
  {
  }

  /** The run came back: nothing raised, and of the logs it was given it took at least one. */
  predicate Returned(steps: seq<Step>) {
    Raised !in steps && (steps == [] || TookAny(steps))
  }

  /** RESTORE ... WITH RECOVERY, only on a database still restoring. */
  function Recovered(db: Db): Db {
    if db.Restoring? then Online(db.at) else db
  }

  // ---------------------------------------------------------------- as it runs

  class Target {
    const wire: Wire
    var db: Db
    var history: seq<Row>
    var sent: nat

    constructor (wire: Wire, s: Server)
      ensures this.wire == wire && State() == s
    {
      this.wire, db, history, sent := wire, s.db, s.history, s.sent;
    }

    ghost function State(): Server
      reads this
    {
      Server(db, history, sent)
    }

    /** One batch put on the wire. */
    method Dispatch(log: Log, stopAt: Option<nat>) returns (answer: Answer)
      modifies this
      ensures (State(), answer) == Dispatched(old(State()), log, stopAt, wire)
    {
      var fate := wire.fate(sent);
      var (after, reply) := Restore(Server(db, history, sent), log, stopAt);
      if fate.Answered? || (fate.Lost? && fate.ran) || (fate.Broken? && fate.ran) {
        db, history := after.db, after.history;
      }
      sent := sent + 1;
      answer := match fate
        case NotStarted(torn) => NeverStarted(torn)
        case Answered => Told(reply)
        case Lost(_) => Ambiguous
        case Broken(_) => Failed;
    }

    /** Up to three times, while the batch never started. */
    method RunQuery(log: Log, stopAt: Option<nat>) returns (answer: Answer)
      modifies this
      ensures (State(), answer) == Sent(old(State()), log, stopAt, wire, 1)
    {
      var attempt := 1;
      answer := Dispatch(log, stopAt);
      while answer.NeverStarted? && attempt < ATTEMPTS
        invariant 1 <= attempt <= ATTEMPTS
        invariant Sent(old(State()), log, stopAt, wire, 1) == (
          if !answer.NeverStarted? then (State(), answer)
          else if attempt < ATTEMPTS then Sent(State(), log, stopAt, wire, attempt + 1)
          else (State(), if answer.torn then Ambiguous else Failed))
      {
        answer := Dispatch(log, stopAt);
        attempt := attempt + 1;
      }
      if answer.NeverStarted? {
        answer := if answer.torn then Ambiguous else Failed;
      }
    }

    /** One log, its answer read: a lost one is looked up before it may count. */
    method TryLog(log: Log, stopAt: Option<nat>) returns (step: Step)
      modifies this
      ensures (State(), step) == OneLog(old(State()), log, stopAt, wire)
    {
      var answer := RunQuery(log, stopAt);
      var newest := if history == [] then Row("", 0) else history[|history| - 1];
      step := StepOf(answer, wire.looks(sent) == Some(false) && newest.files > 0 && newest.file == log.file);
    }

    /** The logs in order. A rejected log is passed over, a lost one must be confirmed, any other failure
        ends the run. */
    method RunRestoreLog(logs: seq<Log>, moment: Option<nat>) returns (steps: seq<Step>, ok: bool)
      modifies this
      ensures LogRun(State(), steps) == RunFrom(old(State()), logs, 0, moment, wire)
      ensures ok == Returned(steps)
      ensures ok <==> Raised !in steps && (logs == [] || Applied in steps || Resumed in steps)
    {
      steps := [];
      var took := false;
      ghost var whole := RunFrom(State(), logs, 0, moment, wire);
      for i := 0 to |logs|
        invariant |steps| == i && Raised !in steps && took == TookAny(steps)
        invariant whole.server == RunFrom(State(), logs, i, moment, wire).server
        invariant whole.steps == steps + RunFrom(State(), logs, i, moment, wire).steps
      {
        ghost var before := State();
        var step := TryLog(logs[i], StopAt(logs, i, moment));
        RunGoesOn(before, State(), step, logs, i, moment, wire, steps);
        OneMoreStep(steps, step);
        steps := steps + [step];
        if step.Raised? {
          return steps, false;
        }
        took := took || Took(step);
      }
      ok := logs == [] || took;
    }

    /** Recovers a database still restoring; one already online stays as it is. */
    method RecoverIfRestoring()
      modifies `db
      ensures db == Recovered(old(db))
    {
      if db.Restoring? {
        db := Online(db.at);
      }
    }

    /** The logs of a point-in-time restore, and the recovery of what they left restoring; a run that does not come back
        is not recovered. The database never stands past the moment; and when the chain is unbroken and no stale row
        stands before it, a restore that comes back leaves it online at the very moment. */
    method RestorePointInTime(logs: seq<Log>, moment: nat) returns (ok: bool)
      modifies this
      ensures old(Within(db, moment)) && Bounded(logs, moment) ==> Within(db, moment)
      ensures ok && old(Unbroken(State(), logs, moment)) ==> db == Online(moment)
      ensures var run := RunFrom(old(State()), logs, 0, Some(moment), wire);
        ok == Returned(run.steps) && db == (if ok then Recovered(run.server.db) else run.server.db)
    {
      ghost var before := State();
      if Within(db, moment) && Bounded(logs, moment) {
        NeverPastTheMoment(before, logs, 0, moment, wire);
      }
      if Unbroken(before, logs, moment) {
        RestoredToTheMoment(before, logs, moment, wire);
      }
      var _, back := RunRestoreLog(logs, Some(moment));
      ok := back;
      if ok {
        RecoverIfRestoring();
      }
    }
  }

  // ---------------------------------------------------------------- one log

  /** At most three batches for one log, each but the last never started; and they run the log at most once. */
  lemma {:induction false} SentOnce(s: Server, log: Log, stopAt: Option<nat>, w: Wire, attempt: nat)
    requires 1 <= attempt <= ATTEMPTS
    ensures var (t, answer) := Sent(s, log, stopAt, w, attempt);
      && s.sent < t.sent <= s.sent + ATTEMPTS + 1 - attempt
      && (forall k :: s.sent <= k < t.sent - 1 ==> w.fate(k).NotStarted?)
      && ((t.db, t.history) == (s.db, s.history) || (
        && (t.db, t.history) == (Restore(s, log, stopAt).0.db, Restore(s, log, stopAt).0.history)
        && !w.fate(t.sent - 1).NotStarted? && Restore(s, log, stopAt).1.Done?))
      && !answer.NeverStarted?
      && (answer.Told? ==> answer.reply == Restore(s, log, stopAt).1)
      && (answer.Told? ==> (t.db, t.history) == (Restore(s, log, stopAt).0.db, Restore(s, log, stopAt).0.history))
    decreases ATTEMPTS - attempt
  {
    var (t, answer) := Dispatched(s, log, stopAt, w);
    if answer.NeverStarted? && attempt < ATTEMPTS {
      SentOnce(t, log, stopAt, w, attempt + 1);
    }
  }

  /** How often a batch is sent: on until one starts, and three times at most. What the last one came to is what the
      database and the history are left as, and what is answered. */
  lemma {:induction false} SentExactly(s: Server, log: Log, stopAt: Option<nat>, w: Wire, attempt: nat)
    requires 1 <= attempt <= 3
    ensures var (t, answer) := Sent(s, log, stopAt, w, attempt);
      var (after, reply) := Restore(s, log, stopAt);
      && s.sent < t.sent <= s.sent + 4 - attempt && (forall k :: s.sent <= k < t.sent - 1 ==> w.fate(k).NotStarted?)
      && var fate := w.fate(t.sent - 1);
         var ran := fate == Answered || fate == Lost(true) || fate == Broken(true);
      && (t.db, t.history) == (if ran then (after.db, after.history) else (s.db, s.history))
      && (fate.NotStarted? ==> t.sent == s.sent + 4 - attempt)
      && answer ==
           if fate == Answered then Told(reply)
           else if fate.Lost? || fate == NotStarted(true) then Ambiguous
           else Failed
    decreases 3 - attempt
  {
    var (t, answer) := Dispatched(s, log, stopAt, w);
    if answer.NeverStarted? && attempt < 3 {
      SentExactly(t, log, stopAt, w, attempt + 1);
    }
  }

  /** What one log counts as, once a batch of it started or three did not. Answered, it was restored, or passed over
      for starting too late or ending too early; lost, or torn before it started, it was restored when nothing runs on
      the server and the newest row of the history is its own; and everything else ends the run. */
  lemma StepExactly(s: Server, log: Log, stopAt: Option<nat>, w: Wire)
    ensures var (t, step) := OneLog(s, log, stopAt, w);
      var fate := w.fate(t.sent - 1);
      var late, early := s.db.Restoring? && log.first > s.db.at, s.db.Restoring? && log.last <= s.db.at;
      && s.sent < t.sent <= s.sent + 3 && (forall k :: s.sent <= k < t.sent - 1 ==> w.fate(k).NotStarted?)
      && (fate.NotStarted? ==> t.sent == s.sent + 3)
      && (step == Applied <==>
        fate == Answered && s.db.Restoring? && !late && !early && (stopAt.None? || s.db.at <= stopAt.value))
      && (step == SkippedGap <==> fate == Answered && late)
      && (step == SkippedEarly <==> fate == Answered && !late && early)
      && (step == Resumed <==>
        && fate in {Lost(true), Lost(false), NotStarted(true)} && w.looks(t.sent) == Some(false)
        && t.history != [] && t.history[|t.history| - 1].files > 0 && t.history[|t.history| - 1].file == log.file)
  {
    SentExactly(s, log, stopAt, w, 1);
  }

  /** Whether the log applies to a database at this position. */
  predicate Covers(log: Log, at: nat) {
    log.first <= at < log.last
  }

  /** One log's step on a restoring database: either it ran and moved the database, or nothing changed. */
  ghost predicate Stepped(s: Server, log: Log, stopAt: Option<nat>, t: Server, step: Step)
    requires s.db.Restoring?
  {
    && ((t.db, t.history) == (s.db, s.history) || (
      && Covers(log, s.db.at) && (stopAt.Some? ==> s.db.at <= stopAt.value)
      && t.history == s.history + [Row(log.file, 1)]
      && t.db == if stopAt.Some? && stopAt.value <= log.last then Online(stopAt.value) else Restoring(log.last)))
    && (step.Applied? ==> t.history == s.history + [Row(log.file, 1)])
    && (step.SkippedGap? ==> log.first > s.db.at && t.db == s.db && t.history == s.history)
    && (step.SkippedEarly? ==> log.first <= s.db.at && log.last <= s.db.at && t.db == s.db && t.history == s.history)
    && (step.Resumed? ==> NewestRowIs(t, log))
  }

  lemma StepOnce(s: Server, log: Log, stopAt: Option<nat>, w: Wire)
    requires s.db.Restoring?
    ensures var (t, step) := OneLog(s, log, stopAt, w); Stepped(s, log, stopAt, t, step)
  {
    SentOnce(s, log, stopAt, w, 1);
  }

  // ---------------------------------------------------------------- never past the moment

  ghost predicate Within(db: Db, moment: nat) {
    db.Absent? || db.at <= moment
  }

  /** All but the last log end at or before the moment, as the selection leaves them. */
  ghost predicate Bounded(logs: seq<Log>, moment: nat) {
    forall i :: 0 <= i < |logs| - 1 ==> logs[i].last <= moment
  }

  lemma OneLogStaysWithin(s: Server, logs: seq<Log>, i: nat, moment: nat, w: Wire)
    requires Within(s.db, moment) && Bounded(logs, moment) && i < |logs|
    ensures Within(OneLog(s, logs[i], StopAt(logs, i, Some(moment)), w).0.db, moment)
  {
    SentOnce(s, logs[i], StopAt(logs, i, Some(moment)), w, 1);
  }

  /** However the connection behaves, and whether or not the run comes back, the database never stands past the
      moment; recovering it then leaves it online at or before it. */
  lemma {:induction false} NeverPastTheMoment(s: Server, logs: seq<Log>, i: nat, moment: nat, w: Wire)
    requires Within(s.db, moment) && Bounded(logs, moment)
    ensures Within(RunFrom(s, logs, i, Some(moment), w).server.db, moment)
    ensures Within(Recovered(RunFrom(s, logs, i, Some(moment), w).server.db), moment)
    decreases |logs| - i
  {
    if i < |logs| {
      OneLogStaysWithin(s, logs, i, moment, w);
      NeverPastTheMoment(OneLog(s, logs[i], StopAt(logs, i, Some(moment)), w).0, logs, i + 1, moment, w);
    }
  }

  // ---------------------------------------------------------------- gapless, in order, once

  /** The logs, one after the other, each take the database on from where the one before left it. */
  ghost predicate Rolls(at: nat, taken: seq<Log>)
    decreases |taken|
  {
    taken == [] || (Covers(taken[0], at) && Rolls(taken[0].last, taken[1..]))
  }

  ghost function Pick(logs: seq<Log>, places: seq<nat>): seq<Log>
    requires forall k :: 0 <= k < |places| ==> places[k] < |logs|
  {
    seq(|places|, k requires 0 <= k < |places| => logs[places[k]])
  }

  ghost function RowsOf(taken: seq<Log>): seq<Row> {
    seq(|taken|, k requires 0 <= k < |taken| => Row(taken[k].file, 1))
  }

  ghost function PositionAfter(at: nat, taken: seq<Log>): nat {
    if taken == [] then at else taken[|taken| - 1].last
  }

  /** The logs a run took: places in the list, each once and in order, a gapless chain from where the database
      stood - exactly the rows its history gained. */
  ghost predicate Chain(s: Server, logs: seq<Log>, i: nat, moment: Option<nat>, t: Server, places: seq<nat>) {
    && s.db.Restoring? && Ascending(places) && (forall k :: 0 <= k < |places| ==> i <= places[k] < |logs|)
    && Rolls(s.db.at, Pick(logs, places))
    && t.history == s.history + RowsOf(Pick(logs, places))
    && (t.db == Restoring(PositionAfter(s.db.at, Pick(logs, places))) || (
      && moment.Some? && t.db == Online(moment.value) && places != [] && places[|places| - 1] == |logs| - 1
      && moment.value <= logs[|logs| - 1].last))
  }

  lemma ChainNext(s: Server, t: Server, u: Server, logs: seq<Log>, i: nat, moment: Option<nat>, later: seq<nat>)
    requires i < |logs| && s.db.Restoring? && Covers(logs[i], s.db.at)
    requires t.db == Restoring(logs[i].last) && t.history == s.history + [Row(logs[i].file, 1)]
    requires Chain(t, logs, i + 1, moment, u, later)
    ensures Chain(s, logs, i, moment, u, [i] + later)
  {
    var taken := Pick(logs, [i] + later);
    assert taken[1..] == Pick(logs, later);
    assert RowsOf(taken) == [Row(logs[i].file, 1)] + RowsOf(Pick(logs, later));
    assert t.history + RowsOf(Pick(logs, later)) == s.history + RowsOf(taken);
    assert PositionAfter(s.db.at, taken) == PositionAfter(t.db.at, Pick(logs, later));
  }

  lemma {:induction false} AppliedIsAChain(s: Server, logs: seq<Log>, i: nat, moment: Option<nat>, w: Wire)
    returns (places: seq<nat>)
    requires s.db.Restoring?
    ensures Chain(s, logs, i, moment, RunFrom(s, logs, i, moment, w).server, places)
    decreases |logs| - i
  {
    places := [];
    assert Pick(logs, []) == [] && RowsOf([]) == [] && s.history + [] == s.history;
    if i < |logs| {
      var stopAt := StopAt(logs, i, moment);
      var (t, step) := OneLog(s, logs[i], stopAt, w);
      StepOnce(s, logs[i], stopAt, w);
      if t.history == s.history {
        assert t.db == s.db;
        if !step.Raised? { places := AppliedIsAChain(t, logs, i + 1, moment, w); }
      } else {
        assert Pick(logs, [i]) == [logs[i]] && RowsOf([logs[i]]) == [Row(logs[i].file, 1)];
        assert Pick(logs, [i])[1..] == [];
        if step.Raised? || !t.db.Restoring? {
          if !t.db.Restoring? { assert i + 1 == |logs|; }
          places := [i];
        } else {
          var later := AppliedIsAChain(t, logs, i + 1, moment, w);
          ChainNext(s, t, RunFrom(t, logs, i + 1, moment, w).server, logs, i, moment, later);
          places := [i] + later;
        }
      }
    }
  }

  /** With the logs in order of their starts, nothing after a log that starts too late ever applies. */
  lemma {:induction false} NothingCrossesAGap(s: Server, logs: seq<Log>, i: nat, moment: Option<nat>, w: Wire)
    requires s.db.Restoring? && forall j :: i <= j < |logs| ==> logs[j].first > s.db.at
    ensures var t := RunFrom(s, logs, i, moment, w).server;
      (t.db, t.history) == (s.db, s.history)
    decreases |logs| - i
  {
    if i < |logs| {
      StepOnce(s, logs[i], StopAt(logs, i, moment), w);
      NothingCrossesAGap(OneLog(s, logs[i], StopAt(logs, i, moment), w).0, logs, i + 1, moment, w);
    }
  }

  lemma GapEndsTheChain(s: Server, logs: seq<Log>, i: nat, moment: Option<nat>, w: Wire)
    requires s.db.Restoring? && i < |logs| && OneLog(s, logs[i], StopAt(logs, i, moment), w).1.SkippedGap?
    requires forall j, k :: i <= j <= k < |logs| ==> logs[j].first <= logs[k].first
    ensures var t := RunFrom(s, logs, i, moment, w).server;
      (t.db, t.history) == (s.db, s.history)
  {
    StepOnce(s, logs[i], StopAt(logs, i, moment), w);
    NothingCrossesAGap(s, logs, i, moment, w);
  }

  // ---------------------------------------------------------------- when a lost answer is taken as done

  /** A run that takes a lost log as restored although nothing ran. */
  ghost predicate Fooled(s: Server, logs: seq<Log>, i: nat, moment: Option<nat>, w: Wire)
    decreases |logs| - i
  {
    i < |logs| &&
    var (t, step) := OneLog(s, logs[i], StopAt(logs, i, moment), w);
    (step.Resumed? && t.history == s.history) || (!step.Raised? && Fooled(t, logs, i + 1, moment, w))
  }

  ghost predicate CanBeFooled(s: Server, logs: seq<Log>, moment: Option<nat>) {
    exists w: Wire :: Fooled(s, logs, 0, moment, w)
  }

  /** Before the run: the newest row of the history - some earlier restore's - is one of these logs, and no log
      before it applies to the database as it stands. */
  ghost predicate StaleRow(s: Server, logs: seq<Log>, i: nat)
    requires s.db.Restoring?
  {
    exists j :: i <= j < |logs| && NewestRowIs(s, logs[j]) && forall k :: i <= k < j ==> !Covers(logs[k], s.db.at)
  }

  ghost predicate DistinctFiles(logs: seq<Log>) {
    forall i, j :: 0 <= i < j < |logs| ==> logs[i].file != logs[j].file
  }

  lemma StaleRowNext(s: Server, logs: seq<Log>, i: nat, moment: Option<nat>, t: Server, step: Step)
    requires s.db.Restoring? && DistinctFiles(logs) && i < |logs| && !StaleRow(s, logs, i)
    requires Stepped(s, logs[i], StopAt(logs, i, moment), t, step)
    ensures step.Resumed? ==> t.history == s.history + [Row(logs[i].file, 1)]
    ensures !step.Raised? && t.db.Restoring? ==> !StaleRow(t, logs, i + 1)
  {
    if !step.Raised? && t.db.Restoring? {
      forall j | i + 1 <= j < |logs| && NewestRowIs(t, logs[j])
        ensures exists k :: i + 1 <= k < j && Covers(logs[k], t.db.at)
      {
        assert logs[i].file != logs[j].file;
        assert t.history == s.history && NewestRowIs(s, logs[j]);
        var k :| i <= k < j && Covers(logs[k], s.db.at);
        assert k != i;
      }
    }
  }

  lemma {:induction false} NoStaleRowNoMistake(s: Server, logs: seq<Log>, i: nat, moment: Option<nat>, w: Wire)
    requires s.db.Restoring? && DistinctFiles(logs) && !StaleRow(s, logs, i)
    ensures !Fooled(s, logs, i, moment, w)
    decreases |logs| - i
  {
    if i < |logs| {
      StepOnce(s, logs[i], StopAt(logs, i, moment), w);
      var (t, step) := OneLog(s, logs[i], StopAt(logs, i, moment), w);
      StaleRowNext(s, logs, i, moment, t, step);
      if t.db.Restoring? && !step.Raised? { NoStaleRowNoMistake(t, logs, i + 1, moment, w); }
    }
  }

  /** Every batch is answered but the `lost`-th, which is lost before it ran; nothing is seen running. */
  function LosingWire(lost: nat): Wire {
    Wire((n: nat) => if n == lost then Lost(false) else Answered, (n: nat) => Some(false))
  }

  lemma {:induction false} StaleRowMisleads(s: Server, logs: seq<Log>, i: nat, j: nat, moment: Option<nat>)
    requires s.db.Restoring? && i <= j < |logs| && NewestRowIs(s, logs[j])
    requires forall k :: i <= k < j ==> !Covers(logs[k], s.db.at)
    ensures Fooled(s, logs, i, moment, LosingWire(s.sent + j - i))
    decreases |logs| - i
  {
    var w := LosingWire(s.sent + j - i);
    var (t, step) := OneLog(s, logs[i], StopAt(logs, i, moment), w);
    assert (t, step) == (t, StepOf(Dispatched(s, logs[i], StopAt(logs, i, moment), w).1, Confirms(t, logs[i], w)));
    if i < j {
      assert t == s.(sent := s.sent + 1);
      StaleRowMisleads(t, logs, i + 1, j, moment);
    }
  }

  /** The history is read back to any earlier restore, so a lost log can be taken as done that never ran: that
      can happen to exactly the runs that begin with a stale row. */
  lemma MistakenExactlyByAStaleRow(s: Server, logs: seq<Log>, moment: Option<nat>)
    requires s.db.Restoring? && DistinctFiles(logs)
    ensures CanBeFooled(s, logs, moment) <==> StaleRow(s, logs, 0)
  {
    if StaleRow(s, logs, 0) {
      var j :| 0 <= j < |logs| && NewestRowIs(s, logs[j]) && forall k :: 0 <= k < j ==> !Covers(logs[k], s.db.at);
      StaleRowMisleads(s, logs, 0, j, moment);
    } else {
      forall w ensures !Fooled(s, logs, 0, moment, w) { NoStaleRowNoMistake(s, logs, 0, moment, w); }
    }
  }

  /** One such run: the log is lost before it runs, an earlier restore's row vouches for it, and the restore comes
      back and recovers at 10 what was asked for 20. */
  lemma AStaleRowAtWork()
    ensures var log := Log("a.trn", 10, 20);
      var s := Server(Restoring(10), [Row("a.trn", 1)], 0);
      var run := RunFrom(s, [log], 0, Some(20), LosingWire(0));
      Returned(run.steps) && Recovered(run.server.db) == Online(10)
  {
    var log := Log("a.trn", 10, 20);
    var s := Server(Restoring(10), [Row("a.trn", 1)], 0);
    var w := LosingWire(0);
    var (t, step) := OneLog(s, log, Some(20), w);
    assert (t, step) == (s.(sent := 1), Resumed);
    assert RunFrom(t, [log], 1, Some(20), w).steps == [];
    assert RunFrom(s, [log], 0, Some(20), w) == LogRun(t, [Resumed]);
    assert Resumed in [Resumed];
  }

  // ---------------------------------------------------------------- exactly at the moment

  /** The furthest the first `i` logs can take a database that stood at `at`. */
  ghost function Reach(at: nat, logs: seq<Log>, i: nat): nat
    requires i <= |logs|
  {
    if i == 0 then at else
      var before := Reach(at, logs, i - 1);
      if logs[i - 1].last > before then logs[i - 1].last else before
  }

  /** No log starts after what the ones before it reach, and the last reaches the moment. */
  ghost predicate Contiguous(at: nat, logs: seq<Log>, moment: nat) {
    && (forall i :: 0 <= i < |logs| ==> logs[i].first <= Reach(at, logs, i))
    && logs != [] && logs[|logs| - 1].last >= moment
  }

  lemma {:induction false} ReachIsWithin(at: nat, logs: seq<Log>, i: nat, moment: nat)
    requires i < |logs| && Bounded(logs, moment) && at <= moment
    ensures Reach(at, logs, i) <= moment
  {
    if i > 0 { ReachIsWithin(at, logs, i - 1, moment); }
  }

  lemma RaisedOrOn(s: Server, logs: seq<Log>, i: nat, moment: Option<nat>, w: Wire)
    requires i < |logs|
    ensures var (t, step) := OneLog(s, logs[i], StopAt(logs, i, moment), w);
      var run, rest := RunFrom(s, logs, i, moment, w), RunFrom(t, logs, i + 1, moment, w);
      && (Raised in run.steps <==> step.Raised? || Raised in rest.steps)
      && (!step.Raised? ==> run.server == rest.server)
  {
  }

  /** A log of a contiguous list that ran takes the database to the next reach, or to the moment. */
  lemma ContiguousMove(reach: nat, log: Log, last: bool, moment: nat, db: Db)
    requires Covers(log, reach) && reach <= moment && (last ==> log.last >= moment)
    requires db == if last && moment <= log.last then Online(moment) else Restoring(log.last)
    ensures if last then Recovered(db) == Online(moment) else db == Restoring(log.last) && log.last > reach
  {
  }

  lemma ContiguousStep(s: Server, logs: seq<Log>, i: nat, at: nat, moment: nat, t: Server, step: Step)
    requires i < |logs| && s.db == Restoring(Reach(at, logs, i)) && Reach(at, logs, i) <= moment && !step.Raised?
    requires Contiguous(at, logs, moment)
    requires Stepped(s, logs[i], StopAt(logs, i, Some(moment)), t, step)
    requires step.Applied? || step.Resumed? ==> |t.history| > |s.history|
    ensures i + 1 < |logs| ==> t.db == Restoring(Reach(at, logs, i + 1))
    ensures i + 1 == |logs| ==> Recovered(t.db) == Online(moment)
  {
    var log := logs[i];
    assert log.first <= s.db.at;
    if |t.history| > |s.history| {
      ContiguousMove(s.db.at, log, i + 1 == |logs|, moment, t.db);
    } else {
      assert step.SkippedEarly?;
    }
  }

  lemma {:induction false} ContiguousReachesTheMoment(s: Server, logs: seq<Log>, i: nat, at: nat, moment: nat, w: Wire)
    requires i < |logs| && s.db == Restoring(Reach(at, logs, i)) && at <= moment
    requires Bounded(logs, moment) && Contiguous(at, logs, moment) && DistinctFiles(logs) && !StaleRow(s, logs, i)
    requires Raised !in RunFrom(s, logs, i, Some(moment), w).steps
    ensures Recovered(RunFrom(s, logs, i, Some(moment), w).server.db) == Online(moment)
    decreases |logs| - i
  {
    var (t, step) := OneLog(s, logs[i], StopAt(logs, i, Some(moment)), w);
    StepOnce(s, logs[i], StopAt(logs, i, Some(moment)), w);
    RaisedOrOn(s, logs, i, Some(moment), w);
    StaleRowNext(s, logs, i, Some(moment), t, step);
    ReachIsWithin(at, logs, i, moment);
    ContiguousStep(s, logs, i, at, moment, t, step);
    if i + 1 < |logs| { ContiguousReachesTheMoment(t, logs, i + 1, at, moment, w); }
  }

  /** An unbroken chain to the moment from where the database stands, and no stale row before it. */
  ghost predicate Unbroken(s: Server, logs: seq<Log>, moment: nat) {
    && s.db.Restoring? && s.db.at <= moment
    && Bounded(logs, moment) && Contiguous(s.db.at, logs, moment) && DistinctFiles(logs) && !StaleRow(s, logs, 0)
  }

  /** A point-in-time restore of an unbroken chain, over any connection: if it comes back, the database is online
      at the very moment asked for. */
  lemma RestoredToTheMoment(s: Server, logs: seq<Log>, moment: nat, w: Wire)
    requires Unbroken(s, logs, moment)
    ensures var run := RunFrom(s, logs, 0, Some(moment), w);
      Returned(run.steps) ==> Recovered(run.server.db) == Online(moment)
  {
    if Returned(RunFrom(s, logs, 0, Some(moment), w).steps) {
      ContiguousReachesTheMoment(s, logs, 0, s.db.at, moment, w);
    }
  }

  // ---------------------------------------------------------------- when a run comes back

  ghost predicate Quiet(w: Wire) {
    forall n :: w.fate(n).Answered?
  }

  lemma QuietStep(s: Server, logs: seq<Log>, i: nat, moment: nat, w: Wire)
    requires Quiet(w) && i < |logs| && s.db.Restoring? && s.db.at <= moment && Bounded(logs, moment)
    ensures var (t, step) := OneLog(s, logs[i], StopAt(logs, i, Some(moment)), w);
      && !step.Raised? && (step.Applied? <==> Covers(logs[i], s.db.at)) && !step.Resumed?
      && (step.Applied? && i + 1 < |logs| ==> t.db == Restoring(logs[i].last))
      && (!step.Applied? ==> t.db == s.db)
  {
    assert w.fate(s.sent).Answered?;
  }

  lemma {:induction false} QuietNeverRaises(s: Server, logs: seq<Log>, i: nat, moment: nat, w: Wire)
    requires Quiet(w) && s.db.Restoring? && s.db.at <= moment && Bounded(logs, moment)
    ensures var steps := RunFrom(s, logs, i, Some(moment), w).steps;
      && Raised !in steps
      && (TookAny(steps) <==> exists k :: i <= k < |logs| && Covers(logs[k], s.db.at))
    decreases |logs| - i
  {
    if i < |logs| {
      QuietStep(s, logs, i, moment, w);
      var (t, step) := OneLog(s, logs[i], StopAt(logs, i, Some(moment)), w);
      var rest := RunFrom(t, logs, i + 1, Some(moment), w);
      assert RunFrom(s, logs, i, Some(moment), w).steps == [step] + rest.steps;
      if i + 1 < |logs| {
        QuietNeverRaises(t, logs, i + 1, moment, w);
      } else {
        assert rest.steps == [];
      }
    }
  }

  /** Over a connection that answers, the logs come back restored exactly when one of them applies to the database
      as it stood - an unbroken chain whose logs all end too early does not. */
  lemma ComesBackExactlyWhenALogApplies(s: Server, logs: seq<Log>, moment: nat, w: Wire)
    requires Quiet(w) && s.db.Restoring? && s.db.at <= moment && Bounded(logs, moment) && logs != []
    ensures Returned(RunFrom(s, logs, 0, Some(moment), w).steps) <==>
      exists k :: 0 <= k < |logs| && Covers(logs[k], s.db.at)
  {
    QuietNeverRaises(s, logs, 0, moment, w);
    assert RunFrom(s, logs, 0, Some(moment), w).steps != [];
  }
}

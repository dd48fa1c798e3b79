/** The repository copy over its whole life: backups arrive on their server, passes copy them to the
    repository, release sources whose copy is proven, and expire copies past their retention. */
module Offload {
  import opened Basics
  import opened CopyGate
  import R = Retention

  /** The file on its server, as the catalog has it. */
  datatype SourceState = Present | Pruned | Missing | Mismatched

  /** Its copy on the repository; `Waiting` is a copy not made yet. */
  datatype CopyState = Waiting | Failed | Verified | Expired

  /** A catalogued backup file. `at` is when it ended, `started` when the run that wrote it began. */
  datatype Row = Row(database: string, fileType: R.FileType, at: nat, started: nat,
                     serverPath: string, repoPath: string, checksum: Option<string>, size: Option<nat>,
                     source: SourceState, copy: CopyState)

  type Hash = Content -> Reading

  datatype State = State(rows: map<nat, Row>, server: map<string, Content>, sides: map<string, Side>)

  predicate IsDirectory(row: Row) {
    row.fileType == R.FULL_BASE || row.fileType == R.INCR_BASE
  }

  predicate IsFullRow(row: Row) {
    R.LevelOf(row.fileType) == Some(R.FullLevel)
  }

  function Reads(hash: Hash, side: Side): Option<Reading> {
    if side.content.Some? then Some(hash(side.content.value)) else None
  }

  /** Where a database's newest chain begins on its server. */
  function Floor(rows: map<nat, Row>, database: string): Option<nat> {
    Maximum(PresentStarts(rows, database))
  }

  function PresentStarts(rows: map<nat, Row>, database: string): set<nat> {
    set id | id in rows && rows[id].database == database && IsFullRow(rows[id]) && rows[id].source.Present?
      :: rows[id].started
  }

  // ---------------------------------------------------------------- what each pass does

  function Item(row: Row): FileToCopy {
    FileToCopy(row.serverPath, row.repoPath, "", row.checksum, row.size)
  }

  function Items(rows: map<nat, Row>, ids: seq<nat>): seq<FileToCopy>
    requires forall id :: id in ids ==> id in rows
  {
    seq(|ids|, k requires 0 <= k < |ids| && (forall id :: id in ids ==> id in rows) => Item(rows[ids[k]]))
  }

  /** A source held to its recorded checksum, copied again up to `retries` times, uncatalogued files compared. */
  function Rules(retries: nat, interval: nat): Integrity {
    Integrity(retries, interval, true, false)
  }

  function Sources(hash: Hash, server: map<string, Content>): map<string, Reading> {
    map p | p in server :: hash(server[p])
  }

  /** What a row's files came to: verified when it has files and every one is proven; its source missing when
      it has files and every one was. */
  function Mark(row: Row, mine: seq<Outcome>): Row {
    if mine != [] && forall o :: o in mine ==> Proven(o.verdict) then row.(copy := Verified)
    else if mine != [] && (forall o :: o in mine ==> o.verdict.SourceMissing?)
    then row.(copy := Failed, source := Missing)
    else row.(copy := Failed)
  }

  function Marked(rows: map<nat, Row>, ids: seq<nat>, outcomes: seq<Outcome>): map<nat, Row>
    requires |ids| == |outcomes| && forall id :: id in ids ==> id in rows
  {
    if ids == [] then rows
    else
      var last := |ids| - 1;
      var before := Marked(rows, ids[..last], outcomes[..last]);
      if ids[last] in before then before[ids[last] := Mark(before[ids[last]], [outcomes[last]])] else before
  }

  function CopyStep(s: State, w: Wire, rules: Integrity, ids: seq<nat>): State
    requires forall id :: id in ids ==> id in s.rows
  {
    var run := OneByOne(w, rules, Items(s.rows, ids), Sources(w.hash, s.server), s.sides);
    if |run.0| != |ids| then s else State(Marked(s.rows, ids, run.0), s.server, run.1)
  }

  /** How a delete request was answered for one path: gone, kept, or not at all - and then the file may be
      gone or not. */
  datatype Answer = Gone | Kept | Unanswered(removed: bool)

  predicate Leaves(answer: Answer) {
    answer.Gone? || (answer.Unanswered? && answer.removed)
  }

  datatype Fate = Stays | Refused | Deletable

  /** Not a directory, and older than its database's newest chain. */
  predicate BelowFloor(rows: map<nat, Row>, row: Row) {
    var floor := Floor(rows, row.database);
    !IsDirectory(row) && floor.Some? && row.at < floor.value
  }

  /** What the release decides of one file, from the catalog and the copy as it reads now. */
  function FateOf(hash: Hash, s: State, row: Row): Fate {
    if !BelowFloor(s.rows, row) then Stays
    else if !SameBytes(Reads(hash, At(s.sides, row.repoPath)), row.checksum, row.size) then Refused
    else Deletable
  }

  function ReleaseRow(hash: Hash, s: State, row: Row, answers: string -> Answer): Row {
    match FateOf(hash, s, row)
    case Stays => row
    case Refused => row.(copy := Failed)
    case Deletable => if answers(row.serverPath).Gone? then row.(source := Pruned) else row
  }

  predicate Removes(hash: Hash, s: State, row: Row, answers: string -> Answer) {
    FateOf(hash, s, row).Deletable? && Leaves(answers(row.serverPath))
  }

  function ReleaseStep(s: State, hash: Hash, ids: seq<nat>, answers: string -> Answer): State
  {
    State(map id | id in s.rows :: if id in ids then ReleaseRow(hash, s, s.rows[id], answers) else s.rows[id],
          map p | p in s.server && !(exists id :: id in ids && id in s.rows && s.rows[id].serverPath == p
                                       && Removes(hash, s, s.rows[id], answers)) :: s.server[p],
          s.sides)
  }

  function AsCopy(id: nat, row: Row): R.Copy {
    R.Copy(id, row.database, row.fileType, row.at, row.started)
  }

  /** The verified copies the retention reads. */
  function VerifiedCopies(rows: map<nat, Row>): set<R.Copy> {
    set id | id in rows && rows[id].copy.Verified? :: AsCopy(id, rows[id])
  }

  /** The rows the plan names. */
  predicate Planned(s: State, keep: R.Keep, now: nat, id: nat) {
    id in s.rows && s.rows[id].copy.Verified? && AsCopy(id, s.rows[id]) in R.Plan(VerifiedCopies(s.rows), keep, now)
  }

  /** An expiry pass as it deletes: the row each path stands for, and the repository host's answers. Rows of one path
      share its entry, and only the row in the entry can be marked. */
  datatype Removal = Removal(paths: map<string, nat>, said: string -> Answer)

  /** The paths of the rows the plan names, each standing for one of them. */
  ghost predicate OfThePlan(s: State, keep: R.Keep, now: nat, paths: map<string, nat>) {
    && (forall p :: p in paths ==> Planned(s, keep, now, paths[p]) && s.rows[paths[p]].repoPath == p)
    && (forall id :: Planned(s, keep, now, id) ==> s.rows[id].repoPath in paths)
  }

  /** The row is the one its path stands for. */
  predicate StoodFor(rows: map<nat, Row>, paths: map<string, nat>, id: nat) {
    id in rows && rows[id].repoPath in paths && paths[rows[id].repoPath] == id
  }

  /** Expired: its path stands for it, and is reported gone by the repository host. */
  predicate Expiring(s: State, removal: Removal, id: nat) {
    StoodFor(s.rows, removal.paths, id) && removal.said(s.rows[id].repoPath).Gone?
  }

  /** What an expiry pass takes off the repository, answered or not. */
  predicate Taken(removal: Removal, p: string) {
    p in removal.paths && Leaves(removal.said(p))
  }

  function ExpireStep(s: State, removal: Removal): State {
    State(map id | id in s.rows :: if Expiring(s, removal, id) then s.rows[id].(copy := Expired) else s.rows[id],
          s.server,
          map p | p in s.sides :: if Taken(removal, p) then Side(None, s.sides[p].copies) else s.sides[p])
  }

  /** A copy pass that raised: every row of it has failed, and its targets are as it left them. */
  function BrokenStep(s: State, ids: seq<nat>, left: map<string, Side>): State {
    State(map id | id in s.rows :: if id in ids then s.rows[id].(copy := Failed) else s.rows[id], s.server, left)
  }

  /** The file on its server, held to what its backup recorded. A file that is gone is missing - or pruned, when
      the server's own retention was to take it. A pruned file stays pruned. */
  function CheckRow(hash: Hash, s: State, row: Row, past: bool): Row {
    if row.source.Pruned? then row
    else if row.serverPath !in s.server then row.(source := if past then Pruned else Missing)
    else if row.checksum == Some(Lower(hash(s.server[row.serverPath]).sha)) then row.(source := Present)
    else row.(source := Mismatched)
  }

  function CheckStep(s: State, hash: Hash, ids: seq<nat>, past: nat -> bool): State {
    s.(rows := map id | id in s.rows :: if id in ids then CheckRow(hash, s, s.rows[id], past(id)) else s.rows[id])
  }

  // ---------------------------------------------------------------- runs

  /** One thing that happens: a backup is written, a pass runs or breaks off, files are checked, or the server's
      own storage changes under it. */
  datatype Step =
    | Backup(id: nat, row: Row, content: Content)
    | CopyPass(wire: Wire, rules: Integrity, copyIds: seq<nat>)
    | ReleasePass(releaseIds: seq<nat>, answers: string -> Answer)
    | ExpirePass(keep: R.Keep, now: nat, removal: Removal)
    | BrokenPass(brokenIds: seq<nat>, targets: map<string, Side>)
    | CheckPass(checkIds: seq<nat>, past: nat -> bool)
    | Damage(path: string, left: Option<Content>)

  /** The rows the catalog offers a copy pass. */
  predicate ToOffload(s: State, id: nat) {
    id in s.rows && s.rows[id].source.Present? && (s.rows[id].copy.Waiting? || s.rows[id].copy.Failed?)
  }

  /** A checksum as a backup records it, in lower case. */
  predicate Canonical(row: Row) {
    row.checksum.Some? ==> Lower(row.checksum.value) == row.checksum.value
  }

  /** The files of one pass each have a target of their own; other rows may share it. */
  ghost predicate TargetsApart(rows: map<nat, Row>, ids: seq<nat>) {
    forall a, b :: a in ids && b in ids && a in rows && b in rows && a != b ==> rows[a].repoPath != rows[b].repoPath
  }

  /** A pass writes only the targets of its own files, and none whose source it found missing. */
  ghost predicate OnlyTheirTargets(s: State, ids: seq<nat>, left: map<string, Side>) {
    forall p :: At(left, p) != At(s.sides, p) ==>
      exists id :: id in ids && id in s.rows && s.rows[id].repoPath == p && s.rows[id].serverPath in s.server
  }

  ghost predicate Allowed(hash: Hash, s: State, step: Step) {
    match step
    case Backup(id, row, content) =>
      // A new file where none is, recorded as it was written. The catalog refuses the path of a row not pruned; that
      // of a pruned one it accepts, and nothing keeps the copy's path from being another row's.
      && id !in s.rows && row.serverPath !in s.server
      && (forall other :: other in s.rows && !s.rows[other].source.Pruned? ==>
        s.rows[other].serverPath != row.serverPath)
      && row.source.Present? && row.copy.Waiting? && row.started <= row.at
      && (row.checksum.Some? ==> Canonical(row) && SameBytes(Some(hash(content)), row.checksum, row.size))
    case CopyPass(wire, rules, ids) =>
      && wire.hash == hash && rules.verifySource && NoDuplicates(ids) && TargetsApart(s.rows, ids)
      && forall id :: id in ids ==> ToOffload(s, id)
    case ReleasePass(ids, _) =>
      forall id :: id in ids ==> id in s.rows && s.rows[id].source.Present? && s.rows[id].copy.Verified?
    case ExpirePass(keep, now, removal) => OfThePlan(s, keep, now, removal.paths)
    case BrokenPass(ids, left) => (forall id :: id in ids ==> ToOffload(s, id)) && OnlyTheirTargets(s, ids, left)
    case _ => true
  }

  ghost function Next(hash: Hash, s: State, step: Step): State
    requires Allowed(hash, s, step)
  {
    match step
    case Backup(id, row, content) => State(s.rows[id := row], s.server[row.serverPath := content], s.sides)
    case CopyPass(wire, rules, ids) => CopyStep(s, wire, rules, ids)
    case ReleasePass(ids, answers) => ReleaseStep(s, hash, ids, answers)
    case ExpirePass(_, _, removal) => ExpireStep(s, removal)
    case BrokenPass(ids, left) => BrokenStep(s, ids, left)
    case CheckPass(ids, past) => CheckStep(s, hash, ids, past)
    case Damage(path, left) =>
      s.(server := if left.Some? then s.server[path := left.value] else s.server - {path})
  }

  /** The state; the rows whose file on the server something other than these passes has touched; the rows whose copy
      an expiry pass named and took without an answer; and those whose copy's path a pass has since written or emptied
      for another row. A row leaves the last two when its copy reads as recorded again. */
  datatype World = World(s: State, damaged: set<nat>, lost: set<nat>, replaced: set<nat>)

  predicate OnServer(hash: Hash, s: State, row: Row) {
    && row.serverPath in s.server
    && (row.checksum.Some? ==> SameBytes(Some(hash(s.server[row.serverPath])), row.checksum, row.size))
  }

  /** The copy reads as its backup recorded the file, checksum and size. */
  predicate InRepository(hash: Hash, s: State, row: Row) {
    SameBytes(Reads(hash, At(s.sides, row.repoPath)), row.checksum, row.size)
  }

  /** A file not pruned that something other than these passes has touched. */
  predicate Harmed(s: State, step: Step, id: nat) {
    step.Damage? && id in s.rows && s.rows[id].serverPath == step.path && !s.rows[id].source.Pruned?
  }

  /** The plan names the row, and its path is emptied without the repository host saying so. */
  predicate TakenUnsaid(s: State, step: Step, id: nat) {
    && step.ExpirePass? && Planned(s, step.keep, step.now, id)
    && Taken(step.removal, s.rows[id].repoPath) && !step.removal.said(s.rows[id].repoPath).Gone?
  }

  /** The row is one a copy pass copies or an expiry pass takes. */
  predicate Handled(s: State, step: Step, id: nat) {
    match step
    case CopyPass(_, _, ids) => id in ids
    case BrokenPass(ids, _) => id in ids
    case ExpirePass(keep, now, _) => Planned(s, keep, now, id)
    case _ => false
  }

  /** The step changes what stands at the row's path, on another row's account. */
  predicate ForAnother(s: State, next: State, step: Step, id: nat) {
    && id in s.rows && At(next.sides, s.rows[id].repoPath).content != At(s.sides, s.rows[id].repoPath).content
    && exists other ::
      other in s.rows && other != id && Handled(s, step, other) && s.rows[other].repoPath == s.rows[id].repoPath
  }

  ghost function Onward(hash: Hash, w: World, step: Step): World
    requires Allowed(hash, w.s, step)
  {
    var next := Next(hash, w.s, step);
    World(next,
          set id | id in w.damaged + w.s.rows.Keys && (id in w.damaged || Harmed(w.s, step, id)),
          set id | id in next.rows && !InRepository(hash, next, next.rows[id])
            && (id in w.lost || TakenUnsaid(w.s, step, id)),
          set id | id in next.rows && !InRepository(hash, next, next.rows[id])
                   && (id in w.replaced || ForAnother(w.s, next, step, id)))
  }

  /** What a run comes to; a step that is not allowed where it stands does not happen. */
  ghost function After(hash: Hash, steps: seq<Step>): World {
    if steps == [] then World(State(map[], map[], map[]), {}, {}, {})
    else
      var before, step := After(hash, steps[..|steps| - 1]), steps[|steps| - 1];
      if Allowed(hash, before.s, step) then Onward(hash, before, step) else before
  }

  // ---------------------------------------------------------------- what every run keeps

  /** The start of the newest full of a database ever written, whatever became of it. */
  function FloorEver(rows: map<nat, Row>, database: string): Option<nat> {
    Maximum(FullStarts(rows, database))
  }

  function FullStarts(rows: map<nat, Row>, database: string): set<nat> {
    set id | id in rows && rows[id].database == database && IsFullRow(rows[id]) :: rows[id].started
  }

  /** The copy reads with the recorded checksum. */
  predicate HoldsChecksum(hash: Hash, s: State, row: Row) {
    SameBytes(Reads(hash, At(s.sides, row.repoPath)), row.checksum, None)
  }

  /** Its copy was taken without an answer, or written over or emptied for another row. */
  predicate Forfeit(w: World, id: nat) {
    id in w.lost || id in w.replaced
  }

  /** Taken off its server rightly: older than its database's newest full, and its copy held in full until it
      expires - or is forfeit. */
  predicate RightlyReleased(hash: Hash, w: World, id: nat)
    requires id in w.s.rows
  {
    var row := w.s.rows[id];
    var floor := FloorEver(w.s.rows, row.database);
    && floor.Some? && row.at < floor.value
    && (row.copy.Expired? || Forfeit(w, id) || InRepository(hash, w.s, row))
  }

  /** A file not touched from outside is on its server as recorded, or was taken off it rightly. */
  predicate SourceSafe(hash: Hash, w: World, id: nat)
    requires id in w.s.rows
  {
    var row := w.s.rows[id];
    if row.source.Pruned? then RightlyReleased(hash, w, id)
    else if row.serverPath in w.s.server then OnServer(hash, w.s, row)
    else RightlyReleased(hash, w, id)
  }

  /** What the catalog says of a file that nothing outside touched. */
  predicate StateTells(s: State, row: Row) {
    && (row.source.Missing? ==> row.serverPath !in s.server)
    && (row.source.Mismatched? ==> row.checksum.None?)
  }

  ghost predicate RowSafe(hash: Hash, w: World, id: nat)
    requires id in w.s.rows
  {
    var row := w.s.rows[id];
    && row.started <= row.at && Canonical(row)
    && (id !in w.damaged ==> SourceSafe(hash, w, id) && StateTells(w.s, row))
    && (row.copy.Verified? && row.checksum.Some? ==> HoldsChecksum(hash, w.s, row) || Forfeit(w, id))
    && (Forfeit(w, id) ==> !InRepository(hash, w.s, row))
  }

  /** Of the rows not pruned, no two name one path on the server. */
  ghost predicate SourcesApart(rows: map<nat, Row>) {
    forall a, b :: a in rows && b in rows && a != b && !rows[a].source.Pruned? && !rows[b].source.Pruned? ==>
      rows[a].serverPath != rows[b].serverPath
  }

  ghost predicate Safe(hash: Hash, w: World) {
    && (forall id :: id in w.s.rows ==> RowSafe(hash, w, id))
    && SourcesApart(w.s.rows) && w.damaged <= w.s.rows.Keys
  }

  /** What no step changes of a row; and a pruned row stays pruned. */
  predicate Kept(row: Row, row': Row) {
    row' == row.(source := row'.source, copy := row'.copy) && (row.source.Pruned? ==> row'.source.Pruned?)
  }

  ghost predicate AllKept(rows: map<nat, Row>, rows': map<nat, Row>) {
    forall id :: id in rows ==> id in rows' && Kept(rows[id], rows'[id])
  }

  /** No database's floor ever falls. */
  ghost predicate FloorsHold(rows: map<nat, Row>, rows': map<nat, Row>) {
    forall database :: FloorEver(rows, database).Some? ==>
      FloorEver(rows', database).Some? && FloorEver(rows, database).value <= FloorEver(rows', database).value
  }

  lemma KeptRowsHoldFloors(rows: map<nat, Row>, rows': map<nat, Row>)
    requires AllKept(rows, rows')
    ensures FloorsHold(rows, rows')
  {
    forall database | FloorEver(rows, database).Some?
      ensures FloorEver(rows', database).Some? && FloorEver(rows, database).value <= FloorEver(rows', database).value
    {
      var floor := FloorEver(rows, database).value;
      assert floor in FullStarts(rows, database);
      var id :| id in rows && rows[id].database == database && IsFullRow(rows[id]) && rows[id].started == floor;
      assert Kept(rows[id], rows'[id]);
      assert floor in FullStarts(rows', database);
    }
  }

  lemma KeptRowsStayApart(rows: map<nat, Row>, rows': map<nat, Row>)
    requires SourcesApart(rows) && AllKept(rows, rows') && rows'.Keys == rows.Keys
    ensures SourcesApart(rows')
  {
    forall a, b | a in rows' && b in rows' && a != b && !rows'[a].source.Pruned? && !rows'[b].source.Pruned?
      ensures rows'[a].serverPath != rows'[b].serverPath
    {
      assert Kept(rows[a], rows'[a]) && Kept(rows[b], rows'[b]);
    }
  }

  lemma FloorIsUnderFloorEver(rows: map<nat, Row>, database: string)
    ensures Floor(rows, database).Some? ==>
      FloorEver(rows, database).Some? && Floor(rows, database).value <= FloorEver(rows, database).value
  {
    assert PresentStarts(rows, database) <= FullStarts(rows, database);
  }

  /** The catalog's floor, read from the fulls still there, is the newest full ever written exactly when some full that
      began then is there - whatever a release, a retention or an accident took of the others. */
  lemma FloorsAgree(rows: map<nat, Row>, database: string)
    ensures Floor(rows, database) == FloorEver(rows, database) <==>
      (FloorEver(rows, database).Some? ==> exists id ::
        && id in rows && rows[id].database == database && IsFullRow(rows[id]) && rows[id].source.Present?
        && FloorEver(rows, database) == Some(rows[id].started))
  {
    FloorIsUnderFloorEver(rows, database);
    assert PresentStarts(rows, database) <= FullStarts(rows, database);
    if Floor(rows, database).Some? {
      var id :| id in rows && rows[id].database == database && IsFullRow(rows[id]) && rows[id].source.Present?
                && rows[id].started == Floor(rows, database).value;
    }
    if id :| id in rows && rows[id].database == database && IsFullRow(rows[id]) && rows[id].source.Present?
             && FloorEver(rows, database) == Some(rows[id].started) {
      assert rows[id].started in PresentStarts(rows, database);
    }
  }

  // ---------------------------------------------------------------- a row over one step

  /** The row is forfeit or not as its copy reads; harm is not forgotten. */
  ghost predicate Counted(hash: Hash, w: World, next: World, id: nat)
    requires id in next.s.rows
  {
    var row := next.s.rows[id];
    && (id in w.damaged ==> id in next.damaged)
    && (Forfeit(next, id) ==> !InRepository(hash, next.s, row))
    && (Forfeit(w, id) ==> Forfeit(next, id) || InRepository(hash, next.s, row))
  }

  /** What stands at the row's path is as it was, or the row is counted for it. */
  ghost predicate Accounted(hash: Hash, w: World, next: World, id: nat)
    requires id in next.s.rows
  {
    var row := next.s.rows[id];
    && Counted(hash, w, next, id)
    && (At(next.s.sides, row.repoPath).content == At(w.s.sides, row.repoPath).content
        || Forfeit(next, id) || InRepository(hash, next.s, row))
  }

  lemma EveryStepCounts(hash: Hash, w: World, step: Step, id: nat)
    requires Allowed(hash, w.s, step) && w.damaged <= w.s.rows.Keys && id in Next(hash, w.s, step).rows
    ensures Counted(hash, w, Onward(hash, w, step), id)
  {
  }

  /** What stands at the row's path on its server is as it was. */
  predicate SameOnServer(s: State, next: State, path: string) {
    (path in s.server <==> path in next.server) && (path in s.server ==> next.server[path] == s.server[path])
  }

  /** A row no pass took stays safe. */
  lemma UntouchedStaysSafe(hash: Hash, w: World, next: World, id: nat)
    requires id in w.s.rows && id in next.s.rows && next.s.rows[id] == w.s.rows[id]
    requires RowSafe(hash, w, id) && FloorsHold(w.s.rows, next.s.rows) && Accounted(hash, w, next, id)
    requires id in next.damaged || w.s.rows[id].source.Pruned? || SameOnServer(w.s, next.s, w.s.rows[id].serverPath)
    ensures RowSafe(hash, next, id)
  {
  }

  lemma ForfeitAfter(hash: Hash, w: World, step: Step, id: nat)
    requires Allowed(hash, w.s, step) && id in Next(hash, w.s, step).rows
    ensures var next := Next(hash, w.s, step);
      Forfeit(Onward(hash, w, step), id) <==>
        && !InRepository(hash, next, next.rows[id])
        && (Forfeit(w, id) || TakenUnsaid(w.s, step, id) || ForAnother(w.s, next, step, id))
  {
  }

  /** Whatever the step: a row whose path no other row's copy changed is accounted for. */
  lemma AccountedUnlessWritten(hash: Hash, w: World, step: Step, id: nat)
    requires Allowed(hash, w.s, step) && w.damaged <= w.s.rows.Keys && id in w.s.rows
    requires id in Next(hash, w.s, step).rows && Kept(w.s.rows[id], Next(hash, w.s, step).rows[id])
    requires var next := Next(hash, w.s, step);
      || At(next.sides, w.s.rows[id].repoPath).content == At(w.s.sides, w.s.rows[id].repoPath).content
      || ForAnother(w.s, next, step, id) || TakenUnsaid(w.s, step, id)
    ensures Accounted(hash, w, Onward(hash, w, step), id)
  {
    EveryStepCounts(hash, w, step, id);
    ForfeitAfter(hash, w, step, id);
  }

  lemma BackupKeepsSafe(hash: Hash, w: World, step: Step)
    requires Safe(hash, w) && step.Backup? && Allowed(hash, w.s, step)
    ensures Safe(hash, Onward(hash, w, step))
  {
    var next := Onward(hash, w, step);
    KeptRowsHoldFloors(w.s.rows, next.s.rows);
    forall id | id in w.s.rows ensures RowSafe(hash, next, id) {
      AccountedUnlessWritten(hash, w, step, id);
      UntouchedStaysSafe(hash, w, next, id);
    }
    assert !Forfeit(next, step.id) || !InRepository(hash, next.s, step.row);
  }

  lemma DamageKeepsSafe(hash: Hash, w: World, step: Step)
    requires Safe(hash, w) && step.Damage?
    ensures Safe(hash, Onward(hash, w, step))
  {
    var next := Onward(hash, w, step);
    KeptRowsHoldFloors(w.s.rows, next.s.rows);
    forall id | id in next.s.rows ensures RowSafe(hash, next, id) {
      AccountedUnlessWritten(hash, w, step, id);
      UntouchedStaysSafe(hash, w, next, id);
    }
  }

  lemma CheckKeepsSafe(hash: Hash, w: World, step: Step)
    requires Safe(hash, w) && step.CheckPass? && Allowed(hash, w.s, step)
    ensures Safe(hash, Onward(hash, w, step))
  {
    var next := Onward(hash, w, step);
    KeptRowsHoldFloors(w.s.rows, next.s.rows);
    KeptRowsStayApart(w.s.rows, next.s.rows);
    forall id | id in w.s.rows ensures RowSafe(hash, next, id) {
      AccountedUnlessWritten(hash, w, step, id);
      if id in step.checkIds {
        CheckedStaysSafe(hash, w, next, id, step.past(id));
      } else {
        UntouchedStaysSafe(hash, w, next, id);
      }
    }
  }

  lemma CheckedStaysSafe(hash: Hash, w: World, next: World, id: nat, past: bool)
    requires id in w.s.rows && id in next.s.rows && next.s.rows[id] == CheckRow(hash, w.s, w.s.rows[id], past)
    requires RowSafe(hash, w, id) && FloorsHold(w.s.rows, next.s.rows) && Accounted(hash, w, next, id)
    requires next.s.server == w.s.server && next.s.sides == w.s.sides
    ensures RowSafe(hash, next, id)
  {
  }

  /** A row of a pass that raised: it has failed, and is on its server or its path was not its own to write. */
  lemma FailedStaysSafe(hash: Hash, w: World, next: World, id: nat)
    requires id in w.s.rows && id in next.s.rows && next.s.rows[id] == w.s.rows[id].(copy := Failed)
    requires RowSafe(hash, w, id) && FloorsHold(w.s.rows, next.s.rows) && !w.s.rows[id].source.Pruned?
    requires next.s.server == w.s.server && !w.s.rows[id].copy.Expired? && Counted(hash, w, next, id)
    requires w.s.rows[id].serverPath in w.s.server || Accounted(hash, w, next, id)
    ensures RowSafe(hash, next, id)
  {
  }

  lemma BrokenKeepsSafe(hash: Hash, w: World, step: Step)
    requires Safe(hash, w) && step.BrokenPass? && Allowed(hash, w.s, step)
    ensures Safe(hash, Onward(hash, w, step))
  {
    var next := Onward(hash, w, step);
    KeptRowsHoldFloors(w.s.rows, next.s.rows);
    KeptRowsStayApart(w.s.rows, next.s.rows);
    forall id | id in w.s.rows ensures RowSafe(hash, next, id) {
      BrokenRowStaysSafe(hash, w, step, id);
    }
  }

  lemma BrokenRowStaysSafe(hash: Hash, w: World, step: Step, id: nat)
    requires Safe(hash, w) && step.BrokenPass? && Allowed(hash, w.s, step) && id in w.s.rows
    requires AllKept(w.s.rows, Onward(hash, w, step).s.rows) && FloorsHold(w.s.rows, Onward(hash, w, step).s.rows)
    ensures RowSafe(hash, Onward(hash, w, step), id)
  {
    var next, row := Onward(hash, w, step), w.s.rows[id];
    EveryStepCounts(hash, w, step, id);
    if id !in step.brokenIds || row.serverPath !in w.s.server {
      if At(step.targets, row.repoPath) != At(w.s.sides, row.repoPath) {
        var other :| other in step.brokenIds && w.s.rows[other].repoPath == row.repoPath
                     && w.s.rows[other].serverPath in w.s.server;
        assert other != id && Handled(w.s, step, other);
      }
      AccountedUnlessWritten(hash, w, step, id);
    }
    if id in step.brokenIds {
      FailedStaysSafe(hash, w, next, id);
    } else {
      UntouchedStaysSafe(hash, w, next, id);
    }
  }

  lemma {:induction false} MarkedEach(rows: map<nat, Row>, ids: seq<nat>, outcomes: seq<Outcome>)
    requires |ids| == |outcomes| && NoDuplicates(ids) && forall id :: id in ids ==> id in rows
    ensures Marked(rows, ids, outcomes).Keys == rows.Keys
    ensures forall k :: 0 <= k < |ids| ==> Marked(rows, ids, outcomes)[ids[k]] == Mark(rows[ids[k]], [outcomes[k]])
    ensures forall id :: id in rows && id !in ids ==> Marked(rows, ids, outcomes)[id] == rows[id]
  {
    if ids != [] {
      var last := |ids| - 1;
      MarkedEach(rows, ids[..last], outcomes[..last]);
      assert ids[last] !in ids[..last];
      forall k | 0 <= k < last ensures ids[k] != ids[last] && ids[..last][k] == ids[k] {}
      forall id | id in rows && id !in ids ensures id !in ids[..last] && id != ids[last] {}
    }
  }

  /** What the gate makes of a row's file alone: its outcome, and what stands at its target. */
  function GateAlone(s: State, w: Wire, rules: Integrity, row: Row): (Outcome, Side) {
    Alone(w, rules, Item(row), Lookup(Sources(w.hash, s.server), row.serverPath), At(s.sides, row.repoPath))
  }

  /** A row a copy pass took: it is verified only on its recorded bytes, and stays on its server. */
  lemma CopiedStaysSafe(hash: Hash, w: World, next: World, id: nat, wire: Wire, rules: Integrity)
    requires id in w.s.rows && id in next.s.rows && RowSafe(hash, w, id) && wire.hash == hash && rules.verifySource
    requires next.s.server == w.s.server && Counted(hash, w, next, id) && FloorsHold(w.s.rows, next.s.rows)
    requires ToOffload(w.s, id)
    requires next.s.rows[id] == Mark(w.s.rows[id], [GateAlone(w.s, wire, rules, w.s.rows[id]).0])
    requires At(next.s.sides, w.s.rows[id].repoPath) == GateAlone(w.s, wire, rules, w.s.rows[id]).1
    ensures RowSafe(hash, next, id)
  {
    var row := w.s.rows[id];
    ProvenHoldsTheSource(wire, rules, Item(row), Lookup(Sources(hash, w.s.server), row.serverPath),
        At(w.s.sides, row.repoPath));
  }

  /** A copy pass, row by row: what the gate would make of the file alone; and nothing to any other row, nor to any
      path that is no target of the pass. */
  lemma CopyStepEach(s: State, w: Wire, rules: Integrity, ids: seq<nat>)
    requires NoDuplicates(ids) && (forall id :: id in ids ==> id in s.rows) && TargetsApart(s.rows, ids)
    ensures var s' := CopyStep(s, w, rules, ids);
      && s'.rows.Keys == s.rows.Keys && s'.server == s.server
      && (forall id :: id in ids ==>
        && s'.rows[id] == Mark(s.rows[id], [GateAlone(s, w, rules, s.rows[id]).0])
        && At(s'.sides, s.rows[id].repoPath) == GateAlone(s, w, rules, s.rows[id]).1)
      && (forall id :: id in s.rows && id !in ids ==> s'.rows[id] == s.rows[id])
      && (forall p :: (forall id :: id in ids ==> s.rows[id].repoPath != p) ==> At(s'.sides, p) == At(s.sides, p))
  {
    var items, sources := Items(s.rows, ids), Sources(w.hash, s.server);
    ItemsAreDistinct(s.rows, ids);
    OneByOneIsEachAlone(w, rules, items, sources, s.sides);
    var run := OneByOne(w, rules, items, sources, s.sides);
    MarkedEach(s.rows, ids, run.0);
    var s' := CopyStep(s, w, rules, ids);
    forall id | id in ids
      ensures s'.rows[id] == Mark(s.rows[id], [GateAlone(s, w, rules, s.rows[id]).0])
      ensures At(s'.sides, s.rows[id].repoPath) == GateAlone(s, w, rules, s.rows[id]).1
    {
      var k :| 0 <= k < |ids| && ids[k] == id;
      assert items[k] == Item(s.rows[id]);
    }
    forall p | forall id :: id in ids ==> s.rows[id].repoPath != p ensures At(s'.sides, p) == At(s.sides, p) {
      forall k | 0 <= k < |items| ensures items[k].targetPath != p {
        assert ids[k] in ids;
      }
      assert !IsTarget(items, p);
    }
  }

  lemma CopyKeepsAll(hash: Hash, s: State, step: Step)
    requires step.CopyPass? && Allowed(hash, s, step)
    ensures AllKept(s.rows, Next(hash, s, step).rows) && Next(hash, s, step).rows.Keys == s.rows.Keys
  {
    CopyStepEach(s, step.wire, step.rules, step.copyIds);
    var rows := Next(hash, s, step).rows;
    forall id | id in s.rows ensures id in rows && Kept(s.rows[id], rows[id]) {
      if id !in step.copyIds { assert rows[id] == s.rows[id]; }
    }
  }

  lemma CopyKeepsSafe(hash: Hash, w: World, step: Step)
    requires Safe(hash, w) && step.CopyPass? && Allowed(hash, w.s, step)
    ensures Safe(hash, Onward(hash, w, step))
  {
    var next := Onward(hash, w, step);
    CopyKeepsAll(hash, w.s, step);
    KeptRowsHoldFloors(w.s.rows, next.s.rows);
    KeptRowsStayApart(w.s.rows, next.s.rows);
    forall id | id in w.s.rows ensures RowSafe(hash, next, id) {
      EveryStepCounts(hash, w, step, id);
      if id !in step.copyIds { CopyAccountsFor(hash, w, step, id); }
      CopyKeepsRow(hash, w, next, step.wire, step.rules, step.copyIds, id);
    }
  }

  lemma CopyKeepsRow(hash: Hash, w: World, next: World, wire: Wire, rules: Integrity, ids: seq<nat>, id: nat)
    requires NoDuplicates(ids) && (forall i :: i in ids ==> i in w.s.rows && ToOffload(w.s, i))
    requires TargetsApart(w.s.rows, ids)
    requires next.s == CopyStep(w.s, wire, rules, ids) && wire.hash == hash && rules.verifySource
    requires id in w.s.rows && id in next.s.rows && RowSafe(hash, w, id)
    requires FloorsHold(w.s.rows, next.s.rows) && Counted(hash, w, next, id)
    requires id !in ids ==> Accounted(hash, w, next, id)
    ensures RowSafe(hash, next, id)
  {
    CopyStepEach(w.s, wire, rules, ids);
    if id in ids {
      CopiedStaysSafe(hash, w, next, id, wire, rules);
    } else {
      UntouchedStaysSafe(hash, w, next, id);
    }
  }

  /** A row no copy pass took: its path is as it was, or was written for another row. */
  lemma CopyAccountsFor(hash: Hash, w: World, step: Step, id: nat)
    requires Safe(hash, w) && step.CopyPass? && Allowed(hash, w.s, step) && id in w.s.rows && id !in step.copyIds
    requires AllKept(w.s.rows, Next(hash, w.s, step).rows)
    ensures Accounted(hash, w, Onward(hash, w, step), id)
  {
    var next, row := Next(hash, w.s, step), w.s.rows[id];
    if At(next.sides, row.repoPath) != At(w.s.sides, row.repoPath) {
      CopyStepEach(w.s, step.wire, step.rules, step.copyIds);
      var other :| other in step.copyIds && w.s.rows[other].repoPath == row.repoPath;
      assert other in w.s.rows && Handled(w.s, step, other);
    }
    AccountedUnlessWritten(hash, w, step, id);
  }

  /** A row a release pass took: deleted only below its floor, on a copy that reads as recorded now. */
  lemma ReleasedStaysSafe(hash: Hash, w: World, next: World, id: nat, answers: string -> Answer)
    requires id in w.s.rows && id in next.s.rows && next.s.rows[id] == ReleaseRow(hash, w.s, w.s.rows[id], answers)
    requires RowSafe(hash, w, id) && FloorsHold(w.s.rows, next.s.rows) && Accounted(hash, w, next, id)
    requires next.s.sides == w.s.sides && w.s.rows[id].source.Present? && w.s.rows[id].copy.Verified?
    requires var p := w.s.rows[id].serverPath;
      && (p in next.s.server <==> p in w.s.server && !Removes(hash, w.s, w.s.rows[id], answers))
      && (p in next.s.server ==> next.s.server[p] == w.s.server[p])
    ensures RowSafe(hash, next, id)
  {
    FloorIsUnderFloorEver(w.s.rows, w.s.rows[id].database);
  }

  /** A release takes off the server the files of its own rows alone. */
  lemma ReleaseOnServer(hash: Hash, s: State, ids: seq<nat>, answers: string -> Answer, id: nat)
    requires id in s.rows && !s.rows[id].source.Pruned? && SourcesApart(s.rows)
    requires forall other :: other in ids && other in s.rows ==> !s.rows[other].source.Pruned?
    ensures var server, path := ReleaseStep(s, hash, ids, answers).server, s.rows[id].serverPath;
      && (path in server <==> path in s.server && !(id in ids && Removes(hash, s, s.rows[id], answers)))
      && (path in server ==> server[path] == s.server[path])
  {
    forall other | other in ids && other in s.rows && s.rows[other].serverPath == s.rows[id].serverPath
      ensures other == id {}
  }

  lemma ReleaseKeepsRow(hash: Hash, w: World, step: Step, id: nat)
    requires Safe(hash, w) && step.ReleasePass? && Allowed(hash, w.s, step) && id in w.s.rows
    requires AllKept(w.s.rows, Onward(hash, w, step).s.rows) && FloorsHold(w.s.rows, Onward(hash, w, step).s.rows)
    ensures RowSafe(hash, Onward(hash, w, step), id)
  {
    var next := Onward(hash, w, step);
    AccountedUnlessWritten(hash, w, step, id);
    if !w.s.rows[id].source.Pruned? {
      ReleaseOnServer(hash, w.s, step.releaseIds, step.answers, id);
    }
    if id in step.releaseIds {
      ReleasedStaysSafe(hash, w, next, id, step.answers);
    } else {
      UntouchedStaysSafe(hash, w, next, id);
    }
  }

  lemma ReleaseKeepsSafe(hash: Hash, w: World, step: Step)
    requires Safe(hash, w) && step.ReleasePass? && Allowed(hash, w.s, step)
    ensures Safe(hash, Onward(hash, w, step))
  {
    var next := Onward(hash, w, step);
    KeptRowsHoldFloors(w.s.rows, next.s.rows);
    KeptRowsStayApart(w.s.rows, next.s.rows);
    forall id | id in w.s.rows ensures RowSafe(hash, next, id) {
      ReleaseKeepsRow(hash, w, step, id);
    }
  }

  /** A row an expiry pass expired is done with on the repository, and stays on its server. */
  lemma ExpiredStaysSafe(hash: Hash, w: World, next: World, id: nat)
    requires id in w.s.rows && id in next.s.rows && next.s.rows[id] == w.s.rows[id].(copy := Expired)
    requires RowSafe(hash, w, id) && FloorsHold(w.s.rows, next.s.rows) && next.s.server == w.s.server
    requires Counted(hash, w, next, id)
    ensures RowSafe(hash, next, id)
  {
  }

  lemma ExpireKeepsRow(hash: Hash, w: World, next: World, removal: Removal, id: nat)
    requires id in w.s.rows && next.s == ExpireStep(w.s, removal) && RowSafe(hash, w, id)
    requires FloorsHold(w.s.rows, next.s.rows) && Counted(hash, w, next, id)
    requires Expiring(w.s, removal, id) || Accounted(hash, w, next, id)
    ensures RowSafe(hash, next, id)
  {
    if Expiring(w.s, removal, id) {
      ExpiredStaysSafe(hash, w, next, id);
    } else {
      UntouchedStaysSafe(hash, w, next, id);
    }
  }

  /** A row an expiry pass did not expire: its path is as it was, or was emptied unsaid or for another row. */
  lemma ExpiryAccountsFor(hash: Hash, w: World, step: Step, id: nat)
    requires Safe(hash, w) && step.ExpirePass? && Allowed(hash, w.s, step) && id in w.s.rows
    requires !Expiring(w.s, step.removal, id) && AllKept(w.s.rows, Next(hash, w.s, step).rows)
    ensures Accounted(hash, w, Onward(hash, w, step), id)
  {
    var p, paths := w.s.rows[id].repoPath, step.removal.paths;
    if Taken(step.removal, p) {
      var other := paths[p];
      assert Planned(w.s, step.keep, step.now, other) && w.s.rows[other].repoPath == p;
      assert Handled(w.s, step, other);
    } else {
      assert At(Next(hash, w.s, step).sides, p) == At(w.s.sides, p);
    }
    AccountedUnlessWritten(hash, w, step, id);
  }

  lemma ExpireKeepsSafe(hash: Hash, w: World, step: Step)
    requires Safe(hash, w) && step.ExpirePass? && Allowed(hash, w.s, step)
    ensures Safe(hash, Onward(hash, w, step))
  {
    var next := Onward(hash, w, step);
    KeptRowsHoldFloors(w.s.rows, next.s.rows);
    KeptRowsStayApart(w.s.rows, next.s.rows);
    forall id | id in w.s.rows ensures RowSafe(hash, next, id) {
      EveryStepCounts(hash, w, step, id);
      if !Expiring(w.s, step.removal, id) { ExpiryAccountsFor(hash, w, step, id); }
      ExpireKeepsRow(hash, w, next, step.removal, id);
    }
  }

  /** Every run: whatever transports, hosts and storage do, the catalog's rows stay safe. */
  lemma {:induction false} EveryRunIsSafe(hash: Hash, steps: seq<Step>)
    ensures Safe(hash, After(hash, steps))
  {
    if steps != [] {
      var earlier, step := steps[..|steps| - 1], steps[|steps| - 1];
      EveryRunIsSafe(hash, earlier);
      var before := After(hash, earlier);
      if Allowed(hash, before.s, step) {
        match step
        case Backup(_, _, _) => BackupKeepsSafe(hash, before, step);
        case CopyPass(_, _, _) => CopyKeepsSafe(hash, before, step);
        case ReleasePass(_, _) => ReleaseKeepsSafe(hash, before, step);
        case ExpirePass(_, _, _) => ExpireKeepsSafe(hash, before, step);
        case BrokenPass(_, _) => BrokenKeepsSafe(hash, before, step);
        case CheckPass(_, _) => CheckKeepsSafe(hash, before, step);
        case Damage(_, _) => DamageKeepsSafe(hash, before, step);
      }
    }
  }

  // ---------------------------------------------------------------- what can be lost, and when nothing is

  /** Off its server: nothing stands at its path - or, for a pruned row, nothing that reads as it. */
  predicate OffServer(hash: Hash, s: State, row: Row) {
    row.serverPath !in s.server || (row.source.Pruned? && !OnServer(hash, s, row))
  }

  /** When a catalogued file, not expired and not touched from outside on its server, is nowhere: exactly when it is
      off its server and its copy is forfeit - an expiry pass that named it took it without an answer, or a pass wrote
      or emptied its path for another row. */
  lemma {:induction false} LostExactly(hash: Hash, steps: seq<Step>, id: nat)
    requires id in After(hash, steps).s.rows
    ensures var w := After(hash, steps);
      var row := w.s.rows[id];
      var nowhere := !OnServer(hash, w.s, row) && !InRepository(hash, w.s, row);
      row.checksum.Some? && !row.copy.Expired? && id !in w.damaged ==>
        (nowhere <==> OffServer(hash, w.s, row) && Forfeit(w, id))
    ensures var w := After(hash, steps);
      id !in w.damaged ==> (OnServer(hash, w.s, w.s.rows[id]) <==> !OffServer(hash, w.s, w.s.rows[id]))
  {
    EveryRunIsSafe(hash, steps);
    assert RowSafe(hash, After(hash, steps), id);
  }

  /** A pass whose removals are all answered. */
  ghost predicate Answered(step: Step) {
    step.ExpirePass? ==> forall p :: !step.removal.said(p).Unanswered?
  }

  /** No other row has its copy at the path, but one that has expired. */
  ghost predicate PathIsFree(rows: map<nat, Row>, path: string) {
    forall id :: id in rows && rows[id].repoPath == path ==> rows[id].copy.Expired?
  }

  /** Every removal is answered, and no backup takes the repository path of a copy that has not expired. */
  ghost predicate Guarded(hash: Hash, steps: seq<Step>) {
    forall k :: 0 <= k < |steps| ==>
      Answered(steps[k]) && (steps[k].Backup? ==> PathIsFree(After(hash, steps[..k]).s.rows, steps[k].row.repoPath))
  }

  /** Of the rows not expired, no two share a path in the repository. */
  ghost predicate CopiesApart(rows: map<nat, Row>) {
    forall a, b :: a in rows && b in rows && a != b && !rows[a].copy.Expired? && !rows[b].copy.Expired? ==>
      rows[a].repoPath != rows[b].repoPath
  }

  /** Nothing is taken unsaid, and only expired rows lose their path to another. */
  ghost predicate Tidy(w: World) {
    && CopiesApart(w.s.rows) && w.lost == {}
    && (forall id :: id in w.replaced ==> id in w.s.rows && w.s.rows[id].copy.Expired?)
  }

  /** A copy that has expired stays so. */
  ghost predicate ExpiryStands(rows: map<nat, Row>, rows': map<nat, Row>) {
    forall id :: id in rows ==>
      id in rows' && rows'[id].repoPath == rows[id].repoPath && (rows[id].copy.Expired? ==> rows'[id].copy.Expired?)
  }

  lemma ExpiryStandsOverACopy(hash: Hash, s: State, step: Step)
    requires step.CopyPass? && Allowed(hash, s, step)
    ensures ExpiryStands(s.rows, Next(hash, s, step).rows)
  {
    CopyKeepsAll(hash, s, step);
    CopyStepEach(s, step.wire, step.rules, step.copyIds);
    forall id | id in step.copyIds ensures id in s.rows && !s.rows[id].copy.Expired? { assert ToOffload(s, id); }
  }

  lemma ExpiryStandsOver(hash: Hash, s: State, step: Step)
    requires Allowed(hash, s, step)
    ensures ExpiryStands(s.rows, Next(hash, s, step).rows)
    ensures !step.Backup? ==> Next(hash, s, step).rows.Keys == s.rows.Keys
  {
    if step.CopyPass? {
      ExpiryStandsOverACopy(hash, s, step);
      CopyKeepsAll(hash, s, step);
    }
  }

  lemma HandledIsNotExpired(hash: Hash, s: State, step: Step, id: nat)
    requires Allowed(hash, s, step) && id in s.rows && Handled(s, step, id)
    ensures !s.rows[id].copy.Expired?
  {
    if step.CopyPass? || step.BrokenPass? { assert ToOffload(s, id); }
  }

  lemma StaysTidy(hash: Hash, w: World, step: Step)
    requires Tidy(w) && Allowed(hash, w.s, step) && Answered(step)
    requires step.Backup? ==> PathIsFree(w.s.rows, step.row.repoPath)
    ensures Tidy(Onward(hash, w, step))
  {
    var next := Onward(hash, w, step);
    ExpiryStandsOver(hash, w.s, step);
    forall id | id in next.replaced ensures id in next.s.rows && next.s.rows[id].copy.Expired? {
      if id !in w.replaced {
        var other :| other in w.s.rows && other != id && Handled(w.s, step, other)
          && w.s.rows[other].repoPath == w.s.rows[id].repoPath;
        HandledIsNotExpired(hash, w.s, step, other);
      }
    }
    forall a, b | a in next.s.rows && b in next.s.rows && a != b
                  && !next.s.rows[a].copy.Expired? && !next.s.rows[b].copy.Expired?
      ensures next.s.rows[a].repoPath != next.s.rows[b].repoPath
    {
      if a in w.s.rows && b in w.s.rows {
        assert !w.s.rows[a].copy.Expired? && !w.s.rows[b].copy.Expired?;
      }
    }
  }

  lemma {:induction false} GuardedIsTidy(hash: Hash, steps: seq<Step>)
    requires Guarded(hash, steps)
    ensures Tidy(After(hash, steps))
  {
    if steps != [] {
      var last := |steps| - 1;
      var earlier := steps[..last];
      forall k | 0 <= k < |earlier|
        ensures Answered(earlier[k])
        ensures earlier[k].Backup? ==> PathIsFree(After(hash, earlier[..k]).s.rows, earlier[k].row.repoPath)
      {
        assert earlier[..k] == steps[..k] && earlier[k] == steps[k];
      }
      GuardedIsTidy(hash, earlier);
      assert Answered(steps[last]);
      if Allowed(hash, After(hash, earlier).s, steps[last]) {
        StaysTidy(hash, After(hash, earlier), steps[last]);
      }
    }
  }

  /** The content reads as the row's backup recorded it: its checksum up to case, and its size where one was. */
  ghost predicate ReadsAs(hash: Hash, content: Content, row: Row) {
    row.checksum.Some? && ReadAlike(hash(content), Reading(row.checksum.value, row.size))
  }

  /** What stands at the row's path in the repository reads as recorded. */
  ghost predicate CopyReads(hash: Hash, s: State, row: Row) {
    && row.repoPath in s.sides && s.sides[row.repoPath].content.Some?
    && ReadsAs(hash, s.sides[row.repoPath].content.value, row)
  }

  lemma HeldExactly(hash: Hash, s: State, row: Row)
    ensures InRepository(hash, s, row) <==> CopyReads(hash, s, row)
    ensures OnServer(hash, s, row) <==>
      row.serverPath in s.server && (row.checksum.None? || ReadsAs(hash, s.server[row.serverPath], row))
    ensures HoldsChecksum(hash, s, row) <==> CopyReads(hash, s, row.(size := None))
  {
    SameBytesExactly(Reads(hash, At(s.sides, row.repoPath)), row.checksum, row.size);
    SameBytesExactly(Reads(hash, At(s.sides, row.repoPath)), row.checksum, None);
    if row.serverPath in s.server { SameBytesExactly(Some(hash(s.server[row.serverPath])), row.checksum, row.size); }
  }

  /** While every expiry removal is answered and no backup takes the path of a copy that has not expired, no catalogued
      file is lost before its copy expires: one not touched from outside on its server is there or in the repository,
      and a verified one is in the repository whatever happened to its server. */
  lemma {:induction false} NothingIsLost(hash: Hash, steps: seq<Step>, id: nat)
    requires id in After(hash, steps).s.rows && Guarded(hash, steps)
    ensures var w := After(hash, steps);
      var row := w.s.rows[id];
      && (row.checksum.Some? && row.copy != Expired && id !in w.damaged ==>
        || (row.serverPath in w.s.server && ReadsAs(hash, w.s.server[row.serverPath], row))
        || CopyReads(hash, w.s, row))
      && (row.checksum.Some? && row.copy == Verified ==> CopyReads(hash, w.s, row.(size := None)))
  {
    EveryRunIsSafe(hash, steps);
    GuardedIsTidy(hash, steps);
    HeldExactly(hash, After(hash, steps).s, After(hash, steps).s.rows[id]);
    assert RowSafe(hash, After(hash, steps), id);
  }

  /** Why the guard: whatever the transport, a copy pass that verifies a file at the path of another row's copy leaves
      that other file, where its recorded checksum is another, out of the repository. */
  lemma VerifiedOverAnother(hash: Hash, s: State, step: Step, id: nat, other: nat)
    requires step.CopyPass? && Allowed(hash, s, step) && id in step.copyIds && other in s.rows && other !in step.copyIds
    requires s.rows[other].repoPath == s.rows[id].repoPath && Canonical(s.rows[id]) && Canonical(s.rows[other])
    requires s.rows[id].checksum.Some? && s.rows[other].checksum.Some? && s.rows[id].checksum != s.rows[other].checksum
    ensures var next := Next(hash, s, step);
      && id in next.rows && other in next.rows && next.rows[other] == s.rows[other]
      && (next.rows[id].copy.Verified? ==> !InRepository(hash, next, s.rows[other]))
  {
    var row := s.rows[id];
    CopyStepEach(s, step.wire, step.rules, step.copyIds);
    ProvenHoldsTheSource(step.wire, step.rules, Item(row), Lookup(Sources(hash, s.server), row.serverPath),
        At(s.sides, row.repoPath));
  }

  // Runs that lose a file. Two fulls are backed up and copied, and the older one's source is released; then an expiry
  // pass takes its copy and is not answered - or a later backup takes its path. A file is named, on the server and in
  // the repository, by one letter, and "x" and "y" hold their letters.

  function Letters(): Hash {
    content => Reading(content, None)
  }

  /** A transport that writes the letter a path is named by, and one that writes a given letter. */
  function Carrier(): Wire {
    Wire((path: string, copies: nat, held: Option<Content>) => Effect(false, Some(path)), Letters(), false)
  }

  function Bearer(content: Content): Wire {
    Wire((path: string, copies: nat, held: Option<Content>) => Effect(false, Some(content)), Letters(), false)
  }

  function FullRow(name: string, at: nat, content: Content): Row {
    Row("D", R.FULL, at, at, name, name, Some(content), None, Present, Waiting)
  }

  function ReleasingRun(): seq<Step> {
    [Backup(0, FullRow("x", 10, "x"), "x"), Backup(1, FullRow("y", 20, "y"), "y"),
     CopyPass(Carrier(), Rules(0, 0), [0, 1]), ReleasePass([0], path => Gone)]
  }

  function LosingRun(): seq<Step> {
    ReleasingRun() + [ExpirePass(R.Keep(1, 1, 1), 100, Removal(map["x" := 0], path => Unanswered(true)))]
  }

  function ReusingRun(): seq<Step> {
    ReleasingRun() + [Backup(2, FullRow("x", 30, "z"), "z"), CopyPass(Bearer("z"), Rules(0, 0), [2])]
  }

  function EmptyingRun(): seq<Step> {
    ReusingRun() + [ExpirePass(R.Keep(1, 1, 1), 100, Removal(map["x" := 0, "y" := 1], path => Gone))]
  }

  function BackedUp(): State {
    State(map[0 := FullRow("x", 10, "x"), 1 := FullRow("y", 20, "y")], map["x" := "x", "y" := "y"], map[])
  }

  function BothCopied(source: SourceState): map<nat, Row> {
    map[0 := FullRow("x", 10, "x").(copy := Verified, source := source), 1 := FullRow("y", 20, "y").(copy := Verified)]
  }

  lemma BackupsArrive(run: seq<Step>)
    requires run == ReleasingRun()[..2]
    ensures After(Letters(), run) == World(BackedUp(), {}, {}, {})
  {
    var none := World(State(map[], map[], map[]), {}, {}, {});
    assert Lower("x") == "x" && Lower("y") == "y" && "x"[0] != "y"[0];
    assert run[..1][..0] == [] && After(Letters(), []) == none;
    var one := World(State(map[0 := FullRow("x", 10, "x")], map["x" := "x"], map[]), {}, {}, {});
    assert Allowed(Letters(), none.s, run[0]) && Onward(Letters(), none, run[0]) == one;
    assert After(Letters(), run[..1]) == one;
    assert Allowed(Letters(), one.s, run[1]);
    assert Onward(Letters(), one, run[1]) == World(BackedUp(), {}, {}, {});
  }

  /** One file, copied by a transport that writes its content: proven, and the target holds it. */
  lemma CarriedOver(w: Wire, row: Row, side: Side)
    requires w.hash == Letters() && !w.deferred && row.checksum.Some? && row.size.None?
    requires var content := row.checksum.value;
      && content != "" && Lower(content) == content
      && w.effect(row.repoPath, side.copies, side.content) == Effect(false, Some(content))
      && (side.content.Some? ==> Lower(side.content.value) != content)
    ensures var content := row.checksum.value;
      var (o, after) := Alone(w, Rules(0, 0), Item(row), Some(Reading(content, None)), side);
      Proven(o.verdict) && after.content == Some(content)
  {
    var content := row.checksum.value;
    var item, source := Item(row), Reading(content, None);
    var o := Outcome(Copying, Some(content), None, None, []);
    assert Screened(Rules(0, 0), item, Some(source)) == o;
    var compared := Compared(o, source, Look(w, side));
    assert compared.verdict.Copying?;
    assert Try(w, row.repoPath, source, side, 1).result == AttemptMatch;
  }

  /** In a pass, too. */
  lemma CarriedOverInAPass(s: State, w: Wire, ids: seq<nat>, id: nat)
    requires NoDuplicates(ids) && (forall id :: id in ids ==> id in s.rows) && TargetsApart(s.rows, ids) && id in ids
    requires w.hash == Letters() && !w.deferred && s.rows[id].checksum.Some? && s.rows[id].size.None?
    requires var row, side, content := s.rows[id], At(s.sides, s.rows[id].repoPath), s.rows[id].checksum.value;
      && content != "" && Lower(content) == content
      && row.serverPath in s.server && s.server[row.serverPath] == content
      && w.effect(row.repoPath, side.copies, side.content) == Effect(false, Some(content))
      && (side.content.Some? ==> Lower(side.content.value) != content)
    ensures var after, row := CopyStep(s, w, Rules(0, 0), ids), s.rows[id];
      id in after.rows && after.rows[id] == row.(copy := Verified)
        && At(after.sides, row.repoPath).content == Some(row.checksum.value)
  {
    CopyStepEach(s, w, Rules(0, 0), ids);
    CarriedOver(w, s.rows[id], At(s.sides, s.rows[id].repoPath));
  }

  lemma BothMayBeCopied()
    ensures Allowed(Letters(), BackedUp(), ReleasingRun()[2])
  {
    assert NoDuplicates([0, 1]) && "x"[0] != "y"[0];
  }

  lemma TwoRows(rows: map<nat, Row>, x: Row, y: Row)
    requires rows.Keys == {0, 1} && rows[0] == x && rows[1] == y
    ensures rows == map[0 := x, 1 := y]
  {
  }

  lemma OneIsCopied(copied: State, id: nat, name: string)
    requires copied == CopyStep(BackedUp(), Carrier(), Rules(0, 0), [0, 1])
    requires (id == 0 && name == "x") || (id == 1 && name == "y")
    ensures id in copied.rows && copied.rows[id] == BackedUp().rows[id].(copy := Verified)
    ensures At(copied.sides, name).content == Some(name)
  {
    assert Lower("x") == "x" && Lower("y") == "y" && "x"[0] != "y"[0];
    BothMayBeCopied();
    assert 0 in [0, 1] && 1 in [0, 1];
    CarriedOverInAPass(BackedUp(), Carrier(), [0, 1], id);
  }

  lemma BothAreCopied(copied: State)
    requires copied == CopyStep(BackedUp(), Carrier(), Rules(0, 0), [0, 1])
    ensures copied.rows == BothCopied(Present) && copied.server == BackedUp().server
    ensures At(copied.sides, "x").content == Some("x")
  {
    BothMayBeCopied();
    CopyStepEach(BackedUp(), Carrier(), Rules(0, 0), [0, 1]);
    OneIsCopied(copied, 0, "x");
    OneIsCopied(copied, 1, "y");
    assert copied.rows.Keys == {0, 1};
    TwoRows(copied.rows, BackedUp().rows[0].(copy := Verified), BackedUp().rows[1].(copy := Verified));
  }

  lemma TheOlderIsReleased(copied: State, released: State)
    requires copied.rows == BothCopied(Present) && copied.server == BackedUp().server
    requires At(copied.sides, "x").content == Some("x")
    requires released == ReleaseStep(copied, Letters(), [0], path => Gone)
    ensures released.rows == BothCopied(Pruned) && "x" !in released.server && released.sides == copied.sides
  {
    assert copied.rows[0].started in PresentStarts(copied.rows, "D")
      && copied.rows[1].started in PresentStarts(copied.rows, "D");
    assert PresentStarts(copied.rows, "D") == {10, 20};
    assert Floor(copied.rows, "D") == Some(20);
    assert BelowFloor(copied.rows, copied.rows[0]);
    assert Lower("x") == "x" && Reads(Letters(), At(copied.sides, "x")) == Some(Reading("x", None));
    assert FateOf(Letters(), copied, copied.rows[0]).Deletable?;
    assert 0 in [0] && copied.rows[0].serverPath == "x";
  }

  lemma TheOlderIsPlanned(s: State)
    requires s.rows == BothCopied(Pruned)
    ensures forall id :: Planned(s, R.Keep(1, 1, 1), 100, id) <==> id == 0
  {
    var x, y := AsCopy(0, s.rows[0]), AsCopy(1, s.rows[1]);
    assert x in VerifiedCopies(s.rows) && y in VerifiedCopies(s.rows);
    forall c | c in VerifiedCopies(s.rows) ensures c == x || c == y {}
    assert 20 in R.Starts(VerifiedCopies(s.rows), "D");
    assert R.Starts(VerifiedCopies(s.rows), "D") == {10, 20};
  }

  lemma Copied(copied: World)
    requires copied == After(Letters(), ReleasingRun()[..3])
    ensures copied.s.rows == BothCopied(Present) && copied.s.server == BackedUp().server
    ensures At(copied.s.sides, "x").content == Some("x") && copied.damaged == {}
  {
    var run := ReleasingRun();
    assert run[..3][..2] == run[..2] && run[..3][2] == run[2];
    BackupsArrive(run[..2]);
    BothMayBeCopied();
    var backed := World(BackedUp(), {}, {}, {});
    assert copied == Onward(Letters(), backed, run[2]);
    BothAreCopied(copied.s);
  }

  lemma Released(w: World)
    requires w == After(Letters(), ReleasingRun())
    ensures w.s.rows == BothCopied(Pruned) && "x" !in w.s.server && w.damaged == {}
    ensures At(w.s.sides, "x").content == Some("x")
  {
    var run := ReleasingRun();
    var copied := After(Letters(), run[..3]);
    Copied(copied);
    assert Allowed(Letters(), copied.s, run[3]);
    assert w == Onward(Letters(), copied, run[3]);
    TheOlderIsReleased(copied.s, w.s);
  }

  /** The run, and what it comes to: the file is on no server and in no repository, and its row still says verified. */
  lemma AnUnansweredRemovalLosesAFile()
    ensures var w := After(Letters(), LosingRun());
      && 0 in w.s.rows && w.damaged == {} && w.s.rows[0].copy.Verified? && w.s.rows[0].source.Pruned?
      && !OnServer(Letters(), w.s, w.s.rows[0]) && !InRepository(Letters(), w.s, w.s.rows[0])
  {
    var run := LosingRun();
    assert run[..|run| - 1] == ReleasingRun();
    var before, step := After(Letters(), ReleasingRun()), run[4];
    Released(before);
    TheOlderIsPlanned(before.s);
    assert Allowed(Letters(), before.s, step);
    assert After(Letters(), run) == Onward(Letters(), before, step);
    assert Taken(step.removal, "x") && before.s.rows[0].repoPath == "x";
    assert !Expiring(before.s, step.removal, 0);
  }

  lemma ThePathIsTaken(before: World, after: World)
    requires before.s.rows == BothCopied(Pruned) && "x" !in before.s.server && before.damaged == {}
    requires Allowed(Letters(), before.s, ReusingRun()[4])
    requires after == Onward(Letters(), before, ReusingRun()[4])
    ensures after.s.rows == BothCopied(Pruned)[2 := FullRow("x", 30, "z")]
    ensures after.s.server == before.s.server["x" := "z"]
    ensures after.damaged == {} && after.s.sides == before.s.sides
    ensures Allowed(Letters(), after.s, ReusingRun()[5])
  {
  }

  lemma MayBeTaken(s: State)
    requires s.rows == BothCopied(Pruned) && "x" !in s.server
    ensures Allowed(Letters(), s, ReusingRun()[4])
  {
    assert Lower("z") == "z" && "x"[0] != "y"[0];
  }

  /** The new file of the path copied: it is proven. */
  lemma TheNewIsCopied(s: State, copied: State)
    requires s.rows == BothCopied(Pruned)[2 := FullRow("x", 30, "z")] && "x" in s.server && s.server["x"] == "z"
    requires At(s.sides, "x").content == Some("x")
    requires copied == CopyStep(s, Bearer("z"), Rules(0, 0), [2])
    ensures copied.rows == BothCopied(Pruned)[2 := FullRow("x", 30, "z").(copy := Verified)]
    ensures copied.server == s.server
    ensures At(copied.sides, "x").content == Some("z")
  {
    assert Lower("z") == "z" && Lower("x") == "x" && "x"[0] != "z"[0];
    assert s.rows[2].repoPath == "x";
    CopyStepEach(s, Bearer("z"), Rules(0, 0), [2]);
    assert 2 in [2];
    CarriedOverInAPass(s, Bearer("z"), [2], 2);
  }

  lemma Reused(w: World)
    requires w == After(Letters(), ReusingRun())
    ensures w.s.rows == BothCopied(Pruned)[2 := FullRow("x", 30, "z").(copy := Verified)] && w.damaged == {}
    ensures "x" in w.s.server && w.s.server["x"] == "z" && At(w.s.sides, "x").content == Some("z")
  {
    var run := ReusingRun();
    assert run[..5][..4] == ReleasingRun();
    var released := After(Letters(), ReleasingRun());
    Released(released);
    MayBeTaken(released.s);
    var taken := Onward(Letters(), released, run[4]);
    assert After(Letters(), run[..5]) == taken;
    ThePathIsTaken(released, taken);
    assert w == Onward(Letters(), taken, run[5]);
    TheNewIsCopied(taken.s, w.s);
  }

  lemma NoneIsUnanswered()
    ensures forall k :: 0 <= k < |ReusingRun()| ==> Answered(ReusingRun()[k])
    ensures forall k :: 0 <= k < |EmptyingRun()| ==> Answered(EmptyingRun()[k])
  {
    forall k | 0 <= k < |ReusingRun()| ensures !ReusingRun()[k].ExpirePass? {
      if k < 4 { assert ReusingRun()[k] == ReleasingRun()[k]; }
    }
    forall k | 0 <= k < |EmptyingRun()| ensures Answered(EmptyingRun()[k]) {
      if k < 6 { assert EmptyingRun()[k] == ReusingRun()[k]; }
    }
  }

  /** No removal goes unanswered here - there is none - and nothing is damaged: a file written at a released file's path
      is copied over its copy, which is nowhere then and its row still verified. */
  lemma AReusedPathLosesAFile()
    ensures forall k :: 0 <= k < |ReusingRun()| ==> Answered(ReusingRun()[k])
    ensures var w := After(Letters(), ReusingRun());
      && 0 in w.s.rows && w.damaged == {} && w.s.rows[0].copy.Verified? && w.s.rows[0].source.Pruned?
      && !OnServer(Letters(), w.s, w.s.rows[0]) && !InRepository(Letters(), w.s, w.s.rows[0])
  {
    NoneIsUnanswered();
    var w := After(Letters(), ReusingRun());
    Reused(w);
    assert Lower("x") == "x" && Lower("z") == "z" && "x"[0] != "z"[0];
  }

  lemma TheOldTwoArePlanned(s: State)
    requires s.rows == BothCopied(Pruned)[2 := FullRow("x", 30, "z").(copy := Verified)]
    ensures forall id :: Planned(s, R.Keep(1, 1, 1), 100, id) <==> id == 0 || id == 1
  {
    var copies := VerifiedCopies(s.rows);
    var x, y, z := AsCopy(0, s.rows[0]), AsCopy(1, s.rows[1]), AsCopy(2, s.rows[2]);
    assert x in copies && y in copies && z in copies;
    forall c | c in copies ensures c == x || c == y || c == z {}
    assert R.Starts(copies, "D") == {10, 20, 30};
  }

  /** The same run, and an expiry pass answered for every path: it names the old copy of the path, and takes the new
      one, whose row still says verified. */
  lemma AReusedPathLosesACopy()
    ensures forall k :: 0 <= k < |EmptyingRun()| ==> Answered(EmptyingRun()[k])
    ensures var w := After(Letters(), EmptyingRun());
      2 in w.s.rows && w.s.rows[2].copy.Verified? && !HoldsChecksum(Letters(), w.s, w.s.rows[2])
  {
    NoneIsUnanswered();
    var run, before := EmptyingRun(), After(Letters(), ReusingRun());
    assert run[..|run| - 1] == ReusingRun();
    Reused(before);
    TheOldTwoArePlanned(before.s);
    assert "x"[0] != "y"[0];
    assert Allowed(Letters(), before.s, run[6]);
    assert After(Letters(), run) == Onward(Letters(), before, run[6]);
    assert Taken(run[6].removal, "x") && before.s.rows[2].repoPath == "x";
  }

  /** Some full of the database, whatever became of it, began after the moment. */
  ghost predicate FullEverAfter(rows: map<nat, Row>, database: string, moment: nat) {
    exists f :: f in rows && rows[f].database == database && rows[f].fileType in {R.FULL, R.FULL_BASE, R.RMAN_L0}
      && moment < rows[f].started
  }

  /** Some full of the database that is still on its server began after the moment. */
  ghost predicate FullThereAfter(rows: map<nat, Row>, database: string, moment: nat) {
    exists f :: f in rows && rows[f].database == database && rows[f].fileType in {R.FULL, R.FULL_BASE, R.RMAN_L0}
      && rows[f].source == Present && moment < rows[f].started
  }

  lemma FloorsExactly(rows: map<nat, Row>, database: string, moment: nat)
    ensures FullEverAfter(rows, database, moment) <==>
      FloorEver(rows, database).Some? && moment < FloorEver(rows, database).value
    ensures FullThereAfter(rows, database, moment) <==>
      Floor(rows, database).Some? && moment < Floor(rows, database).value
  {
    var ever, there := FloorEver(rows, database), Floor(rows, database);
    if ever.Some? {
      var f :| f in rows && rows[f].database == database && IsFullRow(rows[f]) && rows[f].started == ever.value;
      assert moment < ever.value ==> FullEverAfter(rows, database, moment);
    }
    if there.Some? {
      var f :| f in rows && rows[f].database == database && IsFullRow(rows[f]) && rows[f].source.Present?
               && rows[f].started == there.value;
      assert moment < there.value ==> FullThereAfter(rows, database, moment);
    }
    forall f | f in rows && rows[f].database == database && rows[f].fileType in {R.FULL, R.FULL_BASE, R.RMAN_L0}
      ensures rows[f].started in FullStarts(rows, database)
      ensures rows[f].source == Present ==> rows[f].started in PresentStarts(rows, database) {}
  }

  /** The server's newest chain is complete: a file after which no full of its database began is on its server, as
      recorded, if nothing outside touched it. */
  lemma {:induction false} NewestChainStays(hash: Hash, steps: seq<Step>, id: nat)
    requires id in After(hash, steps).s.rows
    ensures var w := After(hash, steps);
      var row := w.s.rows[id];
      id !in w.damaged && !FullEverAfter(w.s.rows, row.database, row.at) ==>
        && row.serverPath in w.s.server
        && (row.checksum.None? || ReadsAs(hash, w.s.server[row.serverPath], row))
        && (row.source == Present || (row.source == Mismatched && row.checksum.None?))
  {
    EveryRunIsSafe(hash, steps);
    var w := After(hash, steps);
    FloorsExactly(w.s.rows, w.s.rows[id].database, w.s.rows[id].at);
    HeldExactly(hash, w.s, w.s.rows[id]);
    assert RowSafe(hash, w, id);
  }

  /** A release may look at a file: no base backup's directory, and older than a full that is there. */
  ghost predicate MayGo(rows: map<nat, Row>, row: Row) {
    row.fileType != R.FULL_BASE && row.fileType != R.INCR_BASE && FullThereAfter(rows, row.database, row.at)
  }

  lemma FateExactly(hash: Hash, s: State, row: Row)
    ensures FateOf(hash, s, row) ==
      if !MayGo(s.rows, row) then Stays else if CopyReads(hash, s, row) then Deletable else Refused
  {
    FloorsExactly(s.rows, row.database, row.at);
    HeldExactly(hash, s, row);
  }

  /** What a release comes to, file by file. One that may go and whose copy reads as recorded now is deleted, and pruned
      when the server says it is gone; one that may go and whose copy reads otherwise has failed; every other, and every
      file not asked for, is as it was. Nothing else leaves the server, and the repository is not touched. */
  lemma ReleasedExactly(hash: Hash, s: State, ids: seq<nat>, answers: string -> Answer, id: nat, path: string)
    requires id in s.rows
    ensures var next, row := ReleaseStep(s, hash, ids, answers), s.rows[id];
      && next.rows.Keys == s.rows.Keys && next.sides == s.sides
      && next.rows[id] ==
        (if id !in ids || !MayGo(s.rows, row) then row
         else if !CopyReads(hash, s, row) then row.(copy := Failed)
         else if answers(row.serverPath) == Gone then row.(source := Pruned)
         else row)
      && (path in next.server ==> path in s.server && next.server[path] == s.server[path])
      && (path in s.server ==> (path !in next.server <==> exists other ::
            && other in ids && other in s.rows && s.rows[other].serverPath == path
            && MayGo(s.rows, s.rows[other]) && CopyReads(hash, s, s.rows[other])
            && answers(path) in {Gone, Unanswered(true)}))
  {
    FateExactly(hash, s, s.rows[id]);
    forall other | other in ids && other in s.rows
      ensures Removes(hash, s, s.rows[other], answers) <==>
        && MayGo(s.rows, s.rows[other]) && CopyReads(hash, s, s.rows[other])
        && answers(s.rows[other].serverPath) in {Gone, Unanswered(true)}
    {
      FateExactly(hash, s, s.rows[other]);
    }
  }

  /** From any state at all, tampered with or not: a pass takes a file off its server only by a release, older than a
      full of its database that is there, with the copy just read equal to the recorded checksum and size. */
  lemma DeletedOnlyOnProof(hash: Hash, s: State, step: Step, path: string)
    requires Allowed(hash, s, step) && !step.Damage? && path in s.server
    ensures var after := Next(hash, s, step).server;
      if path in after then after[path] == s.server[path]
      else step.ReleasePass? && exists id ::
        && id in step.releaseIds && s.rows[id].serverPath == path
        && s.rows[id].copy == Verified && MayGo(s.rows, s.rows[id]) && CopyReads(hash, s, s.rows[id])
  {
    if step.ReleasePass? && path !in Next(hash, s, step).server {
      var id :| id in step.releaseIds && id in s.rows && s.rows[id].serverPath == path
                && Removes(hash, s, s.rows[id], step.answers);
      FateExactly(hash, s, s.rows[id]);
    }
  }

  /** The directory of a base backup, full or incremental, stays: no pass takes off its server, or changes there, a path
      that such rows alone have; and a release leaves the rows as they were. */
  lemma DirectoriesStay(hash: Hash, s: State, step: Step, path: string)
    requires Allowed(hash, s, step) && !step.Damage? && path in s.server
    requires forall id :: id in s.rows && s.rows[id].serverPath == path ==>
      s.rows[id].fileType == R.FULL_BASE || s.rows[id].fileType == R.INCR_BASE
    ensures path in Next(hash, s, step).server && Next(hash, s, step).server[path] == s.server[path]
    ensures step.ReleasePass? ==> forall id ::
      id in s.rows && (s.rows[id].fileType == R.FULL_BASE || s.rows[id].fileType == R.INCR_BASE) ==>
        id in Next(hash, s, step).rows && Next(hash, s, step).rows[id] == s.rows[id]
  {
    DeletedOnlyOnProof(hash, s, step, path);
  }

  // ---------------------------------------------------------------- the other passes, in the rows' own fields

  /** What a copy pass comes to for one of its files. It is verified only with the copy reading as the file on the
      server does - and, where a checksum was recorded, with that checksum; it is missing exactly when it was not
      there, and its copy is then as it was. */
  lemma CopiedExactly(hash: Hash, s: State, step: Step, id: nat)
    requires Allowed(hash, s, step) && step.CopyPass? && id in step.copyIds
    ensures var next, row := Next(hash, s, step), s.rows[id];
      && id in next.rows && next.rows[id].copy in {Verified, Failed}
      && next.rows[id] == row.(copy := next.rows[id].copy, source := next.rows[id].source)
      && next.rows[id].source == (if row.serverPath in s.server then Present else Missing)
      && (next.rows[id].copy == Verified ==>
        && row.serverPath in s.server && row.repoPath in next.sides && next.sides[row.repoPath].content.Some?
        && ReadAlike(hash(next.sides[row.repoPath].content.value), hash(s.server[row.serverPath]))
        && (row.checksum.Some? ==> hash(s.server[row.serverPath]).sha == row.checksum.value))
      && (row.serverPath !in s.server ==> At(next.sides, row.repoPath) == At(s.sides, row.repoPath))
  {
    CopyStepEach(s, step.wire, step.rules, step.copyIds);
    assert ToOffload(s, id);
    GateExactly(s, step.wire, step.rules, s.rows[id]);
  }

  lemma GateExactly(s: State, w: Wire, rules: Integrity, row: Row)
    requires rules.verifySource
    ensures var (o, after) := GateAlone(s, w, rules, row);
      && (o.verdict.SourceMissing? <==> row.serverPath !in s.server)
      && (o.verdict.SourceMissing? ==> after == At(s.sides, row.repoPath))
      && (Proven(o.verdict) ==>
        && row.serverPath in s.server && after.content.Some?
        && ReadAlike(w.hash(after.content.value), w.hash(s.server[row.serverPath]))
        && (row.checksum.Some? ==> w.hash(s.server[row.serverPath]).sha == row.checksum.value))
  {
    var source, side := Lookup(Sources(w.hash, s.server), row.serverPath), At(s.sides, row.repoPath);
    ProvenHoldsTheSource(w, rules, Item(row), source, side);
    var (o, after) := Alone(w, rules, Item(row), source, side);
    if source.Some? { SameBytesExactly(Look(w, after), Some(source.value.sha), source.value.size); }
  }

  /** A row is verified exactly when it has files and every one was found equal, copied or copied again. Otherwise it
      has failed, and its source is missing exactly when it has files and every one was - or was before. */
  lemma MarkedExactly(row: Row, mine: seq<Outcome>)
    ensures var marked := Mark(row, mine);
      var missing := mine != [] && forall o :: o in mine ==> o.verdict == SourceMissing;
      && (marked.copy == Verified <==>
            mine != [] && forall o :: o in mine ==> o.verdict in {Verdict.Match, Verdict.Copied, Verdict.Recopied})
      && marked == row.(copy := marked.copy, source := if missing then Missing else row.source)
      && marked.copy in {Verified, Failed}
  {
    if mine != [] { assert mine[0] in mine; }
  }

  /** What a check comes to for one file not pruned: where nothing stands, it is pruned when its server's own retention
      was to take it, and missing otherwise; where something stands, it is present with the recorded checksum and
      mismatched with any other. */
  lemma CheckedExactly(hash: Hash, s: State, ids: seq<nat>, past: nat -> bool, id: nat)
    requires id in s.rows
    ensures var next, row := CheckStep(s, hash, ids, past), s.rows[id];
      var there := row.serverPath in s.server;
      && next.server == s.server && next.sides == s.sides && next.rows.Keys == s.rows.Keys
      && next.rows[id] == row.(source := next.rows[id].source)
      && (id !in ids || row.source == Pruned ==> next.rows[id] == row)
      && (id in ids && row.source != Pruned ==>
        && (next.rows[id].source == Pruned <==> !there && past(id))
        && (next.rows[id].source == Missing <==> !there && !past(id))
        && (Canonical(row) ==> (next.rows[id].source == Present <==>
              there && row.checksum.Some? && SameButCase(hash(s.server[row.serverPath]).sha, row.checksum.value))))
  {
    if s.rows[id].serverPath in s.server && s.rows[id].checksum.Some? {
      LowerFolds(hash(s.server[s.rows[id].serverPath]).sha, s.rows[id].checksum.value);
    }
  }

  // ---------------------------------------------------------------- expiry passes

  /** The copies a pass expires. */
  function LetGoBy(s: State, removal: Removal): set<R.Copy> {
    set id | id in s.rows && Expiring(s, removal, id) :: AsCopy(id, s.rows[id])
  }

  /** An expiry pass takes out of the verified copies exactly those of its plan whose path stands for them and the host
      reports gone - of the plan's copies with a path of their own, exactly those reported gone. */
  lemma ExpiryTakesThePlan(s: State, keep: R.Keep, now: nat, removal: Removal)
    requires OfThePlan(s, keep, now, removal.paths)
    ensures LetGoBy(s, removal) <= R.Plan(VerifiedCopies(s.rows), keep, now)
    ensures VerifiedCopies(ExpireStep(s, removal).rows) == VerifiedCopies(s.rows) - LetGoBy(s, removal)
    ensures forall id :: id in s.rows ==>
      (Expiring(s, removal, id) <==> s.rows[id].copy.Verified? && AsCopy(id, s.rows[id]) in LetGoBy(s, removal))
    ensures forall id ::
      Planned(s, keep, now, id)
      && (forall other ::
           Planned(s, keep, now, other) && s.rows[other].repoPath == s.rows[id].repoPath ==> other == id) ==>
        (Expiring(s, removal, id) <==> removal.said(s.rows[id].repoPath).Gone?)
  {
    var s', gone := ExpireStep(s, removal), LetGoBy(s, removal);
    forall c | c in VerifiedCopies(s.rows) && c !in gone ensures c in VerifiedCopies(s'.rows) {
      var id :| id in s.rows && s.rows[id].copy.Verified? && c == AsCopy(id, s.rows[id]);
      assert s'.rows[id] == s.rows[id];
    }
    forall c | c in VerifiedCopies(s'.rows) ensures c in VerifiedCopies(s.rows) && c !in gone {
      var id :| id in s'.rows && s'.rows[id].copy.Verified? && c == AsCopy(id, s'.rows[id]);
      assert !Expiring(s, removal, id);
    }
  }

  /** When an expiry pass names a diff or log: exactly when its copy is verified, has outlived its stay, and some full
      of its database with a verified copy began after it. */
  lemma DependentPlannedExactly(s: State, keep: R.Keep, now: nat, id: nat)
    requires id in s.rows && s.rows[id].fileType in R.DIFFS + R.LOGS
    ensures var row := s.rows[id];
      var stay := if row.fileType in R.DIFFS then keep.diff else keep.log;
      Planned(s, keep, now, id) <==>
        && row.copy == Verified && stay != 0 && row.at != 0 && row.at + stay < now
        && exists f :: f in s.rows && s.rows[f].copy == Verified && s.rows[f].database == row.database
             && s.rows[f].fileType in R.FULLS
             && row.at < if s.rows[f].started != 0 then s.rows[f].started else s.rows[f].at
  {
    var row, copies := s.rows[id], VerifiedCopies(s.rows);
    if row.copy.Verified? {
      var d := AsCopy(id, row);
      assert d in copies;
      R.DependentGoesExactly(copies, keep, now, d);
      if g, start: nat :| g in copies && g.database == d.database && g.fileType in R.FULLS && R.Began(g, start)
                          && start > d.at {
        var f :| f in s.rows && s.rows[f].copy.Verified? && g == AsCopy(f, s.rows[f]);
      }
      forall f | f in s.rows && s.rows[f].copy.Verified? && s.rows[f].database == row.database
                 && s.rows[f].fileType in R.FULLS
                 && row.at < (if s.rows[f].started != 0 then s.rows[f].started else s.rows[f].at)
        ensures R.FullAfter(copies, d.database, d.at)
      {
        var g := AsCopy(f, s.rows[f]);
        assert g in copies && R.Began(g, if s.rows[f].started != 0 then s.rows[f].started else s.rows[f].at);
      }
    }
  }

  /** A control file or spfile that stayed while every full-level file of its run went. */
  predicate StrandedRow(s: State, removal: Removal, id: nat) {
    && id in s.rows && s.rows[id].copy.Verified?
    && R.Stranded(VerifiedCopies(s.rows), LetGoBy(s, removal), AsCopy(id, s.rows[id]))
  }

  /** Two expiry passes, whatever was refused or unanswered: the later one plans what it alone would, less what the
      earlier expired and less what that left stranded. */
  lemma ExpiryPassesCompose(s: State, keep: R.Keep, t1: nat, t2: nat, first: Removal, id: nat)
    requires t1 <= t2 && id in s.rows && OfThePlan(s, keep, t1, first.paths)
    ensures Planned(ExpireStep(s, first), keep, t2, id) <==>
      Planned(s, keep, t2, id) && !Expiring(s, first, id) && !StrandedRow(s, first, id)
    ensures Expiring(s, first, id) || StrandedRow(s, first, id) ==> Planned(s, keep, t2, id)
  {
    var copies, gone := VerifiedCopies(s.rows), LetGoBy(s, first);
    ExpiryTakesThePlan(s, keep, t1, first);
    R.PassesComposeWhateverStays(copies, gone, keep, t1, t2);
    R.PlanGrows(copies, keep, t1, t2);
    if s.rows[id].copy.Verified? { assert AsCopy(id, s.rows[id]) in copies; }
  }

  /** Of one row: the later pass alone expires it if the earlier of the two did, not if the earlier stranded it, and
      otherwise as the second does. */
  predicate ExpiresAlike(s: State, first: Removal, second: Removal, alone: Removal, id: nat) {
    if Expiring(s, first, id) then Expiring(s, alone, id)
    else if StrandedRow(s, first, id) then !Expiring(s, alone, id)
    else Expiring(ExpireStep(s, first), second, id) <==> Expiring(s, alone, id)
  }

  lemma RowExpiresAlike(s: State, keep: R.Keep, t1: nat, t2: nat, first: Removal, second: Removal, alone: Removal,
                        id: nat)
    requires t1 <= t2 && OfThePlan(s, keep, t1, first.paths) && id in s.rows
    requires OfThePlan(ExpireStep(s, first), keep, t2, second.paths) && OfThePlan(s, keep, t2, alone.paths)
    ensures ExpireStep(ExpireStep(s, first), second).rows[id] == ExpireStep(s, alone).rows[id] <==>
      ExpiresAlike(s, first, second, alone, id)
    ensures ExpiresAlike(s, first, second, alone, id) ==>
      (Expiring(s, first, id) || Expiring(ExpireStep(s, first), second, id) <==> Expiring(s, alone, id))
  {
    ExpiryPassesCompose(s, keep, t1, t2, first, id);
    assert Expiring(ExpireStep(s, first), second, id) ==> Planned(ExpireStep(s, first), keep, t2, id);
    assert Expiring(s, alone, id) ==> Planned(s, keep, t2, id);
    assert Expiring(s, first, id) ==> Planned(s, keep, t1, id);
  }

  /** The catalog ends as the later pass alone would leave it exactly when, for every row, that pass would expire what
      the earlier one did, nothing the earlier one stranded, and of the rest what the second of the two expires. */
  lemma ExpiryPassesAgree(s: State, keep: R.Keep, t1: nat, t2: nat, first: Removal, second: Removal, alone: Removal)
    requires t1 <= t2 && OfThePlan(s, keep, t1, first.paths)
    requires OfThePlan(ExpireStep(s, first), keep, t2, second.paths) && OfThePlan(s, keep, t2, alone.paths)
    ensures ExpireStep(ExpireStep(s, first), second).rows == ExpireStep(s, alone).rows <==>
      forall id :: id in s.rows ==> ExpiresAlike(s, first, second, alone, id)
  {
    var twice, once := ExpireStep(ExpireStep(s, first), second), ExpireStep(s, alone);
    forall id | id in s.rows ensures twice.rows[id] == once.rows[id] <==> ExpiresAlike(s, first, second, alone, id) {
      RowExpiresAlike(s, keep, t1, t2, first, second, alone, id);
    }
    assert twice.rows.Keys == s.rows.Keys == once.rows.Keys;
  }

  /** Where every pass is answered and they agree on the catalog, the repository too ends as the later alone leaves
      it. */
  lemma AnsweredPassesAgree(s: State, keep: R.Keep, t1: nat, t2: nat, first: Removal, second: Removal, alone: Removal)
    requires t1 <= t2 && OfThePlan(s, keep, t1, first.paths)
    requires OfThePlan(ExpireStep(s, first), keep, t2, second.paths) && OfThePlan(s, keep, t2, alone.paths)
    requires forall p :: !first.said(p).Unanswered? && !second.said(p).Unanswered? && !alone.said(p).Unanswered?
    requires ExpireStep(ExpireStep(s, first), second).rows == ExpireStep(s, alone).rows
    ensures ExpireStep(ExpireStep(s, first), second) == ExpireStep(s, alone)
  {
    var s1 := ExpireStep(s, first);
    ExpiryPassesAgree(s, keep, t1, t2, first, second, alone);
    forall id ensures Expiring(s, first, id) || Expiring(s1, second, id) <==> Expiring(s, alone, id) {
      if id in s.rows { RowExpiresAlike(s, keep, t1, t2, first, second, alone, id); }
    }
    forall p ensures Taken(first, p) || Taken(second, p) <==> Taken(alone, p) {
      TakenAnswered(s, keep, t1, first, p);
      TakenAnswered(s1, keep, t2, second, p);
      TakenAnswered(s, keep, t2, alone, p);
    }
    SidesAgree(s, first, second, alone);
  }

  lemma SidesAgree(s: State, first: Removal, second: Removal, alone: Removal)
    requires forall p :: Taken(first, p) || Taken(second, p) <==> Taken(alone, p)
    ensures ExpireStep(ExpireStep(s, first), second).sides == ExpireStep(s, alone).sides
  {
    var twice, once := ExpireStep(ExpireStep(s, first), second), ExpireStep(s, alone);
    assert twice.sides.Keys == once.sides.Keys;
  }

  lemma TakenAnswered(s: State, keep: R.Keep, now: nat, removal: Removal, p: string)
    requires OfThePlan(s, keep, now, removal.paths) && !removal.said(p).Unanswered?
    ensures Taken(removal, p) <==> exists id :: id in s.rows && s.rows[id].repoPath == p && Expiring(s, removal, id)
  {
    if Taken(removal, p) { assert Expiring(s, removal, removal.paths[p]); }
  }

  /** A pass keeps every chain of the repository whole - no diff or log without its full, no full in part - exactly
      when nothing it planned and did not expire rests on anything it expired. */
  lemma ExpiryKeepsChainsExactly(s: State, keep: R.Keep, now: nat, removal: Removal)
    requires OfThePlan(s, keep, now, removal.paths)
    ensures var copies := VerifiedCopies(s.rows);
      R.ChainsWhole(copies, copies - VerifiedCopies(ExpireStep(s, removal).rows)) <==>
        forall a, b :: Planned(s, keep, now, a) && !Expiring(s, removal, a) && Expiring(s, removal, b) ==>
          !R.RestsOn(copies, AsCopy(a, s.rows[a]), AsCopy(b, s.rows[b]))
  {
    var copies, gone := VerifiedCopies(s.rows), LetGoBy(s, removal);
    ExpiryTakesThePlan(s, keep, now, removal);
    assert copies - VerifiedCopies(ExpireStep(s, removal).rows) == gone;
    R.ChainsWholeExactly(copies, gone, keep, now);
    forall a | Planned(s, keep, now, a) && !Expiring(s, removal, a)
      ensures AsCopy(a, s.rows[a]) in R.Plan(copies, keep, now) - gone {}
    forall b | Expiring(s, removal, b) ensures AsCopy(b, s.rows[b]) in gone {}
  }

  ghost predicate VerifiedApart(rows: map<nat, Row>) {
    forall a, b :: a in rows && b in rows && a != b && rows[a].copy.Verified? && rows[b].copy.Verified? ==>
      rows[a].repoPath != rows[b].repoPath
  }

  /** Where every verified copy has a path of its own and the host would answer the later pass alike: exactly when that
      pass is told gone of all the earlier one expired, and of nothing the earlier one stranded. */
  lemma ApartPassesAgree(s: State, keep: R.Keep, t1: nat, t2: nat, first: Removal, second: Removal, alone: Removal)
    requires t1 <= t2 && OfThePlan(s, keep, t1, first.paths)
    requires OfThePlan(ExpireStep(s, first), keep, t2, second.paths) && OfThePlan(s, keep, t2, alone.paths)
    requires VerifiedApart(s.rows) && second.said == alone.said
    ensures ExpireStep(ExpireStep(s, first), second).rows == ExpireStep(s, alone).rows <==>
      && (forall id :: Expiring(s, first, id) ==> alone.said(s.rows[id].repoPath).Gone?)
      && (forall id :: StrandedRow(s, first, id) ==> !alone.said(s.rows[id].repoPath).Gone?)
  {
    ExpiryPassesAgree(s, keep, t1, t2, first, second, alone);
    forall id | id in s.rows
      ensures ExpiresAlike(s, first, second, alone, id) <==>
        && (Expiring(s, first, id) ==> alone.said(s.rows[id].repoPath).Gone?)
        && (StrandedRow(s, first, id) ==> !alone.said(s.rows[id].repoPath).Gone?)
    {
      ApartExpiresAlike(s, keep, t1, t2, first, second, alone, id);
    }
  }

  lemma ApartExpiresAlike(s: State, keep: R.Keep, t1: nat, t2: nat, first: Removal, second: Removal, alone: Removal,
                          id: nat)
    requires t1 <= t2 && OfThePlan(s, keep, t1, first.paths) && id in s.rows && VerifiedApart(s.rows)
    requires OfThePlan(ExpireStep(s, first), keep, t2, second.paths) && OfThePlan(s, keep, t2, alone.paths)
    requires second.said == alone.said
    ensures ExpiresAlike(s, first, second, alone, id) <==>
      && (Expiring(s, first, id) ==> alone.said(s.rows[id].repoPath).Gone?)
      && (StrandedRow(s, first, id) ==> !alone.said(s.rows[id].repoPath).Gone?)
  {
    ExpiryPassesCompose(s, keep, t1, t2, first, id);
    StoodForExactly(s, keep, t2, alone.paths, id);
    ExpiryKeepsApart(s, first);
    var s1, p := ExpireStep(s, first), s.rows[id].repoPath;
    StoodForExactly(s1, keep, t2, second.paths, id);
    assert s1.rows[id].repoPath == p;
    assert Expiring(s1, second, id) <==> Planned(s1, keep, t2, id) && alone.said(p).Gone?;
    assert Expiring(s, alone, id) <==> Planned(s, keep, t2, id) && alone.said(p).Gone?;
    assert Expiring(s, first, id) ==> !StrandedRow(s, first, id);
  }

  lemma ExpiryKeepsApart(s: State, removal: Removal)
    requires VerifiedApart(s.rows)
    ensures VerifiedApart(ExpireStep(s, removal).rows)
  {
    var rows := ExpireStep(s, removal).rows;
    forall a, b | a in rows && b in rows && a != b && rows[a].copy.Verified? && rows[b].copy.Verified?
      ensures rows[a].repoPath != rows[b].repoPath
    {
      assert rows[a] == s.rows[a] && rows[b] == s.rows[b];
    }
  }

  lemma StoodForExactly(s: State, keep: R.Keep, now: nat, paths: map<string, nat>, id: nat)
    requires OfThePlan(s, keep, now, paths) && VerifiedApart(s.rows)
    ensures StoodFor(s.rows, paths, id) <==> Planned(s, keep, now, id)
  {
    if Planned(s, keep, now, id) {
      var other := paths[s.rows[id].repoPath];
      assert Planned(s, keep, now, other) && s.rows[other].repoPath == s.rows[id].repoPath;
    }
  }

  // ---------------------------------------------------------------- the passes as they run

  function Of(outcomes: seq<Outcome>, indexes: seq<nat>): seq<Outcome>
    requires forall j :: 0 <= j < |indexes| ==> indexes[j] < |outcomes|
  {
    seq(|indexes|, j requires 0 <= j < |indexes| && indexes[j] < |outcomes| => outcomes[indexes[j]])
  }

  method MarkRow(row: Row, mine: seq<Outcome>) returns (marked: Row)
    ensures marked == Mark(row, mine)
  {
    var allProven, allMissing := mine != [], mine != [];
    for j := 0 to |mine|
      invariant allProven <==> mine != [] && forall i :: 0 <= i < j ==> Proven(mine[i].verdict)
      invariant allMissing <==> mine != [] && forall i :: 0 <= i < j ==> mine[i].verdict.SourceMissing?
    {
      allProven := allProven && Proven(mine[j].verdict);
      allMissing := allMissing && mine[j].verdict.SourceMissing?;
    }
    marked := if allProven then row.(copy := Verified) else row.(copy := Failed);
    if !allProven && allMissing {
      marked := marked.(source := Missing);
    }
  }

  /** Each row marked by the outcomes of its own files: one for a file, one for every file of a base backup. */
  method MarkRows(rows: map<nat, Row>, ids: seq<nat>, ofRow: seq<seq<nat>>, outcomes: seq<Outcome>)
    returns (marked: map<nat, Row>, verified: nat)
    requires NoDuplicates(ids) && |ofRow| == |ids| && forall id :: id in ids ==> id in rows
    requires forall k, j :: 0 <= k < |ofRow| && 0 <= j < |ofRow[k]| ==> ofRow[k][j] < |outcomes|
    ensures marked.Keys == rows.Keys
    ensures forall k :: 0 <= k < |ids| ==> marked[ids[k]] == Mark(rows[ids[k]], Of(outcomes, ofRow[k]))
    ensures forall id :: id in rows && id !in ids ==> marked[id] == rows[id]
    ensures verified == |set k | 0 <= k < |ids| && ids[k] in marked && marked[ids[k]].copy.Verified?|
  {
    marked, verified := rows, 0;
    ghost var proven: set<nat> := {};
    for k := 0 to |ids|
      invariant marked.Keys == rows.Keys && verified == |proven|
      invariant forall j :: 0 <= j < k ==> marked[ids[j]] == Mark(rows[ids[j]], Of(outcomes, ofRow[j]))
      invariant forall id :: id in rows && id !in ids[..k] ==> marked[id] == rows[id]
      invariant forall j: nat :: j in proven <==> j < k && marked[ids[j]].copy.Verified?
    {
      var id, mine := ids[k], Of(outcomes, ofRow[k]);
      assert id in ids && id !in ids[..k];
      assert forall j :: 0 <= j < k ==> ids[j] != id;
      var row := MarkRow(marked[id], mine);
      marked := marked[id := row];
      if row.copy.Verified? {
        verified, proven := verified + 1, proven + {k};
      }
      TakeNext(ids, k);
    }
    assert proven == set k | 0 <= k < |ids| && ids[k] in marked && marked[ids[k]].copy.Verified?;
  }

  method FailAll(rows: map<nat, Row>, ids: seq<nat>) returns (failed: map<nat, Row>)
    requires forall id :: id in ids ==> id in rows
    ensures failed == map id | id in rows :: if id in ids then rows[id].(copy := Failed) else rows[id]
  {
    failed := rows;
    for k := 0 to |ids|
      invariant failed.Keys == rows.Keys
      invariant forall id :: id in rows ==> failed[id] == if id in ids[..k] then rows[id].(copy := Failed) else rows[id]
    {
      TakeNext(ids, k);
      assert ids[k] in ids;
      failed := failed[ids[k] := failed[ids[k]].(copy := Failed)];
    }
    assert ids[..|ids|] == ids;
  }

  method BuildItems(rows: map<nat, Row>, ids: seq<nat>) returns (items: seq<FileToCopy>, ofRow: seq<seq<nat>>)
    requires forall id :: id in ids ==> id in rows
    ensures items == Items(rows, ids) && |ofRow| == |ids|
    ensures forall k :: 0 <= k < |ids| ==> ofRow[k] == [k]
  {
    items, ofRow := [], [];
    for k := 0 to |ids|
      invariant |items| == |ofRow| == k
      invariant forall j :: 0 <= j < k ==> items[j] == Item(rows[ids[j]]) && ofRow[j] == [j]
    {
      assert ids[k] in ids;
      items, ofRow := items + [Item(rows[ids[k]])], ofRow + [[k]];
    }
  }

  lemma ItemsAreDistinct(rows: map<nat, Row>, ids: seq<nat>)
    requires NoDuplicates(ids) && (forall id :: id in ids ==> id in rows) && TargetsApart(rows, ids)
    ensures DistinctTargets(Items(rows, ids))
  {
    var items := Items(rows, ids);
    forall i, j | 0 <= i < j < |items| ensures items[i].targetPath != items[j].targetPath {
      assert ids[i] in ids && ids[j] in ids;
    }
  }

  lemma MarkedIs(rows: map<nat, Row>, ids: seq<nat>, outcomes: seq<Outcome>, ofRow: seq<seq<nat>>,
                 marked: map<nat, Row>)
    requires |ids| == |outcomes| == |ofRow| && NoDuplicates(ids) && forall id :: id in ids ==> id in rows
    requires marked.Keys == rows.Keys && forall k :: 0 <= k < |ids| ==> ofRow[k] == [k]
    requires forall k :: 0 <= k < |ids| ==> marked[ids[k]] == Mark(rows[ids[k]], Of(outcomes, ofRow[k]))
    requires forall id :: id in rows && id !in ids ==> marked[id] == rows[id]
    ensures marked == Marked(rows, ids, outcomes)
  {
    MarkedEach(rows, ids, outcomes);
    forall k | 0 <= k < |ids| ensures Of(outcomes, ofRow[k]) == [outcomes[k]] {}
    forall id | id in rows ensures marked[id] == Marked(rows, ids, outcomes)[id] {
      if id in ids { var k :| 0 <= k < |ids| && ids[k] == id; }
    }
  }

  lemma CopyStepIs(s: State, w: Wire, rules: Integrity, ids: seq<nat>)
    requires NoDuplicates(ids) && (forall id :: id in ids ==> id in s.rows) && TargetsApart(s.rows, ids)
    ensures var run := OneByOne(w, rules, Items(s.rows, ids), Sources(w.hash, s.server), s.sides);
      |run.0| == |ids| && CopyStep(s, w, rules, ids) == State(Marked(s.rows, ids, run.0), s.server, run.1)
  {
    ItemsAreDistinct(s.rows, ids);
    OneByOneIsEachAlone(w, rules, Items(s.rows, ids), Sources(w.hash, s.server), s.sides);
  }

  /** The files that may be released at all: not a directory, and older than their database's newest chain. */
  method ReleaseCandidates(rows: map<nat, Row>, ids: seq<nat>) returns (candidates: seq<nat>)
    requires NoDuplicates(ids) && forall id :: id in ids ==> id in rows
    ensures NoDuplicates(candidates)
    ensures forall id :: id in candidates <==> id in ids && BelowFloor(rows, rows[id])
  {
    candidates := [];
    for k := 0 to |ids|
      invariant NoDuplicates(candidates)
      invariant forall id :: id in candidates <==> id in ids[..k] && BelowFloor(rows, rows[id])
    {
      assert ids[k] in ids && ids[k] !in ids[..k];
      var row := rows[ids[k]];
      var floor := Floor(rows, row.database);
      TakeNext(ids, k);
      if !IsDirectory(row) && floor.Some? && row.at < floor.value {
        candidates := candidates + [ids[k]];
      }
    }
    assert ids[..|ids|] == ids;
  }

  /** Each candidate's copy as it reads now, held to what the backup recorded: a copy that differs is to be made
      again, and its source is kept. */
  method Recheck(rows: map<nat, Row>, candidates: seq<nat>, found: map<string, Reading>)
    returns (checked: map<nat, Row>, toDelete: seq<nat>)
    requires NoDuplicates(candidates) && forall id :: id in candidates ==> id in rows
    ensures checked.Keys == rows.Keys && NoDuplicates(toDelete)
    ensures forall id :: id in toDelete <==> id in candidates && Reproven(rows[id], found)
    ensures forall id :: id in rows ==>
      checked[id] == if id in candidates && !Reproven(rows[id], found) then rows[id].(copy := Failed) else rows[id]
  {
    checked, toDelete := rows, [];
    for k := 0 to |candidates|
      invariant checked.Keys == rows.Keys && NoDuplicates(toDelete)
      invariant forall id :: id in toDelete <==> id in candidates[..k] && Reproven(rows[id], found)
      invariant forall id :: id in rows ==>
        checked[id] ==
          if id in candidates[..k] && !Reproven(rows[id], found) then rows[id].(copy := Failed) else rows[id]
    {
      var id := candidates[k];
      assert id in candidates && id !in candidates[..k];
      TakeNext(candidates, k);
      if !Reproven(rows[id], found) {
        checked := checked[id := checked[id].(copy := Failed)];
      } else {
        toDelete := toDelete + [id];
      }
    }
    assert candidates[..|candidates|] == candidates;
  }

  predicate Reproven(row: Row, found: map<string, Reading>) {
    SameBytes(Lookup(found, row.repoPath), row.checksum, row.size)
  }

  /** The delete requests, and a row marked for each answer that says its file is gone. */
  method DeleteSources(rows: map<nat, Row>, server: map<string, Content>, toDelete: seq<nat>, answers: string -> Answer)
    returns (marked: map<nat, Row>, left: map<string, Content>, deleted: nat)
    requires NoDuplicates(toDelete) && forall id :: id in toDelete ==> id in rows
    ensures marked.Keys == rows.Keys
    ensures forall id :: id in rows ==>
      marked[id] ==
        if id in toDelete && answers(rows[id].serverPath).Gone? then rows[id].(source := Pruned) else rows[id]
    ensures forall p :: p in left <==>
      p in server && !exists id :: id in toDelete && rows[id].serverPath == p && Leaves(answers(p))
    ensures forall p :: p in left ==> left[p] == server[p]
  {
    marked, left, deleted := rows, server, 0;
    for k := 0 to |toDelete|
      invariant marked.Keys == rows.Keys
      invariant forall id :: id in rows ==>
        marked[id] ==
          if id in toDelete[..k] && answers(rows[id].serverPath).Gone? then rows[id].(source := Pruned) else rows[id]
      invariant forall p :: p in left <==>
        p in server && !exists id :: id in toDelete[..k] && rows[id].serverPath == p && Leaves(answers(p))
      invariant forall p :: p in left ==> left[p] == server[p]
    {
      var id := toDelete[k];
      assert id in toDelete && id !in toDelete[..k];
      TakeNext(toDelete, k);
      var path := rows[id].serverPath;
      if Leaves(answers(path)) {
        left := left - {path};
      }
      if answers(path).Gone? {
        marked, deleted := marked[id := marked[id].(source := Pruned)], deleted + 1;
      }
    }
    assert toDelete[..|toDelete|] == toDelete;
  }

  /** What the release has in hand when it marks: the candidates read again, and those whose copy is proven. */
  ghost predicate Rechecked(s: State, hash: Hash, ids: seq<nat>, candidates: seq<nat>, found: map<string, Reading>,
                            toDelete: seq<nat>) {
    && (forall id :: id in ids ==> id in s.rows)
    && (forall id :: id in candidates <==> id in ids && BelowFloor(s.rows, s.rows[id]))
    && (forall id :: id in candidates ==>
      Lookup(found, s.rows[id].repoPath) == Reads(hash, At(s.sides, s.rows[id].repoPath)))
    && (forall id :: id in toDelete <==> id in candidates && Reproven(s.rows[id], found))
  }

  lemma RecheckedFate(s: State, hash: Hash, ids: seq<nat>, candidates: seq<nat>, found: map<string, Reading>,
                      toDelete: seq<nat>, id: nat)
    requires Rechecked(s, hash, ids, candidates, found, toDelete) && id in ids
    ensures match FateOf(hash, s, s.rows[id])
      case Stays => id !in candidates && id !in toDelete
      case Refused => id in candidates && id !in toDelete
      case Deletable => id in candidates && id in toDelete
  {
  }

  lemma ReleasedRows(s: State, hash: Hash, ids: seq<nat>, candidates: seq<nat>, found: map<string, Reading>,
                     toDelete: seq<nat>, answers: string -> Answer, checked: map<nat, Row>, marked: map<nat, Row>)
    requires Rechecked(s, hash, ids, candidates, found, toDelete) && checked.Keys == s.rows.Keys == marked.Keys
    requires forall id :: id in s.rows ==>
      checked[id] ==
        if id in candidates && !Reproven(s.rows[id], found) then s.rows[id].(copy := Failed) else s.rows[id]
    requires forall id :: id in s.rows ==>
      marked[id] ==
        if id in toDelete && answers(checked[id].serverPath).Gone? then checked[id].(source := Pruned) else checked[id]
    ensures marked == ReleaseStep(s, hash, ids, answers).rows
  {
    forall id | id in s.rows ensures marked[id] == ReleaseStep(s, hash, ids, answers).rows[id] {
      if id in ids { RecheckedFate(s, hash, ids, candidates, found, toDelete, id); }
    }
  }

  lemma ReleasedServer(s: State, hash: Hash, ids: seq<nat>, candidates: seq<nat>, found: map<string, Reading>,
                       toDelete: seq<nat>, answers: string -> Answer, left: map<string, Content>)
    requires Rechecked(s, hash, ids, candidates, found, toDelete)
    requires forall p :: p in left <==>
      p in s.server && !exists id :: id in toDelete && s.rows[id].serverPath == p && Leaves(answers(p))
    requires forall p :: p in left ==> left[p] == s.server[p]
    ensures left == ReleaseStep(s, hash, ids, answers).server
  {
    forall p | p in s.server
      ensures (exists id :: id in toDelete && s.rows[id].serverPath == p && Leaves(answers(p)))
         <==> (exists id ::
                 id in ids && id in s.rows && s.rows[id].serverPath == p && Removes(hash, s, s.rows[id], answers))
    {
      forall id | id in ids
        ensures Removes(hash, s, s.rows[id], answers) <==> id in toDelete && Leaves(answers(s.rows[id].serverPath))
      {
        RecheckedFate(s, hash, ids, candidates, found, toDelete, id);
      }
      forall id | id in toDelete ensures id in ids {}
    }
  }

  ghost predicate Named(expire: seq<R.Copy>, k: nat, id: nat)
    requires k <= |expire|
  {
    exists j :: 0 <= j < k && expire[j].id == id
  }

  lemma NamedNext(expire: seq<R.Copy>, k: nat)
    requires k < |expire|
    ensures forall id: nat :: Named(expire, k + 1, id) <==> Named(expire, k, id) || id == expire[k].id
  {
    forall id: nat ensures Named(expire, k + 1, id) <==> Named(expire, k, id) || id == expire[k].id {
      if Named(expire, k, id) { var j :| 0 <= j < k && expire[j].id == id; }
    }
  }

  /** The paths of the copies named so far, each standing for one of them. */
  ghost predicate PathsSoFar(rows: map<nat, Row>, expire: seq<R.Copy>, k: nat, paths: map<string, nat>)
    requires k <= |expire|
  {
    && (forall p :: p in paths ==> Named(expire, k, paths[p]) && paths[p] in rows && rows[paths[p]].repoPath == p)
    && (forall id: nat :: Named(expire, k, id) && id in rows ==> rows[id].repoPath in paths)
  }

  /** The paths to delete, each with its row; of rows that share a path the last one stays. */
  method PathsToDelete(rows: map<nat, Row>, expire: seq<R.Copy>) returns (paths: map<string, nat>)
    requires forall c :: c in expire ==> c.id in rows
    ensures PathsSoFar(rows, expire, |expire|, paths)
  {
    paths := map[];
    for k := 0 to |expire|
      invariant PathsSoFar(rows, expire, k, paths)
    {
      assert expire[k] in expire;
      NamedNext(expire, k);
      paths := paths[rows[expire[k].id].repoPath := expire[k].id];
    }
  }

  /** The delete request: the paths the repository host lets go hold nothing after it. */
  method DeleteCopies(sides: map<string, Side>, removal: Removal) returns (left: map<string, Side>)
    ensures left.Keys == sides.Keys
    ensures forall p :: p in sides ==> left[p] == if Taken(removal, p) then Side(None, sides[p].copies) else sides[p]
  {
    left := sides;
    var todo := removal.paths.Keys;
    while todo != {}
      invariant todo <= removal.paths.Keys && left.Keys == sides.Keys
      invariant forall p :: p in sides ==>
        left[p] == if Taken(removal, p) && p !in todo then Side(None, sides[p].copies) else sides[p]
      decreases |todo|
    {
      var path :| path in todo;
      todo := todo - {path};
      if Leaves(removal.said(path)) && path in left {
        left := left[path := Side(None, left[path].copies)];
      }
    }
  }

  /** The row each path stands for is expired when the path is reported gone. */
  method MarkExpired(rows: map<nat, Row>, removal: Removal) returns (marked: map<nat, Row>, expired: nat)
    requires forall p :: p in removal.paths ==> removal.paths[p] in rows && rows[removal.paths[p]].repoPath == p
    ensures marked.Keys == rows.Keys
    ensures forall id :: id in rows ==> marked[id] == DealtWith(rows, removal, {}, id)
    ensures expired == |GoneBut(removal, {})|
  {
    marked, expired := rows, 0;
    var todo := removal.paths.Keys;
    while todo != {}
      invariant todo <= removal.paths.Keys && marked.Keys == rows.Keys
      invariant forall id :: id in rows ==> marked[id] == DealtWith(rows, removal, todo, id)
      invariant expired == |GoneBut(removal, todo)|
      decreases |todo|
    {
      var path :| path in todo;
      GoneNext(removal, todo, path);
      todo := todo - {path};
      if removal.said(path).Gone? {
        var id := removal.paths[path];
        marked, expired := marked[id := marked[id].(copy := Expired)], expired + 1;
      }
    }
  }

  /** The paths reported gone, but those still to do. */
  function GoneBut(removal: Removal, todo: set<string>): set<string> {
    set p | p in removal.paths && p !in todo && removal.said(p).Gone?
  }

  lemma GoneNext(removal: Removal, todo: set<string>, path: string)
    requires path in todo && path in removal.paths
    ensures |GoneBut(removal, todo - {path})| == |GoneBut(removal, todo)| + if removal.said(path).Gone? then 1 else 0
  {
    var before, after := GoneBut(removal, todo), GoneBut(removal, todo - {path});
    assert after == if removal.said(path).Gone? then before + {path} else before;
  }

  /** The row once the paths are dealt with, but those still to do. */
  function DealtWith(rows: map<nat, Row>, removal: Removal, todo: set<string>, id: nat): Row
    requires id in rows
  {
    if StoodFor(rows, removal.paths, id) && rows[id].repoPath !in todo && removal.said(rows[id].repoPath).Gone?
    then rows[id].(copy := Expired) else rows[id]
  }

  method CopiesOf(rows: map<nat, Row>, ids: seq<nat>) returns (copies: seq<R.Copy>)
    requires forall id :: id in ids ==> id in rows
    ensures |copies| == |ids|
    ensures forall k :: 0 <= k < |ids| ==> ids[k] in rows && copies[k] == AsCopy(ids[k], rows[ids[k]])
  {
    copies := [];
    for k := 0 to |ids|
      invariant |copies| == k && forall j :: 0 <= j < k ==> ids[j] in rows && copies[j] == AsCopy(ids[j], rows[ids[j]])
    {
      assert ids[k] in ids;
      copies := copies + [AsCopy(ids[k], rows[ids[k]])];
    }
  }

  /** The retention's plan of these verified copies, as the paths to delete. */
  method PlanRemoval(ghost s: State, rows: map<nat, Row>, ids: seq<nat>, keep: R.Keep, now: nat)
    returns (paths: map<string, nat>)
    requires rows == s.rows && NoDuplicates(ids) && forall id :: id in ids <==> id in rows && rows[id].copy.Verified?
    ensures OfThePlan(s, keep, now, paths)
    ensures forall p :: p in paths ==> paths[p] in rows && rows[paths[p]].repoPath == p
  {
    var copies := CopiesOf(rows, ids);
    var expire := R.ExpiryPlan(copies, keep, now);
    PlanOfRows(s, keep, now, ids, copies, expire);
    paths := PathsToDelete(rows, expire);
  }

  /** The files of one expiring copy on the repository host: itself, or what listing its directory found there. */
  datatype Holding = Single(path: string) | Listing(members: seq<string>) | Unlisted

  function FilesOf(h: Holding): seq<string> {
    match h
    case Single(path) => [path]
    case Listing(members) => members
    case Unlisted => []
  }

  predicate AllGone(h: Holding, answered: Option<set<string>>) {
    !h.Unlisted? && forall p :: p in FilesOf(h) ==> answered.Some? && p in answered.value
  }

  /** Which expiring copies may be marked: one whose directory could be listed, when every file of it is gone.
      `answered` says which paths the host reported deleted or not there; None when the request itself failed. */
  method GoneCopies(holdings: seq<Holding>, answered: Option<set<string>>) returns (gone: seq<bool>)
    ensures |gone| == |holdings|
    ensures forall k :: 0 <= k < |holdings| ==>
      (gone[k] <==>
        AllGone(holdings[k], answered) && (answered.Some? || forall h :: h in holdings ==> FilesOf(h) == []))
    ensures forall k :: 0 <= k < |holdings| ==>
      match holdings[k]
      case Single(path) => gone[k] <==> answered.Some? && path in answered.value
      case Unlisted => !gone[k]
      case Listing(members) =>
        if answered.Some? then gone[k] <==> forall p :: p in members ==> p in answered.value
        else gone[k] <==> forall h :: h in holdings ==> h.Unlisted? || (h.Listing? && h.members == [])
  {
    var asked := false;
    for k := 0 to |holdings|
      invariant asked <==> exists h :: h in holdings[..k] && FilesOf(h) != []
    {
      TakeNext(holdings, k);
      asked := asked || FilesOf(holdings[k]) != [];
    }
    assert holdings[..|holdings|] == holdings;
    if asked && answered.None? {
      return seq(|holdings|, _ => false);
    }
    gone := [];
    for k := 0 to |holdings|
      invariant |gone| == k
      invariant forall j :: 0 <= j < k ==> (gone[j] <==> AllGone(holdings[j], answered))
    {
      var files, all := FilesOf(holdings[k]), !holdings[k].Unlisted?;
      for i := 0 to |files|
        invariant all <==>
          !holdings[k].Unlisted? && forall p :: p in files[..i] ==> answered.Some? && p in answered.value
      {
        TakeNext(files, i);
        all := all && answered.Some? && files[i] in answered.value;
      }
      assert files[..|files|] == files;
      gone := gone + [all];
    }
  }

  class OffloadPass {
    const repository: TargetHost
    var rows: map<nat, Row>
    var server: map<string, Content>

    constructor (repository: TargetHost, rows: map<nat, Row>, server: map<string, Content>)
      ensures this.repository == repository && this.rows == rows && this.server == server
    {
      this.repository, this.rows, this.server := repository, rows, server;
    }

    ghost function Now(): State
      reads this, repository
    {
      State(rows, server, repository.sides)
    }

    /** Copy and prove these files onto the repository; mark each row by its verdict. A run that raises has left its
        targets as `broken` says; every row of it has failed, and what was queued is dropped. */
    method OffloadEntry(ids: seq<nat>, rules: Integrity, broken: Option<map<string, Side>>)
      returns (verified: Option<nat>)
      requires NoDuplicates(ids) && (forall id :: id in ids ==> id in rows) && TargetsApart(rows, ids)
      requires repository.queue == []
      modifies this, repository
      ensures repository.queue == []
      ensures broken.Some? ==> Now() == BrokenStep(old(Now()), ids, broken.value) && verified.None?
      ensures broken.None? ==>
        var next := CopyStep(old(Now()), repository.wire, rules, ids);
        && rows == next.rows && server == next.server
        && forall p :: At(repository.sides, p) == At(next.sides, p)
      ensures broken.None? ==>
        verified == Some(|set k | 0 <= k < |ids| && ids[k] in rows && rows[ids[k]].copy.Verified?|)
    {
      if broken.Some? {
        repository.sides, repository.queue := broken.value, [];
        rows := FailAll(rows, ids);
        return None;
      }
      var items, ofRow := BuildItems(rows, ids);
      var sources := Sources(repository.wire.hash, server);
      ItemsAreDistinct(rows, ids);
      CopyStepIs(Now(), repository.wire, rules, ids);
      var outcomes, _ := CopyVerifiedBatch(items, rules, sources, repository);
      var marked, proven := MarkRows(rows, ids, ofRow, outcomes);
      MarkedIs(rows, ids, outcomes, ofRow, marked);
      rows, verified := marked, Some(proven);
    }

    /** Release the sources of these verified files: never the newest chain, never a directory, and only
        after reading the copy again. */
    method ReleaseSources(ids: seq<nat>, answers: string -> Answer) returns (deleted: nat)
      requires NoDuplicates(ids) && (forall id :: id in ids ==> id in rows)
      requires forall a, b :: a in ids && b in ids && a != b ==> rows[a].serverPath != rows[b].serverPath
      requires repository.queue == []
      modifies this, repository
      ensures Now() == ReleaseStep(old(Now()), repository.wire.hash, ids, answers) && repository.queue == []
    {
      ghost var s, hash := Now(), repository.wire.hash;
      var candidates := ReleaseCandidates(rows, ids);
      var known := rows;
      var paths := seq(|candidates|,
          k requires 0 <= k < |candidates| && candidates[k] in known => known[candidates[k]].repoPath);
      var found := repository.HashTargets(paths);
      forall id | id in candidates
        ensures Lookup(found, s.rows[id].repoPath) == Reads(hash, At(s.sides, s.rows[id].repoPath))
      {
        var k :| 0 <= k < |candidates| && candidates[k] == id;
        assert paths[k] in paths;
      }
      var checked, toDelete := Recheck(rows, candidates, found);
      rows, server, deleted := DeleteSources(checked, server, toDelete, answers);
      assert Rechecked(s, hash, ids, candidates, found, toDelete);
      ReleasedRows(s, hash, ids, candidates, found, toDelete, answers, checked, rows);
      forall id | id in toDelete ensures checked[id].serverPath == s.rows[id].serverPath {}
      ReleasedServer(s, hash, ids, candidates, found, toDelete, answers, server);
    }

    /** Expire the copies the retention names, each when the repository host reports gone the path that stands for
        it. */
    method PruneRepository(ids: seq<nat>, keep: R.Keep, now: nat, answers: string -> Answer)
      returns (paths: map<string, nat>, expired: nat)
      requires NoDuplicates(ids) && repository.queue == []
      requires forall id :: id in ids <==> id in rows && rows[id].copy.Verified?
      modifies this, repository
      ensures OfThePlan(old(Now()), keep, now, paths)
      ensures Now() == ExpireStep(old(Now()), Removal(paths, answers)) && repository.queue == []
      ensures expired == |GoneBut(Removal(paths, answers), {})|
    {
      ghost var s := Now();
      paths := PlanRemoval(s, rows, ids, keep, now);
      var removal := Removal(paths, answers);
      var left := DeleteCopies(repository.sides, removal);
      var marked;
      marked, expired := MarkExpired(rows, removal);
      ExpireIs(s, removal, marked, left);
      rows, repository.sides := marked, left;
    }
  }

  lemma ExpireIs(s: State, removal: Removal, marked: map<nat, Row>, left: map<string, Side>)
    requires marked.Keys == s.rows.Keys && left.Keys == s.sides.Keys
    requires forall id :: id in s.rows ==> marked[id] == DealtWith(s.rows, removal, {}, id)
    requires forall p :: p in s.sides ==>
      left[p] == if Taken(removal, p) then Side(None, s.sides[p].copies) else s.sides[p]
    ensures State(marked, s.server, left) == ExpireStep(s, removal)
  {
    assert marked == ExpireStep(s, removal).rows;
    assert left == ExpireStep(s, removal).sides;
  }

  lemma PlanOfRows(s: State, keep: R.Keep, now: nat, ids: seq<nat>, copies: seq<R.Copy>, expire: seq<R.Copy>)
    requires NoDuplicates(ids) && |copies| == |ids|
    requires forall id :: id in ids <==> id in s.rows && s.rows[id].copy.Verified?
    requires forall k :: 0 <= k < |ids| ==> ids[k] in s.rows && copies[k] == AsCopy(ids[k], s.rows[ids[k]])
    requires R.AsSet(expire) == R.Plan(R.AsSet(copies), keep, now)
    ensures forall c :: c in expire ==> c.id in s.rows
    ensures forall id :: id in s.rows ==>
      (Named(expire, |expire|, id) <==> Planned(s, keep, now, id))
  {
    forall c ensures c in R.AsSet(copies) <==> c in VerifiedCopies(s.rows) {
      if c in VerifiedCopies(s.rows) {
        var id :| id in s.rows && s.rows[id].copy.Verified? && c == AsCopy(id, s.rows[id]);
        var k :| 0 <= k < |ids| && ids[k] == id;
        assert copies[k] == c;
      }
      if c in copies {
        var k :| 0 <= k < |copies| && copies[k] == c;
        assert ids[k] in ids;
      }
    }
    assert R.AsSet(copies) == VerifiedCopies(s.rows);
    forall c | c in expire ensures c.id in s.rows && s.rows[c.id].copy.Verified? && c == AsCopy(c.id, s.rows[c.id]) {
      assert c in R.AsSet(expire);
    }
    forall id | id in s.rows
      ensures Named(expire, |expire|, id) <==>
        s.rows[id].copy.Verified? && AsCopy(id, s.rows[id]) in R.Plan(VerifiedCopies(s.rows), keep, now)
    {
      if j :| 0 <= j < |expire| && expire[j].id == id {
        assert expire[j] in expire && expire[j] in R.AsSet(expire);
      }
      if s.rows[id].copy.Verified? && AsCopy(id, s.rows[id]) in R.Plan(VerifiedCopies(s.rows), keep, now) {
        assert AsCopy(id, s.rows[id]) in R.AsSet(expire);
        var j :| 0 <= j < |expire| && expire[j] == AsCopy(id, s.rows[id]);
        assert expire[j].id == id;
      }
    }
  }
}

/** The repository's retention: which verified copies have outlived their stay.
    `ExpiryPlan` is the pass over lists and dictionaries; `Expires` says the same of a set of copies. */
module Retention {
  import opened Basics

  datatype FileType =
    | FULL | FULL_BASE | RMAN_L0 | DIFF | INCR_BASE | RMAN_L1 | LOG | WAL | ARCHIVELOG
    | MANIFEST | CONTROLFILE | SPFILE | CERT

  datatype Level = FullLevel | DiffLevel | LogLevel

  function LevelOf(t: FileType): Option<Level> {
    match t
    case FULL | FULL_BASE | RMAN_L0 => Some(FullLevel)
    case DIFF | INCR_BASE | RMAN_L1 => Some(DiffLevel)
    case LOG | WAL | ARCHIVELOG => Some(LogLevel)
    case _ => None
  }

  /** Seconds each level is kept; 0 keeps it for good. */
  datatype Keep = Keep(full: nat, diff: nat, log: nat)

  /** A file with no level goes by the full it travels with. */
  function RetentionOf(keep: Keep, t: FileType): nat {
    match LevelOf(t)
    case Some(DiffLevel) => keep.diff
    case Some(LogLevel) => keep.log
    case _ => keep.full
  }

  /** A verified copy. Moments are whole seconds; 0 is a moment nobody recorded, which sorts before all others. */
  datatype Copy = Copy(id: nat, database: string, fileType: FileType, at: nat, chainStart: nat)

  function StartOf(c: Copy): nat {
    if c.chainStart != 0 then c.chainStart else c.at
  }

  predicate IsFull(c: Copy) {
    LevelOf(c.fileType) == Some(FullLevel)
  }

  /** A control file or spfile: no level of its own, part of the full of its run. */
  predicate Travels(c: Copy) {
    LevelOf(c.fileType).None? && c.fileType != CERT
  }

  predicate Dependent(c: Copy) {
    LevelOf(c.fileType) == Some(DiffLevel) || LevelOf(c.fileType) == Some(LogLevel)
  }

  predicate Old(keep: Keep, now: nat, c: Copy) {
    RetentionOf(keep, c.fileType) > 0 && c.at != 0 && now - c.at > RetentionOf(keep, c.fileType)
  }

  // ---------------------------------------------------------------- what the plan means

  /** The starts of a database's full runs. */
  function Starts(copies: set<Copy>, database: string): set<nat> {
    set c | c in copies && c.database == database && IsFull(c) :: StartOf(c)
  }

  /** The full a diff or log hangs off: the last one started at or before it. */
  function Owner(starts: set<nat>, at: nat): Option<nat> {
    Maximum(UpTo(starts, at))
  }

  function UpTo(starts: set<nat>, at: nat): set<nat> {
    set s | s in starts && s <= at
  }

  predicate OwnedBy(copies: set<Copy>, c: Copy, start: nat) {
    Dependent(c) && Owner(Starts(copies, c.database), c.at) == Some(start)
  }

  /** A file of the full that started at `start`. */
  predicate PartOf(c: Copy, database: string, start: nat) {
    c.database == database && (IsFull(c) || Travels(c)) && StartOf(c) == start
  }

  predicate BeforeNewest(copies: set<Copy>, database: string, start: nat) {
    exists newer :: newer in Starts(copies, database) && start < newer
  }

  /** A full may go: every file of its run is old, and so is everything that depends on it. */
  predicate Releasable(copies: set<Copy>, keep: Keep, now: nat, database: string, start: nat) {
    && BeforeNewest(copies, database, start)
    && (forall c :: c in copies && PartOf(c, database, start) ==> Old(keep, now, c))
    && (forall c :: c in copies && c.database == database && OwnedBy(copies, c, start) ==> Old(keep, now, c))
  }

  predicate Expires(copies: set<Copy>, keep: Keep, now: nat, c: Copy) {
    var starts := Starts(copies, c.database);
    if starts == {} then false
    else if Dependent(c) then
      var owner := Owner(starts, c.at);
      Old(keep, now, c) && (owner.Some? ==> BeforeNewest(copies, c.database, owner.value))
    else
      (IsFull(c) || Travels(c)) && StartOf(c) in starts && Releasable(copies, keep, now, c.database, StartOf(c))
  }

  function Plan(copies: set<Copy>, keep: Keep, now: nat): set<Copy> {
    set c | c in copies && Expires(copies, keep, now, c)
  }

  // ---------------------------------------------------------------- what the plan keeps

  lemma OldStaysOld(keep: Keep, t1: nat, t2: nat, c: Copy)
    requires t1 <= t2 && Old(keep, t1, c)
    ensures Old(keep, t2, c)
  {
  }

  /** A full's files go all together or not at all. */
  lemma FullGoesWhole(copies: set<Copy>, keep: Keep, now: nat, a: Copy, b: Copy)
    requires a in copies && b in copies && IsFull(a)
    requires PartOf(b, a.database, StartOf(a))
    ensures a in Plan(copies, keep, now) <==> b in Plan(copies, keep, now)
  {
    assert StartOf(a) in Starts(copies, a.database);
  }

  /** Closed under dependency: what is expired is old, what is kept and hangs off a full keeps that whole
      full, and the newest chain, certificates and databases without a full lose nothing. */
  lemma PlanIsClosed(copies: set<Copy>, keep: Keep, now: nat)
    ensures var plan := Plan(copies, keep, now);
      && (forall c :: c in plan ==> Old(keep, now, c) && c.fileType != CERT && Starts(copies, c.database) != {})
      && (forall c, f, start ::
            c in copies - plan && OwnedBy(copies, c, start) && f in copies && PartOf(f, c.database, start)
            ==> f !in plan)
      && (forall c, start :: c in copies && OwnedBy(copies, c, start) && !BeforeNewest(copies, c.database, start)
            ==> c !in plan)
      && (forall c :: c in copies && PartOf(c, c.database, StartOf(c)) && !BeforeNewest(copies, c.database, StartOf(c))
            ==> c !in plan)
  {
  }

  // ---------------------------------------------------------------- the rules, field by field

  const FULLS := {FULL, FULL_BASE, RMAN_L0}
  const DIFFS := {DIFF, INCR_BASE, RMAN_L1}
  const LOGS := {LOG, WAL, ARCHIVELOG}

  /** A moment a copy counts as started at: what was recorded, else when it ended. */
  ghost predicate Began(c: Copy, start: nat) {
    (c.chainStart != 0 && c.chainStart == start) || (c.chainStart == 0 && c.at == start)
  }

  /** It ended longer ago than its kind is kept, and neither is unknown or for good. */
  ghost predicate Outlived(keep: Keep, now: nat, c: Copy) {
    var stay := if c.fileType in DIFFS then keep.diff else if c.fileType in LOGS then keep.log else keep.full;
    stay != 0 && c.at != 0 && c.at + stay < now
  }

  /** A full of the database that started after the moment. */
  ghost predicate FullAfter(copies: set<Copy>, database: string, moment: nat) {
    exists g, start: nat ::
      g in copies && g.database == database && g.fileType in FULLS && Began(g, start) && start > moment
  }

  /** A full of the database that started after the one moment and no later than the other. */
  ghost predicate FullBetween(copies: set<Copy>, database: string, after: nat, until: nat) {
    exists g, start: nat ::
      g in copies && g.database == database && g.fileType in FULLS && Began(g, start) && after < start <= until
  }

  /** A full-level file, control file, spfile or manifest of the database's run that began then. */
  ghost predicate OfRun(c: Copy, database: string, start: nat) {
    c.database == database && Began(c, start) && c.fileType in FULLS + {MANIFEST, CONTROLFILE, SPFILE}
  }

  /** A diff or log of the database from the start on, with no other full in between. */
  ghost predicate HangsOff(copies: set<Copy>, d: Copy, database: string, start: nat) {
    && d in copies && d.database == database && d.fileType in DIFFS + LOGS
    && start <= d.at && !FullBetween(copies, database, start, d.at)
  }

  lemma BeganIs(c: Copy, start: nat)
    ensures Began(c, start) <==> StartOf(c) == start
    ensures IsFull(c) <==> c.fileType in FULLS
    ensures Dependent(c) <==> c.fileType in DIFFS || c.fileType in LOGS
    ensures Travels(c) <==> c.fileType in {MANIFEST, CONTROLFILE, SPFILE}
  {
  }

  lemma OutlivedIs(keep: Keep, now: nat, c: Copy)
    ensures Outlived(keep, now, c) <==> Old(keep, now, c)
  {
  }

  lemma FullAfterIs(copies: set<Copy>, database: string, moment: nat)
    ensures FullAfter(copies, database, moment) <==> exists s :: s in Starts(copies, database) && s > moment
  {
    if g, start: nat :| g in copies && g.database == database && g.fileType in FULLS && Began(g, start)
                        && start > moment {
      BeganIs(g, start);
      assert start in Starts(copies, database);
    }
    if s :| s in Starts(copies, database) && s > moment {
      var g :| g in copies && g.database == database && IsFull(g) && StartOf(g) == s;
      BeganIs(g, s);
    }
  }

  lemma FullBetweenIs(copies: set<Copy>, database: string, after: nat, until: nat)
    ensures FullBetween(copies, database, after, until) <==>
      exists s :: s in Starts(copies, database) && after < s <= until
  {
    if g, start: nat :| g in copies && g.database == database && g.fileType in FULLS && Began(g, start)
                        && after < start <= until {
      BeganIs(g, start);
      assert start in Starts(copies, database);
    }
    if s :| s in Starts(copies, database) && after < s <= until {
      var g :| g in copies && g.database == database && IsFull(g) && StartOf(g) == s;
      BeganIs(g, s);
    }
  }

  /** A diff or log is planned exactly when it has outlived its own stay and some full of its database started after
      it - whichever full it hangs off, and whether it hangs off any. */
  lemma DependentGoesExactly(copies: set<Copy>, keep: Keep, now: nat, d: Copy)
    requires d in copies && (d.fileType in DIFFS || d.fileType in LOGS)
    ensures d in Plan(copies, keep, now) <==> Outlived(keep, now, d) && FullAfter(copies, d.database, d.at)
  {
    BeganIs(d, 0);
    OutlivedIs(keep, now, d);
    FullAfterIs(copies, d.database, d.at);
    var starts := Starts(copies, d.database);
    var owner := Owner(starts, d.at);
    if s :| s in starts && s > d.at { assert owner.Some? ==> owner.value < s; }
    if starts != {} && owner.None? {
      var s :| s in starts;
      if s <= d.at { assert s in UpTo(starts, d.at); }
    }
    forall s: nat | owner.Some? && s in starts && s <= d.at ensures s <= owner.value { assert s in UpTo(starts, d.at); }
  }

  /** A file of a full is planned exactly when a newer full of its database is there, every file of its run - full,
      control file or spfile, known by the start they share - has outlived its stay, and so has every diff or log from
      its start to the next full's. */
  lemma FullGoesExactly(copies: set<Copy>, keep: Keep, now: nat, f: Copy, start: nat)
    requires f in copies && f.fileType in FULLS && Began(f, start)
    ensures f in Plan(copies, keep, now) <==>
      && FullAfter(copies, f.database, start)
      && (forall c :: c in copies && OfRun(c, f.database, start) ==> Outlived(keep, now, c))
      && (forall d :: HangsOff(copies, d, f.database, start) ==> Outlived(keep, now, d))
  {
    BeganIs(f, start);
    FullAfterIs(copies, f.database, start);
    assert start in Starts(copies, f.database);
    forall c | c in copies && c.database == f.database
      ensures PartOf(c, f.database, start) <==> OfRun(c, f.database, start)
      ensures Outlived(keep, now, c) <==> Old(keep, now, c)
    {
      BeganIs(c, start);
      OutlivedIs(keep, now, c);
    }
    forall d | d in copies && d.database == f.database
      ensures OwnedBy(copies, d, start) <==> HangsOff(copies, d, f.database, start)
    {
      OwnedExactly(copies, d, start);
    }
  }

  lemma OwnedExactly(copies: set<Copy>, d: Copy, start: nat)
    requires start in Starts(copies, d.database) && d in copies
    ensures OwnedBy(copies, d, start) <==> HangsOff(copies, d, d.database, start)
  {
    BeganIs(d, 0);
    FullBetweenIs(copies, d.database, start, d.at);
    var starts := Starts(copies, d.database);
    if s :| s in starts && start < s <= d.at { assert s in UpTo(starts, d.at); }
    if start <= d.at && !FullBetween(copies, d.database, start, d.at) {
      forall x | x in starts && x <= d.at ensures x <= start {}
      OwnerIs(starts, d.at, start);
    }
    if Owner(starts, d.at) == Some(start) { assert start in UpTo(starts, d.at); }
  }

  /** A control file, spfile or manifest goes exactly with a full of its run; a certificate never does, and nothing does
      of a database without a full. */
  lemma OthersGoExactly(copies: set<Copy>, keep: Keep, now: nat, c: Copy)
    requires c in copies && c.fileType !in FULLS + DIFFS + LOGS
    ensures c in Plan(copies, keep, now) <==>
      c.fileType != CERT && exists f, start: nat ::
        f in copies && f.database == c.database && f.fileType in FULLS && Began(f, start) && Began(c, start)
        && f in Plan(copies, keep, now)
  {
    BeganIs(c, StartOf(c));
    if c.fileType != CERT && StartOf(c) in Starts(copies, c.database) {
      var f :| f in copies && f.database == c.database && IsFull(f) && StartOf(f) == StartOf(c);
      BeganIs(f, StartOf(c));
      FullGoesWhole(copies, keep, now, f, c);
    }
    if f, start: nat :|
      f in copies && f.database == c.database && f.fileType in FULLS && Began(f, start) && Began(c, start)
      && f in Plan(copies, keep, now) && c.fileType != CERT {
      BeganIs(f, start);
      BeganIs(c, start);
      FullGoesWhole(copies, keep, now, f, c);
    }
  }

  /** Two files of one run go together: two of one database with the same recorded start, whenever each ended, or with
      none recorded and the same end, one of them a full's and the other no diff, log or certificate. */
  lemma RunGoesWhole(copies: set<Copy>, keep: Keep, now: nat, a: Copy, b: Copy)
    requires a in copies && b in copies && a.database == b.database
    requires a.fileType in {FULL, FULL_BASE, RMAN_L0}
    requires b.fileType in {FULL, FULL_BASE, RMAN_L0, MANIFEST, CONTROLFILE, SPFILE}
    requires a.chainStart == b.chainStart && (a.chainStart == 0 ==> a.at == b.at)
    ensures a in Plan(copies, keep, now) <==> b in Plan(copies, keep, now)
  {
    FullGoesWhole(copies, keep, now, a, b);
  }

  // ---------------------------------------------------------------- the order of passes does not matter

  lemma OwnerIs(starts: set<nat>, at: nat, s: nat)
    requires s in starts && s <= at && forall x :: x in starts && x <= at ==> x <= s
    ensures Owner(starts, at) == Some(s)
  {
    assert s in UpTo(starts, at);
  }

  /** After a pass exactly the releasable fulls are gone. */
  lemma StartsLeft(copies: set<Copy>, keep: Keep, now: nat, database: string)
    ensures var left := copies - Plan(copies, keep, now);
      Starts(left, database) == set s | s in Starts(copies, database) && !Releasable(copies, keep, now, database, s)
  {
    var left := copies - Plan(copies, keep, now);
    forall s | s in Starts(copies, database) && !Releasable(copies, keep, now, database, s)
      ensures s in Starts(left, database)
    {
      var c :| c in copies && c.database == database && IsFull(c) && StartOf(c) == s;
      assert c in left;
    }
  }

  /** The newest full is not among them, so what is older than it stays older than it. */
  lemma NewestStays(copies: set<Copy>, keep: Keep, now: nat, database: string, s: nat)
    ensures BeforeNewest(copies - Plan(copies, keep, now), database, s) <==> BeforeNewest(copies, database, s)
    ensures Starts(copies - Plan(copies, keep, now), database) == {} <==> Starts(copies, database) == {}
  {
    StartsLeft(copies, keep, now, database);
    var starts := Starts(copies, database);
    if starts != {} {
      var newest := Maximum(starts).value;
      assert newest in Starts(copies - Plan(copies, keep, now), database);
    }
  }

  /** A diff or log that survives a pass keeps its owner: an owner goes only with everything it owns. */
  lemma OwnerStays(copies: set<Copy>, keep: Keep, now: nat, c: Copy)
    requires c in copies - Plan(copies, keep, now) && Dependent(c)
    ensures Owner(Starts(copies - Plan(copies, keep, now), c.database), c.at) == Owner(Starts(copies, c.database), c.at)
  {
    StartsLeft(copies, keep, now, c.database);
    var starts := Starts(copies, c.database);
    var left := Starts(copies - Plan(copies, keep, now), c.database);
    var owner := Owner(starts, c.at);
    if owner.Some? {
      forall s | s in starts && s <= c.at ensures s <= owner.value {
        assert s in UpTo(starts, c.at);
      }
      assert owner.value in left;
      OwnerIs(left, c.at, owner.value);
    } else {
      assert UpTo(left, c.at) <= UpTo(starts, c.at);
    }
  }

  lemma ReleasableStays(copies: set<Copy>, keep: Keep, t1: nat, t2: nat, database: string, start: nat)
    requires t1 <= t2
    ensures Releasable(copies - Plan(copies, keep, t1), keep, t2, database, start)
       <==> Releasable(copies, keep, t2, database, start)
  {
    var left := copies - Plan(copies, keep, t1);
    NewestStays(copies, keep, t1, database, start);
    forall c | c in copies && c !in left ensures Old(keep, t2, c) {
      OldStaysOld(keep, t1, t2, c);
    }
    forall c | c in left && c.database == database && Dependent(c)
      ensures OwnedBy(left, c, start) <==> OwnedBy(copies, c, start)
    {
      OwnerStays(copies, keep, t1, c);
    }
  }

  lemma ExpiresStays(copies: set<Copy>, keep: Keep, t1: nat, t2: nat, c: Copy)
    requires t1 <= t2 && c in copies - Plan(copies, keep, t1)
    ensures Expires(copies - Plan(copies, keep, t1), keep, t2, c) <==> Expires(copies, keep, t2, c)
  {
    StartsLeft(copies, keep, t1, c.database);
    NewestStays(copies, keep, t1, c.database, StartOf(c));
    ReleasableStays(copies, keep, t1, t2, c.database, StartOf(c));
    if Dependent(c) {
      OwnerStays(copies, keep, t1, c);
      var owner := Owner(Starts(copies, c.database), c.at);
      if owner.Some? { NewestStays(copies, keep, t1, c.database, owner.value); }
    } else if StartOf(c) in Starts(copies, c.database) && Releasable(copies, keep, t1, c.database, StartOf(c)) {
      assert !IsFull(c) && !Travels(c);
    }
  }

  lemma PlanGrows(copies: set<Copy>, keep: Keep, t1: nat, t2: nat)
    requires t1 <= t2
    ensures Plan(copies, keep, t1) <= Plan(copies, keep, t2)
  {
    forall c | c in Plan(copies, keep, t1) ensures c in Plan(copies, keep, t2) {
      forall d | d in copies && Old(keep, t1, d) ensures Old(keep, t2, d) { OldStaysOld(keep, t1, t2, d); }
      assert Old(keep, t1, c);
    }
  }

  /** Expiring at `t1` and planning what is left at `t2` removes exactly what one plan at `t2` removes. */
  lemma PassesCompose(copies: set<Copy>, keep: Keep, t1: nat, t2: nat)
    requires t1 <= t2
    ensures Plan(copies, keep, t1) + Plan(copies - Plan(copies, keep, t1), keep, t2) == Plan(copies, keep, t2)
  {
    PlanGrows(copies, keep, t1, t2);
    forall c | c in copies - Plan(copies, keep, t1)
      ensures Expires(copies - Plan(copies, keep, t1), keep, t2, c) <==> Expires(copies, keep, t2, c)
    {
      ExpiresStays(copies, keep, t1, t2, c);
    }
  }

  /** Any number of passes at growing moments ends where the last of them alone would. */
  function Passes(copies: set<Copy>, keep: Keep, moments: seq<nat>): set<Copy> {
    if moments == [] then copies
    else
      var left := Passes(copies, keep, moments[..|moments| - 1]);
      left - Plan(left, keep, moments[|moments| - 1])
  }

  lemma {:induction false} ManyPassesAreOne(copies: set<Copy>, keep: Keep, moments: seq<nat>)
    requires moments != [] && forall i, j :: 0 <= i < j < |moments| ==> moments[i] <= moments[j]
    ensures Passes(copies, keep, moments) == copies - Plan(copies, keep, moments[|moments| - 1])
  {
    var earlier, last := moments[..|moments| - 1], moments[|moments| - 1];
    if earlier == [] {
      assert Passes(copies, keep, earlier) == copies;
    } else {
      ManyPassesAreOne(copies, keep, earlier);
      PassesCompose(copies, keep, earlier[|earlier| - 1], last);
    }
  }

  /** A second plan at the same moment finds nothing. */
  lemma RepeatedPlanIsEmpty(copies: set<Copy>, keep: Keep, now: nat)
    ensures Plan(copies - Plan(copies, keep, now), keep, now) == {}
  {
    PassesCompose(copies, keep, now, now);
  }

  /** A database's plan reads nothing but that database's copies. */
  lemma DatabasesApart(copies: set<Copy>, others: set<Copy>, keep: Keep, now: nat, c: Copy)
    requires forall d: Copy :: d.database == c.database ==> (d in copies <==> d in others)
    ensures Expires(copies, keep, now, c) <==> Expires(others, keep, now, c)
  {
    assert Starts(copies, c.database) == Starts(others, c.database);
  }

  // ---------------------------------------------------------------- when some of the plan stays

  /** What is left after a pass that removed only `gone` of its plan: the newest full is still there. */
  lemma NewestStaysAfter(copies: set<Copy>, gone: set<Copy>, keep: Keep, now: nat, database: string, s: nat)
    requires gone <= Plan(copies, keep, now)
    ensures BeforeNewest(copies - gone, database, s) <==> BeforeNewest(copies, database, s)
    ensures Starts(copies - gone, database) == {} <==> Starts(copies, database) == {}
  {
    var starts := Starts(copies, database);
    assert Starts(copies - gone, database) <= starts;
    if starts != {} {
      var newest := Maximum(starts).value;
      var c :| c in copies && c.database == database && IsFull(c) && StartOf(c) == newest;
      assert c in copies - gone;
      assert newest in Starts(copies - gone, database);
      if BeforeNewest(copies, database, s) { assert s < newest; }
    }
  }

  /** A start that went took every full-level file of its run, so its full was releasable. */
  lemma StartGone(copies: set<Copy>, gone: set<Copy>, keep: Keep, now: nat, database: string, s: nat)
    requires gone <= Plan(copies, keep, now) && s in Starts(copies, database) && s !in Starts(copies - gone, database)
    ensures Releasable(copies, keep, now, database, s)
  {
    var c :| c in copies && c.database == database && IsFull(c) && StartOf(c) == s;
    if c !in gone { assert c in copies - gone; }
  }

  /** What survives keeps its owner, unless the owner went; then it hangs on an older full, or none. */
  lemma OwnerAfter(copies: set<Copy>, gone: set<Copy>, c: Copy)
    ensures var owner, left := Owner(Starts(copies, c.database), c.at), Starts(copies - gone, c.database);
      if owner.None? || owner.value in left then Owner(left, c.at) == owner
      else Owner(left, c.at).Some? ==> Owner(left, c.at).value < owner.value
  {
    var starts, left := Starts(copies, c.database), Starts(copies - gone, c.database);
    var owner := Owner(starts, c.at);
    assert left <= starts && UpTo(left, c.at) <= UpTo(starts, c.at);
    if owner.Some? {
      forall s | s in starts && s <= c.at ensures s <= owner.value { assert s in UpTo(starts, c.at); }
      if owner.value in left {
        OwnerIs(left, c.at, owner.value);
      } else if Owner(left, c.at).Some? {
        assert Owner(left, c.at).value in UpTo(left, c.at);
      }
    }
  }

  lemma ReleasableAfter(copies: set<Copy>, gone: set<Copy>, keep: Keep, t1: nat, t2: nat, database: string, start: nat)
    requires t1 <= t2 && gone <= Plan(copies, keep, t1) && start in Starts(copies - gone, database)
    ensures Releasable(copies - gone, keep, t2, database, start) <==> Releasable(copies, keep, t2, database, start)
  {
    var left := copies - gone;
    NewestStaysAfter(copies, gone, keep, t1, database, start);
    forall c | c in gone ensures Old(keep, t2, c) { OldStaysOld(keep, t1, t2, c); }
    forall c | c in left && c.database == database && Dependent(c)
      ensures OwnedBy(copies, c, start) ==> OwnedBy(left, c, start)
      ensures OwnedBy(left, c, start) ==> OwnedBy(copies, c, start) || Old(keep, t2, c)
    {
      OwnerAfter(copies, gone, c);
      var owner := Owner(Starts(copies, database), c.at);
      if owner.Some? && owner.value !in Starts(left, database) {
        assert owner.value in UpTo(Starts(copies, database), c.at);
        StartGone(copies, gone, keep, t1, database, owner.value);
        OldStaysOld(keep, t1, t2, c);
      }
    }
  }

  /** A control file or spfile that stayed while every full-level file of its run went: it belongs to no full
      any more, so no plan names it again. */
  predicate Stranded(copies: set<Copy>, gone: set<Copy>, c: Copy) {
    c in copies - gone && Travels(c) && StartOf(c) in Starts(copies, c.database)
      && StartOf(c) !in Starts(copies - gone, c.database)
  }

  lemma ExpiresAfter(copies: set<Copy>, gone: set<Copy>, keep: Keep, t1: nat, t2: nat, c: Copy)
    requires t1 <= t2 && gone <= Plan(copies, keep, t1) && c in copies - gone
    ensures Expires(copies - gone, keep, t2, c) <==> Expires(copies, keep, t2, c) && !Stranded(copies, gone, c)
  {
    var starts, left := Starts(copies, c.database), Starts(copies - gone, c.database);
    NewestStaysAfter(copies, gone, keep, t1, c.database, StartOf(c));
    assert left <= starts && (IsFull(c) ==> StartOf(c) in left);
    if Dependent(c) {
      OwnerAfter(copies, gone, c);
      var owner, owner' := Owner(starts, c.at), Owner(left, c.at);
      if owner.Some? {
        assert owner.value in UpTo(starts, c.at);
        NewestStaysAfter(copies, gone, keep, t1, c.database, owner.value);
        if owner.value !in left { StartGone(copies, gone, keep, t1, c.database, owner.value); }
      }
      if owner'.Some? { NewestStaysAfter(copies, gone, keep, t1, c.database, owner'.value); }
    } else if StartOf(c) in left {
      ReleasableAfter(copies, gone, keep, t1, t2, c.database, StartOf(c));
    }
  }

  /** However much of its plan a pass at `t1` removed, the plan of the rest at `t2` is the plan of all of it at
      `t2`, less what is gone and less what the pass stranded. */
  lemma PassesComposeWhateverStays(copies: set<Copy>, gone: set<Copy>, keep: Keep, t1: nat, t2: nat)
    requires t1 <= t2 && gone <= Plan(copies, keep, t1)
    ensures Plan(copies - gone, keep, t2) ==
      set c | c in Plan(copies, keep, t2) && c !in gone && !Stranded(copies, gone, c)
    ensures forall c :: Stranded(copies, gone, c) ==> c in Plan(copies, keep, t2)
  {
    forall c | c in copies - gone
      ensures Expires(copies - gone, keep, t2, c) <==> Expires(copies, keep, t2, c) && !Stranded(copies, gone, c)
    {
      ExpiresAfter(copies, gone, keep, t1, t2, c);
    }
    forall c | Stranded(copies, gone, c) ensures c in Plan(copies, keep, t2) {
      StartGone(copies, gone, keep, t1, c.database, StartOf(c));
      assert c in Plan(copies, keep, t1);
      PlanGrows(copies, keep, t1, t2);
    }
  }

  /** `c` rests on `f`: a diff or log on a file of the full it depends on, a file of a full on another of it. */
  predicate RestsOn(copies: set<Copy>, c: Copy, f: Copy) {
    PartOf(f, c.database, StartOf(f)) && StartOf(f) in Starts(copies, c.database)
    && (OwnedBy(copies, c, StartOf(f)) || PartOf(c, c.database, StartOf(f)))
  }

  /** Nothing that is left rests on anything that went. */
  ghost predicate ChainsWhole(copies: set<Copy>, gone: set<Copy>) {
    forall c, f :: c in copies - gone && f in gone && f in copies ==> !RestsOn(copies, c, f)
  }

  lemma NothingPlannedCarries(copies: set<Copy>, keep: Keep, now: nat, c: Copy, f: Copy)
    requires c in copies - Plan(copies, keep, now) && f in Plan(copies, keep, now)
    ensures !RestsOn(copies, c, f)
  {
  }

  /** A pass that removes only part of its plan keeps every chain whole exactly when nothing planned that stayed
      rests on anything that went. */
  lemma ChainsWholeExactly(copies: set<Copy>, gone: set<Copy>, keep: Keep, now: nat)
    requires gone <= Plan(copies, keep, now)
    ensures ChainsWhole(copies, gone) <==>
      forall c, f :: c in Plan(copies, keep, now) - gone && f in gone ==> !RestsOn(copies, c, f)
  {
    forall c, f | c in copies - Plan(copies, keep, now) && f in gone ensures !RestsOn(copies, c, f) {
      NothingPlannedCarries(copies, keep, now, c, f);
    }
  }

  // ---------------------------------------------------------------- the cheap question first

  function Shorter(a: nat, b: nat): nat {
    if a == 0 then b else if b == 0 || a < b then a else b
  }

  /** The shortest retention that is not for good; 0 when every level keeps for good. */
  function ShortestKept(keep: Keep): nat {
    Shorter(Shorter(keep.full, keep.diff), keep.log)
  }

  /** When no copy ended before the shortest retention, or every level keeps for good, the plan is empty:
      the pre-check never hides a copy the plan would remove. */
  lemma PreCheckAgrees(copies: set<Copy>, keep: Keep, now: nat)
    requires ShortestKept(keep) > 0 ==> forall c :: c in copies && c.at != 0 ==> c.at >= now - ShortestKept(keep)
    ensures Plan(copies, keep, now) == {}
  {
    forall c | c in copies ensures !Old(keep, now, c) {
    }
    PlanIsClosed(copies, keep, now);
  }

  /** And it asks for no more than it must: the shortest retention is one of the three that is not for good, and the
      others are for good or no shorter. */
  lemma PreCheckIsTight(keep: Keep)
    ensures ShortestKept(keep) == 0 <==> keep.full == 0 && keep.diff == 0 && keep.log == 0
    ensures ShortestKept(keep) > 0 ==> ShortestKept(keep) in {keep.full, keep.diff, keep.log}
    ensures keep.full > 0 ==> ShortestKept(keep) <= keep.full
    ensures keep.diff > 0 ==> ShortestKept(keep) <= keep.diff
    ensures keep.log > 0 ==> ShortestKept(keep) <= keep.log
  {
  }

  // ---------------------------------------------------------------- the pass

  function Get<K(==)>(groups: map<K, seq<Copy>>, key: K): seq<Copy> {
    if key in groups then groups[key] else []
  }

  ghost function AsSet(copies: seq<Copy>): set<Copy> {
    set c | c in copies
  }

  ghost function IsOld(keep: Keep, now: nat): Copy -> bool {
    c => Old(keep, now, c)
  }

  ghost function FullAt(s: nat): Copy -> bool {
    c => IsFull(c) && StartOf(c) == s
  }

  ghost function TravelsAt(s: nat): Copy -> bool {
    c => Travels(c) && StartOf(c) == s
  }

  ghost function PartAt(s: nat): Copy -> bool {
    c => (IsFull(c) || Travels(c)) && StartOf(c) == s
  }

  ghost function OwnedAt(starts: set<nat>, s: nat): Copy -> bool {
    c => Dependent(c) && Owner(starts, c.at) == Some(s)
  }

  predicate OldWithoutOwner(starts: set<nat>, keep: Keep, now: nat, c: Copy) {
    Dependent(c) && Owner(starts, c.at).None? && Old(keep, now, c)
  }

  ghost function OwnerlessOld(starts: set<nat>, keep: Keep, now: nat): Copy -> bool {
    c => OldWithoutOwner(starts, keep, now, c)
  }

  /** The old ones among `rows`, in order. */
  method OldOnes(keep: Keep, now: nat, rows: seq<Copy>) returns (old_: seq<Copy>)
    ensures Sifted(old_, rows, IsOld(keep, now))
    ensures |old_| <= |rows| && (|old_| == |rows| <==> forall c :: c in rows ==> Old(keep, now, c))
  {
    old_ := [];
    for i := 0 to |rows|
      invariant Sifted(old_, rows[..i], IsOld(keep, now))
      invariant |old_| <= i && (|old_| == i <==> forall c :: c in rows[..i] ==> Old(keep, now, c))
    {
      SiftedNext(old_, rows, i, IsOld(keep, now));
      assert rows[..i + 1] == rows[..i] + [rows[i]];
      if Old(keep, now, rows[i]) {
        old_ := old_ + [rows[i]];
      }
    }
    assert rows[..|rows|] == rows;
  }

  /** Every group holds the rows of `seen` that its key selects. */
  ghost predicate Grouped<K(!new)>(groups: map<K, seq<Copy>>, seen: seq<Copy>, at: K -> Copy -> bool) {
    forall k :: Sifted(Get(groups, k), seen, at(k))
  }

  lemma GroupedNext<K(!new)>(groups: map<K, seq<Copy>>, copies: seq<Copy>, i: nat, at: K -> Copy -> bool, key: K)
    requires i < |copies| && Grouped(groups, copies[..i], at)
    requires forall k :: k != key ==> !at(k)(copies[i])
    ensures Grouped(
      if at(key)(copies[i]) then groups[key := Get(groups, key) + [copies[i]]] else groups, copies[..i + 1], at)
  {
    forall k
      ensures Sifted(if at(k)(copies[i]) then Get(groups, k) + [copies[i]] else Get(groups, k), copies[..i + 1], at(k))
    {
      SiftedNext(Get(groups, k), copies, i, at(k));
    }
  }

  /** The fulls of one database, by the start of the run that wrote them. */
  method GroupFulls(copies: seq<Copy>) returns (groups: map<nat, seq<Copy>>)
    ensures Grouped(groups, copies, FullAt)
    ensures forall s: nat :: s in groups <==> exists c :: c in copies && FullAt(s)(c)
  {
    groups := map[];
    for i := 0 to |copies|
      invariant Grouped(groups, copies[..i], FullAt)
      invariant forall s: nat :: s in groups <==> Get(groups, s) != []
    {
      var row := copies[i];
      GroupedNext(groups, copies, i, FullAt, StartOf(row));
      if IsFull(row) {
        groups := groups[StartOf(row) := Get(groups, StartOf(row)) + [row]];
      }
    }
    assert copies[..|copies|] == copies;
    forall s: nat ensures s in groups <==> exists c :: c in copies && FullAt(s)(c) {
      if s in groups {
        SiftedHas(Get(groups, s), copies, FullAt(s), groups[s][0]);
      }
      forall c | c in copies && FullAt(s)(c) ensures c in Get(groups, s) {
        SiftedHas(Get(groups, s), copies, FullAt(s), c);
      }
    }
  }

  ghost predicate Joined(groups: map<nat, seq<Copy>>, fulls: map<nat, seq<Copy>>, joined: map<nat, seq<Copy>>) {
    groups.Keys == fulls.Keys && forall s :: s in groups ==> groups[s] == fulls[s] + Get(joined, s)
  }

  lemma JoinedNext(groups: map<nat, seq<Copy>>, fulls: map<nat, seq<Copy>>, joined: map<nat, seq<Copy>>, key: nat,
                   row: Copy)
    requires Joined(groups, fulls, joined)
    ensures Joined(if key in groups then groups[key := groups[key] + [row]] else groups, fulls,
                   joined[key := Get(joined, key) + [row]])
  {
    if key in groups {
      assert groups[key] + [row] == fulls[key] + (Get(joined, key) + [row]);
    }
  }

  /** Where the rows go: `joined` the travellers, `dependents` by owner, and the ownerless old ones, which expire. */
  datatype Hooks = Hooks(joined: map<nat, seq<Copy>>, dependents: map<nat, seq<Copy>>, expire: seq<Copy>)

  ghost function Hang(hooks: Hooks, row: Copy, starts: set<nat>, keep: Keep, now: nat): Hooks {
    var owner := Owner(starts, row.at);
    if Travels(row) then
      hooks.(joined := hooks.joined[StartOf(row) := Get(hooks.joined, StartOf(row)) + [row]])
    else if Dependent(row) && owner.Some? then
      hooks.(dependents := hooks.dependents[owner.value := Get(hooks.dependents, owner.value) + [row]])
    else if Dependent(row) && Old(keep, now, row) then hooks.(expire := hooks.expire + [row])
    else hooks
  }

  ghost function HangAll(copies: seq<Copy>, i: nat, starts: set<nat>, keep: Keep, now: nat): Hooks
    requires i <= |copies|
  {
    if i == 0 then Hooks(map[], map[], [])
    else Hang(HangAll(copies, i - 1, starts, keep, now), copies[i - 1], starts, keep, now)
  }

  lemma {:induction false} JoinedSorts(copies: seq<Copy>, i: nat, starts: set<nat>, keep: Keep, now: nat)
    requires i <= |copies|
    ensures Grouped(HangAll(copies, i, starts, keep, now).joined, copies[..i], TravelsAt)
  {
    if i > 0 {
      JoinedSorts(copies, i - 1, starts, keep, now);
      GroupedNext(HangAll(copies, i - 1, starts, keep, now).joined, copies, i - 1, TravelsAt, StartOf(copies[i - 1]));
    }
  }

  lemma HangsOnOwner(hooks: Hooks, row: Copy, starts: set<nat>, keep: Keep, now: nat, s: nat)
    ensures Get(Hang(hooks, row, starts, keep, now).dependents, s)
         == if OwnedAt(starts, s)(row) then Get(hooks.dependents, s) + [row] else Get(hooks.dependents, s)
  {
  }

  lemma {:induction false} DependentsSort(copies: seq<Copy>, i: nat, starts: set<nat>, keep: Keep, now: nat, s: nat)
    requires i <= |copies|
    ensures Sifted(Get(HangAll(copies, i, starts, keep, now).dependents, s), copies[..i], OwnedAt(starts, s))
  {
    if i > 0 {
      DependentsSort(copies, i - 1, starts, keep, now, s);
      var hooks, row := HangAll(copies, i - 1, starts, keep, now), copies[i - 1];
      HangsOnOwner(hooks, row, starts, keep, now, s);
      var before, after := Get(hooks.dependents, s), Get(HangAll(copies, i, starts, keep, now).dependents, s);
      assert after == if OwnedAt(starts, s)(row) then before + [row] else before;
      SiftedNext(before, copies, i - 1, OwnedAt(starts, s));
    }
  }

  lemma {:induction false} OwnerlessSort(copies: seq<Copy>, i: nat, starts: set<nat>, keep: Keep, now: nat)
    requires i <= |copies|
    ensures Sifted(HangAll(copies, i, starts, keep, now).expire, copies[..i], OwnerlessOld(starts, keep, now))
  {
    if i > 0 {
      OwnerlessSort(copies, i - 1, starts, keep, now);
      SiftedNext(HangAll(copies, i - 1, starts, keep, now).expire, copies, i - 1, OwnerlessOld(starts, keep, now));
    }
  }

  /** Everything else of the database: control files and spfiles join their full, diffs and logs go to the
      full they depend on, and what is older than every full goes by its own age. */
  method HangOn(copies: seq<Copy>, keep: Keep, now: nat, fulls: map<nat, seq<Copy>>)
    returns (groups: map<nat, seq<Copy>>, dependents: map<nat, seq<Copy>>, expire: seq<Copy>)
    requires Grouped(fulls, copies, FullAt)
    ensures groups.Keys == fulls.Keys
    ensures forall s: nat :: s in groups ==> Sifted(groups[s], copies, PartAt(s))
    ensures forall s: nat :: Sifted(Get(dependents, s), copies, OwnedAt(fulls.Keys, s))
    ensures Sifted(expire, copies, OwnerlessOld(fulls.Keys, keep, now))
  {
    groups, dependents, expire := fulls, map[], [];
    ghost var joined: map<nat, seq<Copy>> := map[];
    var starts := fulls.Keys;
    for i := 0 to |copies|
      invariant Joined(groups, fulls, joined)
      invariant Hooks(joined, dependents, expire) == HangAll(copies, i, starts, keep, now)
    {
      var row := copies[i];
      if Travels(row) {
        JoinedNext(groups, fulls, joined, StartOf(row), row);
        joined := joined[StartOf(row) := Get(joined, StartOf(row)) + [row]];
        if StartOf(row) in groups {
          groups := groups[StartOf(row) := groups[StartOf(row)] + [row]];
        }
      } else if Dependent(row) {
        var owner := Owner(starts, row.at);
        if owner.Some? {
          dependents := dependents[owner.value := Get(dependents, owner.value) + [row]];
        } else if Old(keep, now, row) {
          expire := expire + [row];
        }
      }
    }
    JoinedSorts(copies, |copies|, starts, keep, now);
    forall s: nat ensures Sifted(Get(dependents, s), copies[..|copies|], OwnedAt(starts, s)) {
      DependentsSort(copies, |copies|, starts, keep, now, s);
    }
    OwnerlessSort(copies, |copies|, starts, keep, now);
    assert copies[..|copies|] == copies;
    forall s: nat | s in groups ensures Sifted(groups[s], copies, PartAt(s)) {
      SiftedBoth(fulls[s], Get(joined, s), copies, FullAt(s), TravelsAt(s), PartAt(s));
    }
  }

  ghost function Goes(copies: set<Copy>, keep: Keep, now: nat): Copy -> bool {
    c => Expires(copies, keep, now, c)
  }

  /** What goes when the pass comes to the full that started at `s`. */
  ghost predicate GoesWith(copies: set<Copy>, keep: Keep, now: nat, c: Copy, s: nat) {
    && BeforeNewest(copies, c.database, s)
    && (if Dependent(c) then Owner(Starts(copies, c.database), c.at) == Some(s) && Old(keep, now, c)
        else (IsFull(c) || Travels(c)) && StartOf(c) == s && Releasable(copies, keep, now, c.database, s))
  }

  ghost function GoesAt(copies: set<Copy>, keep: Keep, now: nat, s: nat): Copy -> bool {
    c => GoesWith(copies, keep, now, c, s)
  }

  /** What has gone once the pass has come past the starts in `done`. */
  ghost predicate IsGone(copies: set<Copy>, keep: Keep, now: nat, done: seq<nat>, c: Copy) {
    || OldWithoutOwner(Starts(copies, c.database), keep, now, c)
    || exists s :: s in done && GoesWith(copies, keep, now, c, s)
  }

  ghost function GoneBy(copies: set<Copy>, keep: Keep, now: nat, done: seq<nat>): Copy -> bool {
    c => IsGone(copies, keep, now, done, c)
  }

  lemma GoneNext(copies: seq<Copy>, keep: Keep, now: nat, expire: seq<Copy>, done: seq<nat>, s: nat, chunk: seq<Copy>)
    requires Sifted(expire, copies, GoneBy(AsSet(copies), keep, now, done))
    requires Sifted(chunk, copies, GoesAt(AsSet(copies), keep, now, s)) && s !in done
    ensures Sifted(expire + chunk, copies, GoneBy(AsSet(copies), keep, now, done + [s]))
  {
    var whole := AsSet(copies);
    forall c: Copy
      ensures !(IsGone(whole, keep, now, done, c) && GoesWith(whole, keep, now, c, s))
      ensures IsGone(whole, keep, now, done + [s], c) <==>
        IsGone(whole, keep, now, done, c) || GoesWith(whole, keep, now, c, s)
    {
      assert s in done + [s];
      if GoesWith(whole, keep, now, c, s) && IsGone(whole, keep, now, done, c) {
        assert !OldWithoutOwner(Starts(whole, c.database), keep, now, c);
        var other :| other in done && GoesWith(whole, keep, now, c, other);
      }
      forall other | other in done + [s] ensures other == s || other in done {}
    }
    SiftedBoth(expire, chunk, copies, GoneBy(AsSet(copies), keep, now, done), GoesAt(AsSet(copies), keep, now, s),
               GoneBy(AsSet(copies), keep, now, done + [s]));
  }

  /** One full before the newest: its old dependents go, and it goes whole once all of it may. */
  method SettleFull(copies: seq<Copy>, keep: Keep, now: nat, ghost database: string, ghost starts: set<nat>, start: nat,
                    members: seq<Copy>, dependents: seq<Copy>)
    returns (gone: seq<Copy>)
    requires forall c :: c in copies ==> c.database == database
    requires starts == Starts(AsSet(copies), database) && BeforeNewest(AsSet(copies), database, start)
    requires Sifted(members, copies, PartAt(start)) && Sifted(dependents, copies, OwnedAt(starts, start))
    ensures Sifted(gone, copies, GoesAt(AsSet(copies), keep, now, start))
  {
    gone := OldOnes(keep, now, dependents);
    var oldMembers := OldOnes(keep, now, members);
    forall c ensures (c in members <==> c in copies && PartAt(start)(c))
                  && (c in dependents <==> c in copies && OwnedAt(starts, start)(c)) {
      SiftedHas(members, copies, PartAt(start), c);
      SiftedHas(dependents, copies, OwnedAt(starts, start), c);
    }
    ghost var spare := gone;
    assert Releasable(AsSet(copies), keep, now, database, start)
      <==> |oldMembers| == |members| && |gone| == |dependents|;
    forall c
      ensures Count(spare, c) == if OwnedAt(starts, start)(c) && Old(keep, now, c) then Count(copies, c) else 0 {}
    if |oldMembers| == |members| && |gone| == |dependents| {
      gone := gone + members;
    }
    FullSettled(copies, keep, now, database, starts, start, members, spare, gone);
  }

  lemma FullSettled(copies: seq<Copy>, keep: Keep, now: nat, database: string, starts: set<nat>, start: nat,
                    members: seq<Copy>, spare: seq<Copy>, gone: seq<Copy>)
    requires forall c :: c in copies ==> c.database == database
    requires starts == Starts(AsSet(copies), database) && BeforeNewest(AsSet(copies), database, start)
    requires Sifted(members, copies, PartAt(start))
    requires forall c ::
      Count(spare, c) == if OwnedAt(starts, start)(c) && Old(keep, now, c) then Count(copies, c) else 0
    requires gone == if Releasable(AsSet(copies), keep, now, database, start) then spare + members else spare
    ensures Sifted(gone, copies, GoesAt(AsSet(copies), keep, now, start))
  {
    var goes := GoesAt(AsSet(copies), keep, now, start);
    forall c ensures Count(gone, c) == if goes(c) then Count(copies, c) else 0 {
      CountPositive(copies, c);
      CountAppend(spare, members, c);
    }
  }

  /** Past every start, what has gone is what the plan means. */
  lemma AllGone(copies: seq<Copy>, keep: Keep, now: nat, database: string, starts: seq<nat>, expire: seq<Copy>)
    requires forall c :: c in copies ==> c.database == database
    requires forall s: nat :: s in starts <==> s in Starts(AsSet(copies), database)
    requires starts != [] && Sifted(expire, copies, GoneBy(AsSet(copies), keep, now, starts))
    ensures Sifted(expire, copies, Goes(AsSet(copies), keep, now))
  {
    var whole := AsSet(copies);
    assert starts[0] in starts;
    forall c | c in copies
      ensures IsGone(whole, keep, now, starts, c) <==> Expires(whole, keep, now, c)
    {
      var owner := Owner(Starts(whole, database), c.at);
      if Expires(whole, keep, now, c) && !OldWithoutOwner(Starts(whole, database), keep, now, c) {
        var s := if Dependent(c) then owner.value else StartOf(c);
        assert s in starts && GoesWith(whole, keep, now, c, s);
      }
    }
    forall c ensures Count(expire, c) == if Goes(whole, keep, now)(c) then Count(copies, c) else 0 {
      CountPositive(copies, c);
    }
  }

  lemma NothingExpires(copies: seq<Copy>, keep: Keep, now: nat, database: string)
    requires forall c :: c in copies ==> c.database == database
    requires Starts(AsSet(copies), database) == {}
    ensures Sifted([], copies, Goes(AsSet(copies), keep, now))
  {
    forall c ensures Count([], c) == if Goes(AsSet(copies), keep, now)(c) then Count(copies, c) else 0 {
      CountPositive(copies, c);
    }
  }

  lemma StartsGrouped(copies: seq<Copy>, database: string, fulls: map<nat, seq<Copy>>)
    requires forall c :: c in copies ==> c.database == database
    requires forall s: nat :: s in fulls <==> exists c :: c in copies && FullAt(s)(c)
    ensures fulls.Keys == Starts(AsSet(copies), database)
  {
    forall s: nat ensures s in fulls <==> s in Starts(AsSet(copies), database) {
      if s in Starts(AsSet(copies), database) {
        var c :| c in AsSet(copies) && c.database == database && IsFull(c) && StartOf(c) == s;
        assert c in copies && FullAt(s)(c);
      }
    }
  }

  lemma OwnerlessFirst(copies: seq<Copy>, keep: Keep, now: nat, database: string, expire: seq<Copy>)
    requires forall c :: c in copies ==> c.database == database
    requires Sifted(expire, copies, OwnerlessOld(Starts(AsSet(copies), database), keep, now))
    ensures Sifted(expire, copies, GoneBy(AsSet(copies), keep, now, []))
  {
    forall c ensures Count(expire, c) == if GoneBy(AsSet(copies), keep, now, [])(c) then Count(copies, c) else 0 {
      CountPositive(copies, c);
    }
  }

  lemma NewestKept(copies: seq<Copy>, keep: Keep, now: nat, database: string, newest: nat)
    requires forall c :: c in copies ==> c.database == database
    requires !BeforeNewest(AsSet(copies), database, newest)
    ensures Sifted([], copies, GoesAt(AsSet(copies), keep, now, newest))
  {
    forall c ensures Count([], c) == if GoesAt(AsSet(copies), keep, now, newest)(c) then Count(copies, c) else 0 {
      CountPositive(copies, c);
    }
  }

  /** The starts of a database's fulls, oldest first, up to the newest, which is never touched. */
  method SettleFulls(copies: seq<Copy>, keep: Keep, now: nat, ghost database: string, starts: seq<nat>,
                     groups: map<nat, seq<Copy>>, dependents: map<nat, seq<Copy>>, ownerless: seq<Copy>)
    returns (expire: seq<Copy>)
    requires forall c :: c in copies ==> c.database == database
    requires Ascending(starts) && forall s: nat :: s in starts <==> s in Starts(AsSet(copies), database)
    requires groups.Keys == Starts(AsSet(copies), database)
    requires forall s: nat :: s in groups ==> Sifted(groups[s], copies, PartAt(s))
    requires forall s: nat :: Sifted(Get(dependents, s), copies, OwnedAt(groups.Keys, s))
    requires Sifted(ownerless, copies, GoneBy(AsSet(copies), keep, now, []))
    ensures Sifted(expire, copies, GoneBy(AsSet(copies), keep, now, starts))
  {
    expire := ownerless;
    ghost var done: seq<nat> := [];
    for k := 0 to |starts|
      invariant done == starts[..k]
      invariant Sifted(expire, copies, GoneBy(AsSet(copies), keep, now, done))
    {
      var start, chunk := starts[k], [];
      assert start in starts && starts[|starts| - 1] in starts;
      if start < starts[|starts| - 1] {
        chunk := SettleFull(copies, keep, now, database, groups.Keys, start, groups[start], Get(dependents, start));
      } else {
        forall s: nat | s in starts ensures s <= start { AscendingLast(starts, s); }
        NewestKept(copies, keep, now, database, start);
      }
      GoneNext(copies, keep, now, expire, done, start, chunk);
      expire := expire + chunk;
      done := done + [start];
    }
    assert starts[..|starts|] == starts;
  }

  /** One database's copies. */
  method PlanDatabase(copies: seq<Copy>, keep: Keep, now: nat, ghost database: string) returns (expire: seq<Copy>)
    requires forall c :: c in copies ==> c.database == database
    ensures Sifted(expire, copies, Goes(AsSet(copies), keep, now))
  {
    var fulls := GroupFulls(copies);
    StartsGrouped(copies, database, fulls);
    if |fulls| == 0 {
      NothingExpires(copies, keep, now, database);
      return [];
    }
    var groups, dependents, ownerless := HangOn(copies, keep, now, fulls);
    var starts := SortedSet(groups.Keys);
    OwnerlessFirst(copies, keep, now, database, ownerless);
    expire := SettleFulls(copies, keep, now, database, starts, groups, dependents, ownerless);
    AllGone(copies, keep, now, database, starts, expire);
  }

  ghost function InDatabase(database: string): Copy -> bool {
    (c: Copy) => c.database == database
  }

  ghost function GoesIn(copies: set<Copy>, keep: Keep, now: nat, databases: set<string>): Copy -> bool {
    (c: Copy) => c.database in databases && Expires(copies, keep, now, c)
  }

  /** The rows of each database, in the order the databases first appear. */
  method ByDatabase(rows: seq<Copy>) returns (byDatabase: map<string, seq<Copy>>, names: seq<string>)
    ensures Grouped(byDatabase, rows, InDatabase)
    ensures NoDuplicates(names) && (forall c :: c in rows ==> c.database in names)
    ensures forall d :: d in names ==> d in byDatabase
  {
    byDatabase, names := map[], [];
    for i := 0 to |rows|
      invariant Grouped(byDatabase, rows[..i], InDatabase)
      invariant NoDuplicates(names) && forall d :: d in names <==> d in byDatabase
      invariant forall j :: 0 <= j < i ==> rows[j].database in names
    {
      var row := rows[i];
      GroupedNext(byDatabase, rows, i, InDatabase, row.database);
      if row.database !in byDatabase {
        names := names + [row.database];
      }
      byDatabase := byDatabase[row.database := Get(byDatabase, row.database) + [row]];
    }
    assert rows[..|rows|] == rows;
  }

  lemma PartOfRows(part: seq<Copy>, own: seq<Copy>, rows: seq<Copy>, keep: Keep, now: nat, database: string)
    requires Sifted(own, rows, InDatabase(database)) && Sifted(part, own, Goes(AsSet(own), keep, now))
    ensures Sifted(part, rows, GoesIn(AsSet(rows), keep, now, {database}))
  {
    forall c: Copy
      ensures Count(part, c) == if GoesIn(AsSet(rows), keep, now, {database})(c) then Count(rows, c) else 0
    {
      assert Count(own, c) == if InDatabase(database)(c) then Count(rows, c) else 0;
      assert Count(part, c) == if Goes(AsSet(own), keep, now)(c) then Count(own, c) else 0;
      if c.database == database {
        forall d: Copy | d.database == c.database ensures d in AsSet(own) <==> d in AsSet(rows) {
          SiftedHas(own, rows, InDatabase(database), d);
        }
        DatabasesApart(AsSet(own), AsSet(rows), keep, now, c);
      }
    }
  }

  /** Which copies have outlived their retention: every one the rules name, once, and no other. */
  method ExpiryPlan(rows: seq<Copy>, keep: Keep, now: nat) returns (expire: seq<Copy>)
    ensures AsSet(expire) == Plan(AsSet(rows), keep, now)
    ensures NoDuplicates(rows) ==> NoDuplicates(expire)
  {
    var byDatabase, names := ByDatabase(rows);
    ghost var whole := AsSet(rows);
    ghost var done: set<string> := {};
    expire := [];
    for k := 0 to |names|
      invariant forall d :: d in done <==> d in names[..k]
      invariant Sifted(expire, rows, GoesIn(whole, keep, now, done))
    {
      var name := names[k];
      assert name in names && name !in names[..k];
      ghost var own := byDatabase[name];
      assert own == Get(byDatabase, name);
      forall c | c in own ensures c.database == name { SiftedHas(own, rows, InDatabase(name), c); }
      var part := PlanDatabase(byDatabase[name], keep, now, name);
      PartOfRows(part, own, rows, keep, now, name);
      SiftedBoth(expire, part, rows, GoesIn(whole, keep, now, done), GoesIn(whole, keep, now, {name}),
                 GoesIn(whole, keep, now, done + {name}));
      expire := expire + part;
      done := done + {name};
      TakeNext(names, k);
    }
    PlanIsListed(rows, keep, now, expire, done);
  }

  lemma PlanIsListed(rows: seq<Copy>, keep: Keep, now: nat, expire: seq<Copy>, databases: set<string>)
    requires Sifted(expire, rows, GoesIn(AsSet(rows), keep, now, databases))
    requires forall c :: c in rows ==> c.database in databases
    ensures AsSet(expire) == Plan(AsSet(rows), keep, now)
    ensures NoDuplicates(rows) ==> NoDuplicates(expire)
  {
    forall c ensures c in expire <==> c in Plan(AsSet(rows), keep, now) {
      SiftedHas(expire, rows, GoesIn(AsSet(rows), keep, now, databases), c);
    }
    CountOnce(rows);
    CountOnce(expire);
  }
}

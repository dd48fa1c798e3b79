/** The gated copy of a run's selected files: what the catalog already proves on the target is skipped,
    everything else goes through the gate, and each file is reported once. */
module LocalCopy {
  import opened Basics
  import opened CopyGate

  datatype Status = SkippedExists | FreshCopy | Replaced | Failed

  function StatusOf(v: Verdict): Status {
    match v
    case Match => SkippedExists
    case Copied => FreshCopy
    case Recopied => Replaced
    case _ => Failed
  }

  datatype Report = Report(file: FileToCopy, status: Status)

  /** A file the target seems to hold: there, and as long as the source. A forced run takes nothing on trust. */
  predicate SeemsThere(force: bool, sizes: map<string, nat>, file: FileToCopy, s: Side) {
    !force && s.content.Some? && file.sourcePath in sizes && |s.content.value| == sizes[file.sourcePath]
  }

  predicate SkipsTheGate(w: Wire, force: bool, sizes: map<string, nat>, file: FileToCopy, s: Side) {
    SeemsThere(force, sizes, file, s) && Confirmed(file, Look(w, s))
  }

  /** The rule for one file by itself: its outcome and what its target is left as. */
  function Handled(w: Wire, rules: Integrity, force: bool, sizes: map<string, nat>, file: FileToCopy,
                   source: Option<Reading>, s: Side): (Outcome, Side)
  {
    if SkipsTheGate(w, force, sizes, file, s) then (ConfirmedOutcome(Look(w, s).value), s)
    else Alone(w, rules, file, source, s)
  }

  // ---------------------------------------------------------------- lists of files

  function FilesOf(reports: seq<Report>): seq<FileToCopy> {
    seq(|reports|, i requires 0 <= i < |reports| => reports[i].file)
  }

  function Tally(reports: seq<Report>, status: Status): nat {
    if reports == [] then 0
    else Tally(reports[..|reports| - 1], status) + if reports[|reports| - 1].status == status then 1 else 0
  }

  lemma {:induction false} EveryReportIsCounted(reports: seq<Report>)
    ensures |reports| == Tally(reports, FreshCopy) + Tally(reports, Replaced)
                         + Tally(reports, SkippedExists) + Tally(reports, Failed)
    ensures Tally(reports, Failed) == 0 <==> forall i :: 0 <= i < |reports| ==> !reports[i].status.Failed?
  {
    if reports != [] {
      var rest := reports[..|reports| - 1];
      EveryReportIsCounted(rest);
      assert forall i :: 0 <= i < |rest| ==> reports[i] == rest[i];
    }
  }

  lemma {:induction false} SameCountSameLength(a: seq<FileToCopy>, b: seq<FileToCopy>)
    requires forall x :: Count(a, x) == Count(b, x)
    ensures |a| == |b|
  {
    forall x ensures multiset(a)[x] == multiset(b)[x] { assert Count(a, x) == Count(b, x); }
    assert multiset(a) == multiset(b);
    assert |multiset(a)| == |a| && |multiset(b)| == |b|;
  }

  lemma DistinctPart(part: seq<FileToCopy>, files: seq<FileToCopy>, keep: FileToCopy -> bool)
    requires DistinctTargets(files) && Sifted(part, files, keep)
    ensures DistinctTargets(part)
  {
    assert NoDuplicates(files);
    CountOnce(files);
    CountOnce(part);
    forall i, j | 0 <= i < j < |part| ensures part[i].targetPath != part[j].targetPath {
      SiftedHas(part, files, keep, part[i]);
      SiftedHas(part, files, keep, part[j]);
    }
  }

  // ---------------------------------------------------------------- one run's gate

  /** The gate of one run: every file's outcome, confirmed or copied, as it came. */
  class Gate {
    var outcomes: seq<Outcome>

    constructor ()
      ensures outcomes == []
    {
      outcomes := [];
    }

    /** The candidates proven against the catalog; their outcomes join the run's. */
    method Confirm(candidates: seq<FileToCopy>, target: TargetHost) returns (proven: seq<FileToCopy>)
      requires target.queue == []
      modifies this, target`sides, target`queue
      ensures target.sides == old(target.sides) && target.queue == []
      ensures Sifted(proven, candidates,
        (f: FileToCopy) => Confirmed(f, Look(target.wire, At(old(target.sides), f.targetPath))))
      ensures old(outcomes) <= outcomes && |outcomes| == |old(outcomes)| + |proven|
      ensures forall i :: |old(outcomes)| <= i < |outcomes| ==> outcomes[i].verdict.Match?
    {
      ghost var w, sides, before := target.wire, target.sides, outcomes;
      ghost var keep := (f: FileToCopy) => Confirmed(f, Look(w, At(sides, f.targetPath)));
      var answers, remaining := ConfirmOnTarget(candidates, target);
      proven := [];
      for i := 0 to |candidates|
        invariant target.sides == sides && target.queue == []
        invariant Sifted(proven, candidates[..i], keep)
        invariant before <= outcomes && |outcomes| == |before| + |proven|
        invariant forall j :: |before| <= j < |outcomes| ==> outcomes[j].verdict.Match?
      {
        SiftedNext(proven, candidates, i, keep);
        if i !in remaining {
          proven, outcomes := proven + [candidates[i]], outcomes + [answers[i]];
        }
      }
      assert candidates[..|candidates|] == candidates;
    }

    /** The files through the gate; their outcomes join the run's. */
    method Copy(files: seq<FileToCopy>, rules: Integrity, sources: map<string, Reading>, target: TargetHost)
      returns (answers: seq<Outcome>)
      requires DistinctTargets(files) && target.queue == []
      modifies this, target
      ensures answers == OneByOne(target.wire, rules, files, sources, old(target.sides)).0
      ensures forall p ::
        At(target.sides, p) == At(OneByOne(target.wire, rules, files, sources, old(target.sides)).1, p)
      ensures target.queue == [] && outcomes == old(outcomes) + answers
    {
      var pauses: nat;
      answers, pauses := CopyVerifiedBatch(files, rules, sources, target);
      outcomes := outcomes + answers;
    }
  }

  /** The selected files parted by whether their target seems to hold them. */
  method Candidates(files: seq<FileToCopy>, force: bool, sizes: map<string, nat>, target: TargetHost)
    returns (candidates: seq<FileToCopy>)
    ensures Sifted(candidates, files,
        (f: FileToCopy) => SeemsThere(force, sizes, f, At(old(target.sides), f.targetPath)))
  {
    ghost var sides := target.sides;
    ghost var keep := (f: FileToCopy) => SeemsThere(force, sizes, f, At(sides, f.targetPath));
    candidates := [];
    for i := 0 to |files|
      invariant Sifted(candidates, files[..i], keep)
    {
      SiftedNext(candidates, files, i, keep);
      if SeemsThere(force, sizes, files[i], At(target.sides, files[i].targetPath)) {
        candidates := candidates + [files[i]];
      }
    }
    assert files[..|files|] == files;
  }

  /** What the catalog did not prove, in the order of the files. */
  method ToCopy(files: seq<FileToCopy>, proven: set<string>) returns (toCopy: seq<FileToCopy>)
    ensures Sifted(toCopy, files, (f: FileToCopy) => f.targetPath !in proven)
  {
    ghost var out := (f: FileToCopy) => f.targetPath !in proven;
    toCopy := [];
    for i := 0 to |files|
      invariant Sifted(toCopy, files[..i], out)
    {
      SiftedNext(toCopy, files, i, out);
      if files[i].targetPath !in proven {
        toCopy := toCopy + [files[i]];
      }
    }
    assert files[..|files|] == files;
  }

  /** What the catalog proved, reported as skipped. */
  method SkipProven(files: seq<FileToCopy>, proven: set<string>) returns (skipped: seq<Report>)
    ensures Sifted(FilesOf(skipped), files, (f: FileToCopy) => f.targetPath in proven)
    ensures forall i :: 0 <= i < |skipped| ==> skipped[i].status.SkippedExists?
  {
    ghost var inside := (f: FileToCopy) => f.targetPath in proven;
    skipped := [];
    for i := 0 to |files|
      invariant Sifted(FilesOf(skipped), files[..i], inside)
      invariant forall j :: 0 <= j < |skipped| ==> skipped[j].status.SkippedExists?
    {
      SiftedNext(FilesOf(skipped), files, i, inside);
      if files[i].targetPath in proven {
        assert FilesOf(skipped + [Report(files[i], SkippedExists)]) == FilesOf(skipped) + [files[i]];
        skipped := skipped + [Report(files[i], SkippedExists)];
      }
    }
    assert files[..|files|] == files;
  }

  /** The gate's verdicts as the copy's statuses. */
  method GatedResults(files: seq<FileToCopy>, outcomes: seq<Outcome>) returns (reports: seq<Report>)
    requires |outcomes| == |files|
    ensures FilesOf(reports) == files
    ensures forall i :: 0 <= i < |files| ==> reports[i] == Report(files[i], StatusOf(outcomes[i].verdict))
  {
    reports := [];
    for i := 0 to |files|
      invariant |reports| == i
      invariant forall j :: 0 <= j < i ==> reports[j] == Report(files[j], StatusOf(outcomes[j].verdict))
    {
      reports := reports + [Report(files[i], StatusOf(outcomes[i].verdict))];
    }
  }

  /** Which files the catalog's word keeps from the gate, through the three lists of the run. */
  lemma ProvenAreSkipped(w: Wire, force: bool, sizes: map<string, nat>, sides: map<string, Side>,
                         files: seq<FileToCopy>,
                         candidates: seq<FileToCopy>, proven: seq<FileToCopy>, targets: set<string>)
    requires DistinctTargets(files)
    requires Sifted(candidates, files, (f: FileToCopy) => SeemsThere(force, sizes, f, At(sides, f.targetPath)))
    requires Sifted(proven, candidates, (f: FileToCopy) => Confirmed(f, Look(w, At(sides, f.targetPath))))
    requires forall p :: p in targets <==> exists f :: f in proven && f.targetPath == p
    ensures Sifted(proven, files, (f: FileToCopy) => SkipsTheGate(w, force, sizes, f, At(sides, f.targetPath)))
    ensures forall f :: f in files ==>
      (f.targetPath in targets <==> SkipsTheGate(w, force, sizes, f, At(sides, f.targetPath)))
  {
    var skips := (f: FileToCopy) => SkipsTheGate(w, force, sizes, f, At(sides, f.targetPath));
    SiftedTwice(proven, candidates, files, (f: FileToCopy) => SeemsThere(force, sizes, f, At(sides, f.targetPath)),
                (f: FileToCopy) => Confirmed(f, Look(w, At(sides, f.targetPath))), skips);
    forall f | f in files ensures f.targetPath in targets <==> skips(f) {
      SiftedHas(proven, files, skips, f);
      if f.targetPath in targets {
        var g :| g in proven && g.targetPath == f.targetPath;
        SiftedHas(proven, files, skips, g);
      }
    }
  }

  /** A report tells its file's own rule, and the file's target is as that rule leaves it. */
  ghost predicate Faithful(w: Wire, rules: Integrity, force: bool, sizes: map<string, nat>,
                           sources: map<string, Reading>, start: map<string, Side>, now: map<string, Side>, r: Report)
  {
    var path := r.file.targetPath;
    var (o, after) := Handled(w, rules, force, sizes, r.file, Lookup(sources, r.file.sourcePath), At(start, path));
    r.status == StatusOf(o.verdict) && At(now, path) == after
  }

  ghost predicate RanAlone(w: Wire, rules: Integrity, sources: map<string, Reading>, start: map<string, Side>,
                           now: map<string, Side>, file: FileToCopy, answer: Outcome)
  {
    var path := file.targetPath;
    (answer, At(now, path)) == Alone(w, rules, file, Lookup(sources, file.sourcePath), At(start, path))
  }

  /** A file that is not reported failed: its target, as the run leaves it, reads as its source does or as its
      backup recorded. */
  lemma NotFailedIsProof(w: Wire, rules: Integrity, force: bool, sizes: map<string, nat>, sources: map<string, Reading>,
                         start: map<string, Side>, now: map<string, Side>, r: Report)
    requires Faithful(w, rules, force, sizes, sources, start, now, r) && !r.status.Failed?
    ensures var found, source := Look(w, At(now, r.file.targetPath)), Lookup(sources, r.file.sourcePath);
      Confirmed(r.file, found) || (source.Some? && SameBytes(found, Some(source.value.sha), source.value.size))
  {
    ProvenHoldsTheSource(w, rules, r.file, Lookup(sources, r.file.sourcePath), At(start, r.file.targetPath));
  }

  /** What each status says of its file. One the target seemed to hold and the catalog confirmed is skipped and left
      as it was; any other is skipped when the gate found it there already, fresh when its first copy matched,
      replaced when a later one did, and failed when the gate could not prove it - for whatever cause. */
  lemma ReportedExactly(w: Wire, rules: Integrity, force: bool, sizes: map<string, nat>, sources: map<string, Reading>,
                        start: map<string, Side>, now: map<string, Side>, r: Report)
    requires Faithful(w, rules, force, sizes, sources, start, now, r)
    ensures var f, s := r.file, At(start, r.file.targetPath);
      var (o, after) := Alone(w, rules, f, Lookup(sources, f.sourcePath), s);
      var held := !force && s.content.Some? && f.sourcePath in sizes && |s.content.value| == sizes[f.sourcePath]
                  && Confirmed(f, Some(w.hash(s.content.value)));
      && (held ==> r.status.SkippedExists? && At(now, f.targetPath) == s)
      && (!held ==>
            && At(now, f.targetPath) == after
            && (r.status.SkippedExists? <==> o.verdict.Match?)
            && (r.status.FreshCopy? <==> |o.attempts| == 1 && o.attempts[0].result.AttemptMatch?)
            && (r.status.Replaced? <==> |o.attempts| > 1 && o.attempts[|o.attempts| - 1].result.AttemptMatch?)
            && (r.status.Failed? <==>
                 o.verdict in {SourceMissing, SourceMismatch, UncataloguedRefused, CopyFailed}))
  {
    var f, s := r.file, At(start, r.file.targetPath);
    var o := Alone(w, rules, f, Lookup(sources, f.sourcePath), s).0;
    AttemptsAreAccounted(w, rules, f, Lookup(sources, f.sourcePath), s);
    if !SkipsTheGate(w, force, sizes, f, s) {
      assert r.status == StatusOf(o.verdict) && !o.verdict.Copying?;
    }
  }

  lemma NotSentIsNoTarget(files: seq<FileToCopy>, toCopy: seq<FileToCopy>, targets: set<string>, p: string)
    requires Sifted(toCopy, files, (f: FileToCopy) => f.targetPath !in targets)
    requires p in targets || !IsTarget(files, p)
    ensures !IsTarget(toCopy, p)
  {
    if i :| 0 <= i < |toCopy| && toCopy[i].targetPath == p {
      SiftedHas(toCopy, files, (f: FileToCopy) => f.targetPath !in targets, toCopy[i]);
    }
  }

  lemma SkippedIsFaithful(w: Wire, rules: Integrity, force: bool, sizes: map<string, nat>,
                          sources: map<string, Reading>, start: map<string, Side>, now: map<string, Side>,
                          files: seq<FileToCopy>, targets: set<string>, toCopy: seq<FileToCopy>,
                          skipped: seq<Report>, i: nat)
    requires forall f :: f in files ==>
      (f.targetPath in targets <==> SkipsTheGate(w, force, sizes, f, At(start, f.targetPath)))
    requires Sifted(toCopy, files, (f: FileToCopy) => f.targetPath !in targets)
    requires Sifted(FilesOf(skipped), files, (f: FileToCopy) => f.targetPath in targets)
    requires forall p :: !IsTarget(toCopy, p) ==> At(now, p) == At(start, p)
    requires i < |skipped| && skipped[i].status.SkippedExists?
    ensures Faithful(w, rules, force, sizes, sources, start, now, skipped[i])
  {
    var f := skipped[i].file;
    assert f == FilesOf(skipped)[i];
    SiftedHas(FilesOf(skipped), files, (f: FileToCopy) => f.targetPath in targets, f);
    NotSentIsNoTarget(files, toCopy, targets, f.targetPath);
  }

  lemma CopiedIsFaithful(w: Wire, rules: Integrity, force: bool, sizes: map<string, nat>, sources: map<string, Reading>,
                         start: map<string, Side>, now: map<string, Side>, files: seq<FileToCopy>, targets: set<string>,
                         toCopy: seq<FileToCopy>, answers: seq<Outcome>, i: nat)
    requires forall f :: f in files ==>
      (f.targetPath in targets <==> SkipsTheGate(w, force, sizes, f, At(start, f.targetPath)))
    requires Sifted(toCopy, files, (f: FileToCopy) => f.targetPath !in targets)
    requires |answers| == |toCopy| && i < |toCopy|
    requires RanAlone(w, rules, sources, start, now, toCopy[i], answers[i])
    ensures Faithful(w, rules, force, sizes, sources, start, now, Report(toCopy[i], StatusOf(answers[i].verdict)))
  {
    SiftedHas(toCopy, files, (f: FileToCopy) => f.targetPath !in targets, toCopy[i]);
  }

  lemma ReportsAreFaithful(w: Wire, rules: Integrity, force: bool, sizes: map<string, nat>,
                           sources: map<string, Reading>, start: map<string, Side>, now: map<string, Side>,
                           files: seq<FileToCopy>, targets: set<string>,
                           toCopy: seq<FileToCopy>, skipped: seq<Report>, copied: seq<Report>, answers: seq<Outcome>)
    requires forall f :: f in files ==>
      (f.targetPath in targets <==> SkipsTheGate(w, force, sizes, f, At(start, f.targetPath)))
    requires Sifted(toCopy, files, (f: FileToCopy) => f.targetPath !in targets)
    requires Sifted(FilesOf(skipped), files, (f: FileToCopy) => f.targetPath in targets)
    requires forall i :: 0 <= i < |skipped| ==> skipped[i].status.SkippedExists?
    requires |answers| == |copied| == |toCopy|
    requires forall i :: 0 <= i < |toCopy| ==> copied[i] == Report(toCopy[i], StatusOf(answers[i].verdict))
    requires forall p :: !IsTarget(toCopy, p) ==> At(now, p) == At(start, p)
    requires forall i :: 0 <= i < |toCopy| ==> RanAlone(w, rules, sources, start, now, toCopy[i], answers[i])
    ensures forall i :: 0 <= i < |skipped + copied| ==>
      Faithful(w, rules, force, sizes, sources, start, now, (skipped + copied)[i])
    ensures forall p :: !IsTarget(files, p) ==> At(now, p) == At(start, p)
  {
    forall i | 0 <= i < |skipped| ensures Faithful(w, rules, force, sizes, sources, start, now, skipped[i]) {
      SkippedIsFaithful(w, rules, force, sizes, sources, start, now, files, targets, toCopy, skipped, i);
    }
    forall i | 0 <= i < |copied| ensures Faithful(w, rules, force, sizes, sources, start, now, copied[i]) {
      CopiedIsFaithful(w, rules, force, sizes, sources, start, now, files, targets, toCopy, answers, i);
    }
    forall p | !IsTarget(files, p) ensures At(now, p) == At(start, p) { NotSentIsNoTarget(files, toCopy, targets, p); }
  }

  lemma EachFileOnce(files: seq<FileToCopy>, targets: set<string>, toCopy: seq<FileToCopy>, skipped: seq<Report>,
                     copied: seq<Report>)
    requires Sifted(toCopy, files, (f: FileToCopy) => f.targetPath !in targets) && FilesOf(copied) == toCopy
    requires Sifted(FilesOf(skipped), files, (f: FileToCopy) => f.targetPath in targets)
    ensures forall f :: Count(FilesOf(skipped + copied), f) == Count(files, f)
    ensures |skipped| + |toCopy| == |files|
  {
    assert FilesOf(skipped + copied) == FilesOf(skipped) + FilesOf(copied);
    SiftedBoth(FilesOf(skipped), toCopy, files, (f: FileToCopy) => f.targetPath in targets,
               (f: FileToCopy) => f.targetPath !in targets, (f: FileToCopy) => true);
    SameCountSameLength(FilesOf(skipped + copied), files);
  }

  /** Every selected file is reported exactly once, with the status of its own rule; its target is left as
      that rule leaves it; and the run returns 0 exactly when no file failed, which is exactly when its gate
      finds every outcome proven. */
  method CopyLocally(gate: Gate, rules: Integrity, force: bool, sizes: map<string, nat>, sources: map<string, Reading>,
                     files: seq<FileToCopy>, target: TargetHost) returns (reports: seq<Report>, failed: nat)
    requires DistinctTargets(files) && target.queue == [] && gate.outcomes == []
    modifies gate, target
    ensures forall f :: Count(FilesOf(reports), f) == Count(files, f)
    ensures forall i :: 0 <= i < |reports| ==>
      Faithful(target.wire, rules, force, sizes, sources, old(target.sides), target.sides, reports[i])
    ensures forall p :: !IsTarget(files, p) ==> At(target.sides, p) == At(old(target.sides), p)
    ensures |files| == |gate.outcomes|
      == Tally(reports, FreshCopy) + Tally(reports, Replaced) + Tally(reports, SkippedExists) + failed
    ensures failed == 0 <==> AllProven(gate.outcomes)
    ensures failed == 0 <==> forall i :: 0 <= i < |reports| ==> !reports[i].status.Failed?
  {
    ghost var w, sides := target.wire, target.sides;
    var candidates := Candidates(files, force, sizes, target);
    var proven := gate.Confirm(candidates, target);
    var targets := set f | f in proven :: f.targetPath;
    ProvenAreSkipped(w, force, sizes, sides, files, candidates, proven, targets);
    var toCopy := ToCopy(files, targets);
    var skipped := SkipProven(files, targets);
    DistinctPart(toCopy, files, (f: FileToCopy) => f.targetPath !in targets);
    ghost var confirmed := gate.outcomes;
    var answers := gate.Copy(toCopy, rules, sources, target);
    OneByOneIsEachAlone(w, rules, toCopy, sources, sides);
    var copied := GatedResults(toCopy, answers);
    reports := skipped + copied;
    EveryReportIsCounted(reports);
    failed := Tally(reports, Failed);
    EachFileOnce(files, targets, toCopy, skipped, copied);
    ReportsAreFaithful(w, rules, force, sizes, sources, sides, target.sides, files, targets, toCopy, skipped, copied,
        answers);
    SkippedAreConfirmed(w, force, sizes, sides, files, proven, targets, skipped);
    FailedIsUnproven(skipped, copied, confirmed, answers);
  }

  lemma SkippedAreConfirmed(w: Wire, force: bool, sizes: map<string, nat>, sides: map<string, Side>,
                            files: seq<FileToCopy>, proven: seq<FileToCopy>, targets: set<string>, skipped: seq<Report>)
    requires Sifted(proven, files, (f: FileToCopy) => SkipsTheGate(w, force, sizes, f, At(sides, f.targetPath)))
    requires forall f :: f in files ==>
      (f.targetPath in targets <==> SkipsTheGate(w, force, sizes, f, At(sides, f.targetPath)))
    requires Sifted(FilesOf(skipped), files, (f: FileToCopy) => f.targetPath in targets)
    ensures |proven| == |skipped|
  {
    forall f ensures Count(proven, f) == Count(FilesOf(skipped), f) { CountPositive(files, f); }
    SameCountSameLength(proven, FilesOf(skipped));
  }

  lemma FailedIsUnproven(skipped: seq<Report>, copied: seq<Report>, confirmed: seq<Outcome>, answers: seq<Outcome>)
    requires forall i :: 0 <= i < |skipped| ==> skipped[i].status.SkippedExists?
    requires forall i :: 0 <= i < |confirmed| ==> confirmed[i].verdict.Match?
    requires |copied| == |answers| && forall i :: 0 <= i < |copied| ==> copied[i].status == StatusOf(answers[i].verdict)
    ensures AllProven(confirmed + answers) <==>
      forall i :: 0 <= i < |skipped + copied| ==> !(skipped + copied)[i].status.Failed?
  {
    var outcomes, reports := confirmed + answers, skipped + copied;
    forall i | 0 <= i < |answers|
      ensures outcomes[|confirmed| + i] == answers[i] && reports[|skipped| + i] == copied[i]
      ensures Proven(answers[i].verdict) <==> !copied[i].status.Failed?
    {
    }
  }
}

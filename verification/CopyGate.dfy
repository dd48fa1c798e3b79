/** The checksum copy gate: every file of a run proven onto its target, or not used.
    The batch runs its files through shared rounds; `Alone` is the rule for one file by itself. */
module CopyGate {
  import opened Basics

  type Content = string

  /** A hasher's answer: the checksum, and the size when it was read. */
  datatype Reading = Reading(sha: string, size: Option<nat>)

  datatype FileToCopy = FileToCopy(sourcePath: string, targetPath: string, fileType: string,
                                   recorded: Option<string>, recordedSize: Option<nat>)

  datatype Integrity = Integrity(retries: nat, interval: nat, verifySource: bool, refuseUncatalogued: bool)

  datatype Verdict =
    | Copying | Match | Copied | Recopied
    | SourceMissing | SourceMismatch | UncataloguedRefused | CopyFailed

  predicate Proven(v: Verdict) {
    v.Match? || v.Copied? || v.Recopied?
  }

  datatype AttemptResult = AttemptMatch | AttemptMismatch | AttemptError

  datatype Attempt = Attempt(no: nat, result: AttemptResult, sha: Option<string>, size: Option<nat>)

  datatype Outcome = Outcome(verdict: Verdict, shaSource: Option<string>, shaBefore: Option<string>,
                             shaAfter: Option<string>, attempts: seq<Attempt>)

  /** Equal checksums, and equal sizes where both sides read one. */
  predicate SameBytes(found: Option<Reading>, sha: Option<string>, size: Option<nat>) {
    && found.Some? && sha.Some? && sha.value != "" && found.value.sha != ""
    && Lower(found.value.sha) == Lower(sha.value)
    && (found.value.size.None? || size.None? || found.value.size == size)
  }

  /** Two readings of the same bytes: checksums that differ in case at most, and sizes that differ only where one was
      not read. */
  ghost predicate ReadAlike(a: Reading, b: Reading) {
    && a.sha != "" && b.sha != "" && SameButCase(a.sha, b.sha)
    && (a.size.None? || b.size.None? || a.size.value == b.size.value)
  }

  lemma SameBytesExactly(found: Option<Reading>, sha: Option<string>, size: Option<nat>)
    ensures SameBytes(found, sha, size) <==>
      found.Some? && sha.Some? && ReadAlike(found.value, Reading(sha.value, size))
  {
    if found.Some? && sha.Some? { LowerFolds(found.value.sha, sha.value); }
  }

  // ---------------------------------------------------------------- the transport

  /** What one copy onto a path did: whether it raised, and what the path holds afterwards -
      any content, a part of one, or nothing. */
  datatype Effect = Effect(raised: bool, after: Option<Content>)

  /** One target path: what it holds now and how many copies were made onto it. */
  datatype Side = Side(content: Option<Content>, copies: nat)

  /** The transport answers for each path on its own, from the copies made onto it so far and its
      content. `deferred` copies are queued, travel together before the next hash, and report nothing. */
  datatype Wire = Wire(effect: (string, nat, Option<Content>) -> Effect, hash: Content -> Reading, deferred: bool)

  function At(sides: map<string, Side>, path: string): Side {
    if path in sides then sides[path] else Side(None, 0)
  }

  function Wrote(w: Wire, path: string, s: Side): Side {
    Side(w.effect(path, s.copies, s.content).after, s.copies + 1)
  }

  predicate Raises(w: Wire, path: string, s: Side) {
    !w.deferred && w.effect(path, s.copies, s.content).raised
  }

  function Look(w: Wire, s: Side): Option<Reading> {
    if s.content.Some? then Some(w.hash(s.content.value)) else None
  }

  function Lookup(found: map<string, Reading>, path: string): Option<Reading> {
    if path in found then Some(found[path]) else None
  }

  function Flushed(w: Wire, sides: map<string, Side>, queue: seq<string>): map<string, Side>
    decreases |queue|
  {
    if queue == [] then sides
    else Flushed(w, sides[queue[0] := Wrote(w, queue[0], At(sides, queue[0]))], queue[1..])
  }

  lemma {:induction false} FlushedEach(w: Wire, sides: map<string, Side>, queue: seq<string>, p: string)
    requires NoDuplicates(queue)
    ensures At(Flushed(w, sides, queue), p) == if p in queue then Wrote(w, p, At(sides, p)) else At(sides, p)
    decreases |queue|
  {
    if queue != [] {
      var q := queue[0];
      assert q !in queue[1..];
      assert p in queue <==> p == q || p in queue[1..];
      FlushedEach(w, sides[q := Wrote(w, q, At(sides, q))], queue[1..], p);
    }
  }

  class TargetHost {
    const wire: Wire
    var sides: map<string, Side>
    var queue: seq<string>
    var calls: nat

    constructor (wire: Wire, sides: map<string, Side>)
      ensures this.wire == wire && this.sides == sides && queue == [] && calls == 0
    {
      this.wire, this.sides, queue, calls := wire, sides, [], 0;
    }

    /** Copy one file; false when the copy raised. A deferred copy only joins the queue. */
    method Copy(path: string) returns (ok: bool)
      modifies this
      ensures calls == old(calls) + 1
      ensures ok == !Raises(wire, path, At(old(sides), path))
      ensures wire.deferred ==> sides == old(sides) && queue == old(queue) + [path]
      ensures !wire.deferred ==>
        queue == old(queue) && sides == old(sides)[path := Wrote(wire, path, At(old(sides), path))]
    {
      calls := calls + 1;
      if wire.deferred {
        queue := queue + [path];
        ok := true;
      } else {
        var before := At(sides, path);
        var effect := wire.effect(path, before.copies, before.content);
        sides := sides[path := Side(effect.after, before.copies + 1)];
        ok := !effect.raised;
      }
    }

    /** Let the queued copies travel, then read the paths as they are now; a path not there has no answer. */
    method HashTargets(paths: seq<string>) returns (found: map<string, Reading>)
      modifies `sides, `queue
      ensures sides == Flushed(wire, old(sides), old(queue)) && queue == []
      ensures forall p :: p in paths ==> Lookup(found, p) == Look(wire, At(sides, p))
    {
      while queue != []
        invariant Flushed(wire, sides, queue) == Flushed(wire, old(sides), old(queue))
        decreases |queue|
      {
        var path := queue[0];
        var before := At(sides, path);
        sides := sides[path := Side(wire.effect(path, before.copies, before.content).after, before.copies + 1)];
        queue := queue[1..];
      }
      found := map[];
      for k := 0 to |paths|
        invariant forall j :: 0 <= j < k ==> Lookup(found, paths[j]) == Look(wire, At(sides, paths[j]))
        invariant forall p :: p in found ==> Some(found[p]) == Look(wire, At(sides, p))
      {
        var side := At(sides, paths[k]);
        if side.content.Some? {
          found := found[paths[k] := wire.hash(side.content.value)];
        }
      }
    }
  }

  // ---------------------------------------------------------------- the rule for one file

  /** The source's screening: `Copying` when the file goes on to its target. */
  function Screened(rules: Integrity, item: FileToCopy, source: Option<Reading>): Outcome {
    var verdict :=
      if source.None? then SourceMissing
      else if item.recorded.None? && rules.refuseUncatalogued then UncataloguedRefused
      else if rules.verifySource && item.recorded.Some? && source.value.sha != item.recorded.value then SourceMismatch
      else Copying;
    Outcome(verdict, if source.Some? then Some(source.value.sha) else None, None, None, [])
  }

  /** The target as it was: already the same bytes, or to be copied. */
  function Compared(o: Outcome, source: Reading, before: Option<Reading>): Outcome {
    var sha := if before.Some? then Some(before.value.sha) else None;
    if SameBytes(before, Some(source.sha), source.size)
    then o.(verdict := Match, shaBefore := sha, shaAfter := sha)
    else o.(shaBefore := sha)
  }

  /** One attempt judged by what the target reads after it. */
  function Judged(no: nat, raised: bool, found: Option<Reading>, source: Reading): Attempt {
    if raised || found.None? then Attempt(no, AttemptError, None, None)
    else Attempt(no, if SameBytes(found, Some(source.sha), source.size) then AttemptMatch else AttemptMismatch,
                 Some(found.value.sha), found.value.size)
  }

  function WithAttempt(o: Outcome, a: Attempt): Outcome {
    o.(attempts := o.attempts + [a],
       shaAfter := if a.sha.Some? then a.sha else o.shaAfter,
       verdict := if !a.result.AttemptMatch? then o.verdict else if a.no == 1 then Copied else Recopied)
  }

  function Try(w: Wire, path: string, source: Reading, s: Side, no: nat): Attempt {
    Judged(no, Raises(w, path, s), Look(w, Wrote(w, path, s)), source)
  }

  /** Attempts `no` to `total` of one file: over what is there, until one arrives equal. */
  function Rounds(w: Wire, path: string, source: Reading, o: Outcome, s: Side, no: nat, total: nat): (Outcome, Side)
    decreases total + 1 - no
  {
    if no > total then (o.(verdict := CopyFailed), s)
    else
      var a := Try(w, path, source, s, no);
      if a.result.AttemptMatch? then (WithAttempt(o, a), Wrote(w, path, s))
      else Rounds(w, path, source, WithAttempt(o, a), Wrote(w, path, s), no + 1, total)
  }

  /** One file by itself: its outcome and what its target path is left as. */
  function Alone(w: Wire, rules: Integrity, item: FileToCopy, source: Option<Reading>, s: Side): (Outcome, Side) {
    var screened := Screened(rules, item, source);
    if !screened.verdict.Copying? then (screened, s)
    else
      var compared := Compared(screened, source.value, Look(w, s));
      if !compared.verdict.Copying? then (compared, s)
      else Rounds(w, item.targetPath, source.value, compared, s, 1, rules.retries + 1)
  }

  /** The files proven one after the other, each run complete before the next begins. */
  function OneByOne(w: Wire, rules: Integrity, items: seq<FileToCopy>, sources: map<string, Reading>,
                    sides: map<string, Side>): (seq<Outcome>, map<string, Side>)
  {
    if items == [] then ([], sides)
    else
      var path := items[0].targetPath;
      var first := Alone(w, rules, items[0], Lookup(sources, items[0].sourcePath), At(sides, path));
      var rest := OneByOne(w, rules, items[1..], sources, sides[path := first.1]);
      ([first.0] + rest.0, rest.1)
  }

  ghost predicate DistinctTargets(items: seq<FileToCopy>) {
    forall i, j :: 0 <= i < j < |items| ==> items[i].targetPath != items[j].targetPath
  }

  ghost predicate IsTarget(items: seq<FileToCopy>, p: string) {
    exists i :: 0 <= i < |items| && items[i].targetPath == p
  }

  /** With distinct targets no run sees another's: each file ends as it would have alone. */
  lemma {:induction false} OneByOneIsEachAlone(w: Wire, rules: Integrity, items: seq<FileToCopy>,
                                               sources: map<string, Reading>, sides: map<string, Side>)
    requires DistinctTargets(items)
    ensures var (outcomes, after) := OneByOne(w, rules, items, sources, sides);
      && |outcomes| == |items|
      && (forall i :: 0 <= i < |items| ==>
        (outcomes[i], At(after, items[i].targetPath))
          == Alone(w, rules, items[i], Lookup(sources, items[i].sourcePath), At(sides, items[i].targetPath)))
      && (forall p :: !IsTarget(items, p) ==> At(after, p) == At(sides, p))
  {
    if items != [] {
      var path := items[0].targetPath;
      var first := Alone(w, rules, items[0], Lookup(sources, items[0].sourcePath), At(sides, path));
      var sides' := sides[path := first.1];
      OneByOneIsEachAlone(w, rules, items[1..], sources, sides');
      assert !IsTarget(items[1..], path);
      forall i | 0 < i < |items| ensures At(sides', items[i].targetPath) == At(sides, items[i].targetPath) {
        assert items[1..][i - 1] == items[i];
      }
      forall p | !IsTarget(items, p) ensures At(sides', p) == At(sides, p) && !IsTarget(items[1..], p) {
        assert items[0].targetPath != p;
        forall i | 0 <= i < |items[1..]| ensures items[1..][i].targetPath != p { assert items[i + 1].targetPath != p; }
      }
    }
  }

  // ---------------------------------------------------------------- the batch

  function TotalAttempts(outcomes: seq<Outcome>): nat {
    if outcomes == [] then 0 else |outcomes[0].attempts| + TotalAttempts(outcomes[1..])
  }

  lemma {:induction false} OneMoreAttempt(outcomes: seq<Outcome>, i: nat, o: Outcome)
    requires i < |outcomes| && |o.attempts| == |outcomes[i].attempts| + 1
    ensures TotalAttempts(outcomes[i := o]) == TotalAttempts(outcomes) + 1
  {
    if i > 0 {
      assert outcomes[i := o][1..] == outcomes[1..][i - 1 := o];
      OneMoreAttempt(outcomes[1..], i - 1, o);
    }
  }

  lemma {:induction false} SameAttempts(a: seq<Outcome>, b: seq<Outcome>)
    requires |a| == |b| && forall i :: 0 <= i < |a| ==> |a[i].attempts| == |b[i].attempts|
    ensures TotalAttempts(a) == TotalAttempts(b)
  {
    if a != [] {
      assert forall i :: 0 <= i < |a[1..]| ==> a[1..][i] == a[i + 1] && b[1..][i] == b[i + 1];
      SameAttempts(a[1..], b[1..]);
    }
  }

  lemma {:induction false} RoundAttempts(was: seq<Outcome>, judged: seq<Outcome>, pending: seq<nat>)
    requires |was| == |judged| && Ascending(pending) && forall k :: 0 <= k < |pending| ==> pending[k] < |was|
    requires forall i :: 0 <= i < |was| ==> |judged[i].attempts| == |was[i].attempts| + if i in pending then 1 else 0
    ensures TotalAttempts(judged) == TotalAttempts(was) + |pending|
    decreases |pending|
  {
    if pending == [] {
      SameAttempts(was, judged);
    } else {
      var rest, p := pending[..|pending| - 1], pending[|pending| - 1];
      assert pending == rest + [p] && p in pending && p !in rest;
      OneMoreAttempt(was, p, judged[p]);
      RoundAttempts(was[p := judged[p]], judged, rest);
    }
  }

  lemma {:induction false} NoAttempts(outcomes: seq<Outcome>)
    requires forall i :: 0 <= i < |outcomes| ==> outcomes[i].attempts == []
    ensures TotalAttempts(outcomes) == 0
  {
    if outcomes != [] { NoAttempts(outcomes[1..]); }
  }

  /** The file's outcome and its target are what it would have come to alone. */
  ghost predicate Settled(w: Wire, rules: Integrity, items: seq<FileToCopy>, sources: map<string, Reading>,
                          start: map<string, Side>, outcomes: seq<Outcome>, now: map<string, Side>, i: nat)
    requires |outcomes| == |items| && i < |items|
  {
    var path := items[i].targetPath;
    (outcomes[i], At(now, path)) == Alone(w, rules, items[i], Lookup(sources, items[i].sourcePath), At(start, path))
  }

  /** Settled, or still to be settled by exactly the attempts it would have left alone. */
  ghost predicate OnCourse(w: Wire, rules: Integrity, items: seq<FileToCopy>, sources: map<string, Reading>,
                           start: map<string, Side>, outcomes: seq<Outcome>, now: map<string, Side>,
                           pending: seq<nat>, no: nat, i: nat)
    requires |outcomes| == |items| && i < |items|
  {
    if i !in pending then Settled(w, rules, items, sources, start, outcomes, now, i)
    else
      var path := items[i].targetPath;
      && items[i].sourcePath in sources && outcomes[i].verdict.Copying?
      && Rounds(w, path, sources[items[i].sourcePath], outcomes[i], At(now, path), no, rules.retries + 1)
         == Alone(w, rules, items[i], Lookup(sources, items[i].sourcePath), At(start, path))
  }

  /** One round's copies, each over what is there, then one hash of everything that was copied. */
  method CopyAndHash(target: TargetHost, paths: seq<string>) returns (raised: seq<bool>, found: map<string, Reading>)
    requires NoDuplicates(paths) && target.queue == []
    modifies target
    ensures target.queue == [] && target.calls == old(target.calls) + |paths| && |raised| == |paths|
    ensures forall p ::
      At(target.sides, p) ==
        (if p in paths then Wrote(target.wire, p, At(old(target.sides), p)) else At(old(target.sides), p))
    ensures forall k :: 0 <= k < |paths| ==>
      && raised[k] == Raises(target.wire, paths[k], At(old(target.sides), paths[k]))
      && (!raised[k] ==> Lookup(found, paths[k]) == Look(target.wire, At(target.sides, paths[k])))
  {
    var copied: seq<string> := [];
    raised, found := [], map[];
    ghost var w, start := target.wire, target.sides;
    for k := 0 to |paths|
      invariant |raised| == k && target.calls == old(target.calls) + k
      invariant forall j :: 0 <= j < k ==> raised[j] == Raises(w, paths[j], At(start, paths[j]))
      invariant forall j :: 0 <= j < k && !raised[j] ==> paths[j] in copied
      invariant w.deferred ==> target.sides == start && target.queue == paths[..k] == copied
      invariant !w.deferred ==> target.queue == []
      invariant !w.deferred ==> forall p ::
        At(target.sides, p) == (if p in paths[..k] then Wrote(w, p, At(start, p)) else At(start, p))
    {
      assert paths[k] !in paths[..k];
      assert forall p :: p in paths[..k + 1] <==> p == paths[k] || p in paths[..k];
      var ok := target.Copy(paths[k]);
      raised := raised + [!ok];
      if ok {
        copied := copied + [paths[k]];
      }
    }
    assert paths[..|paths|] == paths;
    if copied != [] {
      ghost var queued := target.queue;
      if w.deferred {
        forall p { FlushedEach(w, start, queued, p); }
      }
      found := target.HashTargets(copied);
    }
  }

  /** The attempt of the `k`-th pending file, by what its round read. */
  function JudgedAt(items: seq<FileToCopy>, sources: map<string, Reading>, pending: seq<nat>, no: nat,
                    raised: seq<bool>, found: map<string, Reading>, k: nat): Attempt
    requires k < |pending| == |raised| && pending[k] < |items| && items[pending[k]].sourcePath in sources
  {
    Judged(no, raised[k], Lookup(found, items[pending[k]].targetPath), sources[items[pending[k]].sourcePath])
  }

  ghost predicate CanJudge(items: seq<FileToCopy>, sources: map<string, Reading>, outcomes: seq<Outcome>,
                           pending: seq<nat>, raised: seq<bool>)
  {
    && |outcomes| == |items| && |raised| == |pending| && Ascending(pending)
    && forall k :: 0 <= k < |pending| ==> pending[k] < |items| && items[pending[k]].sourcePath in sources
  }

  /** The outcomes and what is still wrong after the first `k` pending files are judged. */
  ghost function JudgedUpTo(items: seq<FileToCopy>, sources: map<string, Reading>, outcomes: seq<Outcome>,
                            pending: seq<nat>, no: nat, raised: seq<bool>, found: map<string, Reading>,
                            k: nat): (r: (seq<Outcome>, seq<nat>))
    requires CanJudge(items, sources, outcomes, pending, raised) && k <= |pending|
    ensures |r.0| == |outcomes|
  {
    if k == 0 then (outcomes, []) else
      var (judged, still) := JudgedUpTo(items, sources, outcomes, pending, no, raised, found, k - 1);
      var i, attempt := pending[k - 1], JudgedAt(items, sources, pending, no, raised, found, k - 1);
      (judged[i := WithAttempt(judged[i], attempt)], if attempt.result.AttemptMatch? then still else still + [i])
  }

  lemma {:induction false} JudgedOne(items: seq<FileToCopy>, sources: map<string, Reading>, outcomes: seq<Outcome>,
                                     pending: seq<nat>, no: nat, raised: seq<bool>, found: map<string, Reading>,
                                     k: nat, m: nat)
    requires CanJudge(items, sources, outcomes, pending, raised) && k <= |pending| && m < |pending|
    ensures var (judged, still) := JudgedUpTo(items, sources, outcomes, pending, no, raised, found, k);
      var attempt := JudgedAt(items, sources, pending, no, raised, found, m);
      && judged[pending[m]] == (if m < k then WithAttempt(outcomes[pending[m]], attempt) else outcomes[pending[m]])
      && (pending[m] in still <==> m < k && !attempt.result.AttemptMatch?)
  {
    if k > 0 { JudgedOne(items, sources, outcomes, pending, no, raised, found, k - 1, m); }
  }

  lemma {:induction false} JudgedRest(items: seq<FileToCopy>, sources: map<string, Reading>, outcomes: seq<Outcome>,
                                      pending: seq<nat>, no: nat, raised: seq<bool>, found: map<string, Reading>,
                                      k: nat, i: nat)
    requires CanJudge(items, sources, outcomes, pending, raised) && k <= |pending| && i !in pending
    ensures var (judged, still) := JudgedUpTo(items, sources, outcomes, pending, no, raised, found, k);
      (i < |outcomes| ==> judged[i] == outcomes[i]) && i !in still
  {
    if k > 0 {
      assert pending[k - 1] in pending;
      JudgedRest(items, sources, outcomes, pending, no, raised, found, k - 1, i);
    }
  }

  lemma {:induction false} StillInOrder(items: seq<FileToCopy>, sources: map<string, Reading>, outcomes: seq<Outcome>,
                                        pending: seq<nat>, no: nat, raised: seq<bool>, found: map<string, Reading>,
                                        k: nat)
    requires CanJudge(items, sources, outcomes, pending, raised) && k <= |pending|
    ensures var still := JudgedUpTo(items, sources, outcomes, pending, no, raised, found, k).1;
      Ascending(still) && forall j :: 0 <= j < |still| ==> k > 0 && still[j] <= pending[k - 1]
  {
    if k > 0 { StillInOrder(items, sources, outcomes, pending, no, raised, found, k - 1); }
  }

  /** The round's answers, written into each pending file's outcome; what is still wrong stays pending. */
  method JudgeRound(items: seq<FileToCopy>, sources: map<string, Reading>, outcomes: seq<Outcome>, pending: seq<nat>,
                    no: nat, raised: seq<bool>, found: map<string, Reading>)
    returns (judged: seq<Outcome>, still: seq<nat>)
    requires CanJudge(items, sources, outcomes, pending, raised)
    ensures |judged| == |outcomes| && Ascending(still)
    ensures forall i :: 0 <= i < |items| && i !in pending ==> judged[i] == outcomes[i]
    ensures forall k :: 0 <= k < |pending| ==>
      judged[pending[k]] == WithAttempt(outcomes[pending[k]], JudgedAt(items, sources, pending, no, raised, found, k))
    ensures forall k :: 0 <= k < |pending| ==>
      (pending[k] in still <==> !JudgedAt(items, sources, pending, no, raised, found, k).result.AttemptMatch?)
    ensures forall i :: i in still ==> i in pending
  {
    judged, still := outcomes, [];
    for k := 0 to |pending|
      invariant (judged, still) == JudgedUpTo(items, sources, outcomes, pending, no, raised, found, k)
    {
      var i, attempt := pending[k], JudgedAt(items, sources, pending, no, raised, found, k);
      judged := judged[i := WithAttempt(judged[i], attempt)];
      if !attempt.result.AttemptMatch? {
        still := still + [i];
      }
    }
    StillInOrder(items, sources, outcomes, pending, no, raised, found, |pending|);
    forall m | 0 <= m < |pending|
      ensures judged[pending[m]] ==
        WithAttempt(outcomes[pending[m]], JudgedAt(items, sources, pending, no, raised, found, m))
      ensures pending[m] in still <==> !JudgedAt(items, sources, pending, no, raised, found, m).result.AttemptMatch?
    {
      JudgedOne(items, sources, outcomes, pending, no, raised, found, |pending|, m);
    }
    forall i: nat | i !in pending ensures i !in still && (i < |items| ==> judged[i] == outcomes[i]) {
      JudgedRest(items, sources, outcomes, pending, no, raised, found, |pending|, i);
    }
  }

  lemma RoundKeepsCourse(w: Wire, rules: Integrity, items: seq<FileToCopy>, sources: map<string, Reading>,
                         start: map<string, Side>, was: seq<Outcome>, before: map<string, Side>, pending: seq<nat>,
                         no: nat, judged: seq<Outcome>, now: map<string, Side>, still: seq<nat>, i: nat)
    requires |was| == |judged| == |items| && i < |items| && no <= rules.retries + 1
    requires OnCourse(w, rules, items, sources, start, was, before, pending, no, i)
    requires i !in pending ==>
      judged[i] == was[i] && At(now, items[i].targetPath) == At(before, items[i].targetPath) && i !in still
    requires i in pending ==>
      var path := items[i].targetPath;
      var a := Try(w, path, sources[items[i].sourcePath], At(before, path), no);
      && judged[i] == WithAttempt(was[i], a) && At(now, path) == Wrote(w, path, At(before, path))
      && (i in still <==> !a.result.AttemptMatch?)
    ensures OnCourse(w, rules, items, sources, start, judged, now, still, no + 1, i)
  {
  }

  /** One round: copy everything pending, hash it together, judge each file, keep what is still wrong. */
  method OneRound(items: seq<FileToCopy>, rules: Integrity, sources: map<string, Reading>, target: TargetHost,
                  outcomes: seq<Outcome>, pending: seq<nat>, no: nat, ghost start: map<string, Side>)
    returns (judged: seq<Outcome>, still: seq<nat>)
    requires DistinctTargets(items) && |outcomes| == |items| && target.queue == [] && no <= rules.retries + 1
    requires Ascending(pending) && forall k :: 0 <= k < |pending| ==> pending[k] < |items|
    requires forall i :: 0 <= i < |items| ==>
      OnCourse(target.wire, rules, items, sources, start, outcomes, target.sides, pending, no, i)
    modifies target
    ensures target.queue == [] && |judged| == |items|
    ensures Ascending(still) && forall k :: 0 <= k < |still| ==> still[k] in pending
    ensures var next := no + 1;
      forall i :: 0 <= i < |items| ==>
        OnCourse(target.wire, rules, items, sources, start, judged, target.sides, still, next, i)
    ensures forall i :: 0 <= i < |items| ==>
      |judged[i].attempts| == |outcomes[i].attempts| + if i in pending then 1 else 0
    ensures forall p :: !IsTarget(items, p) ==> At(target.sides, p) == At(old(target.sides), p)
    ensures target.calls - TotalAttempts(judged) == old(target.calls) - TotalAttempts(outcomes)
  {
    ghost var w, before, next := target.wire, target.sides, no + 1;
    forall k | 0 <= k < |pending| ensures items[pending[k]].sourcePath in sources {
      assert pending[k] in pending;
      assert OnCourse(w, rules, items, sources, start, outcomes, before, pending, no, pending[k]);
    }
    var paths := seq(|pending|, k requires 0 <= k < |pending| => items[pending[k]].targetPath);
    var raised, found := CopyAndHash(target, paths);
    judged, still := JudgeRound(items, sources, outcomes, pending, no, raised, found);
    forall i | 0 <= i < |items|
      ensures OnCourse(w, rules, items, sources, start, judged, target.sides, still, next, i)
      ensures |judged[i].attempts| == |outcomes[i].attempts| + if i in pending then 1 else 0
    {
      if i in pending {
        var k :| 0 <= k < |pending| && pending[k] == i;
        var path, source := paths[k], sources[items[i].sourcePath];
        assert path in paths;
        assert Judged(no, raised[k], Lookup(found, path), source) == Try(w, path, source, At(before, path), no);
      } else {
        assert items[i].targetPath !in paths;
      }
      RoundKeepsCourse(w, rules, items, sources, start, outcomes, before, pending, no, judged, target.sides, still, i);
    }
    RoundAttempts(outcomes, judged, pending);
    forall p | !IsTarget(items, p) ensures p !in paths {}
  }

  /** Up to `retries + 1` rounds, with a pause between two. */
  method RunRounds(items: seq<FileToCopy>, rules: Integrity, sources: map<string, Reading>, target: TargetHost,
                   compared: seq<Outcome>, toCopy: seq<nat>, ghost start: map<string, Side>)
    returns (outcomes: seq<Outcome>, pauses: nat)
    requires DistinctTargets(items) && |compared| == |items| && target.queue == []
    requires Ascending(toCopy) && forall k :: 0 <= k < |toCopy| ==> toCopy[k] < |items|
    requires forall i :: 0 <= i < |items| ==> compared[i].attempts == []
    requires forall i :: 0 <= i < |items| ==>
      OnCourse(target.wire, rules, items, sources, start, compared, target.sides, toCopy, 1, i)
    requires forall p :: !IsTarget(items, p) ==> At(target.sides, p) == At(start, p)
    modifies target
    ensures target.queue == [] && |outcomes| == |items|
    ensures forall i :: 0 <= i < |items| ==>
      Settled(target.wire, rules, items, sources, start, outcomes, target.sides, i)
    ensures forall p :: !IsTarget(items, p) ==> At(target.sides, p) == At(start, p)
    ensures target.calls == old(target.calls) + TotalAttempts(outcomes)
    ensures rules.interval == 0 ==> pauses == 0
    ensures rules.interval > 0 ==> forall i :: 0 <= i < |items| ==> |outcomes[i].attempts| <= pauses + 1
    ensures pauses > 0 ==> exists i :: 0 <= i < |items| && |outcomes[i].attempts| == pauses + 1
  {
    var last := compared;
    pauses := 0;
    var pending: seq<nat>, no: nat, total := toCopy, 1, rules.retries + 1;
    NoAttempts(compared);
    while no <= total && pending != []
      invariant |last| == |items| && target.queue == [] && Ascending(pending) && 1 <= no <= total + 1
      invariant forall k :: 0 <= k < |pending| ==> pending[k] < |items|
      invariant forall i :: 0 <= i < |items| ==>
        OnCourse(target.wire, rules, items, sources, start, last, target.sides, pending, no, i)
      invariant forall i :: 0 <= i < |items| ==> |last[i].attempts| < no
      invariant forall k :: 0 <= k < |pending| ==> |last[pending[k]].attempts| == no - 1
      invariant no > 1 ==> exists i :: 0 <= i < |items| && |last[i].attempts| == no - 1
      invariant forall p :: !IsTarget(items, p) ==> At(target.sides, p) == At(start, p)
      invariant target.calls == old(target.calls) + TotalAttempts(last)
      invariant pauses ==
        if rules.interval == 0 || no == 1 then 0 else if pending == [] || no > total then no - 2 else no - 1
      decreases total + 1 - no
    {
      var judged, still := OneRound(items, rules, sources, target, last, pending, no, start);
      assert pending[0] in pending && |judged[pending[0]].attempts| == no;
      forall k | 0 <= k < |still| ensures still[k] < |items| && |judged[still[k]].attempts| == no {
        var j :| 0 <= j < |pending| && pending[j] == still[k];
      }
      last, pending := judged, still;
      if pending != [] && no < total && rules.interval > 0 {
        pauses := pauses + 1;
      }
      no := no + 1;
    }
    outcomes := GiveUp(last, pending);
    SameAttempts(last, outcomes);
    forall i | 0 <= i < |items|
      ensures Settled(target.wire, rules, items, sources, start, outcomes, target.sides, i)
    {
      assert OnCourse(target.wire, rules, items, sources, start, last, target.sides, pending, no, i);
    }
  }

  /** What is pending after the last round has failed. */
  method GiveUp(last: seq<Outcome>, pending: seq<nat>) returns (outcomes: seq<Outcome>)
    requires Ascending(pending) && forall k :: 0 <= k < |pending| ==> pending[k] < |last|
    ensures |outcomes| == |last|
    ensures forall i :: 0 <= i < |last| ==>
      outcomes[i] == if i in pending then last[i].(verdict := CopyFailed) else last[i]
  {
    outcomes := last;
    for k := 0 to |pending|
      invariant |outcomes| == |last|
      invariant forall i :: 0 <= i < |last| ==>
        outcomes[i] == if i in pending[..k] then last[i].(verdict := CopyFailed) else last[i]
    {
      assert pending[..k + 1] == pending[..k] + [pending[k]];
      outcomes := outcomes[pending[k] := outcomes[pending[k]].(verdict := CopyFailed)];
    }
    assert pending[..|pending|] == pending;
  }

  /** The sources, where they are: which files go on to their target. */
  method ScreenSources(items: seq<FileToCopy>, rules: Integrity, sources: map<string, Reading>)
    returns (screened: seq<Outcome>, candidates: seq<nat>)
    ensures |screened| == |items| && Ascending(candidates)
    ensures forall i :: 0 <= i < |items| ==>
      screened[i] == Screened(rules, items[i], Lookup(sources, items[i].sourcePath))
    ensures forall k :: 0 <= k < |candidates| ==> candidates[k] < |items|
    ensures forall i :: 0 <= i < |items| ==> (i in candidates <==> screened[i].verdict.Copying?)
  {
    screened, candidates := [], [];
    for index := 0 to |items|
      invariant |screened| == index && Ascending(candidates)
      invariant forall i :: 0 <= i < index ==>
        screened[i] == Screened(rules, items[i], Lookup(sources, items[i].sourcePath))
      invariant forall k :: 0 <= k < |candidates| ==> candidates[k] < index
      invariant forall i :: 0 <= i < index ==> (i in candidates <==> screened[i].verdict.Copying?)
    {
      var o := Screened(rules, items[index], Lookup(sources, items[index].sourcePath));
      assert index !in candidates;
      screened := screened + [o];
      if o.verdict.Copying? {
        candidates := candidates + [index];
      }
    }
  }

  function ComparedAt(items: seq<FileToCopy>, sources: map<string, Reading>, before: map<string, Reading>,
                      screened: seq<Outcome>, i: nat): Outcome
    requires |screened| == |items| && i < |items| && items[i].sourcePath in sources
  {
    Compared(screened[i], sources[items[i].sourcePath], Lookup(before, items[i].targetPath))
  }

  /** The targets before any copy: which candidates are there already, which are to be copied. */
  method CompareTargets(items: seq<FileToCopy>, sources: map<string, Reading>, before: map<string, Reading>,
                        screened: seq<Outcome>, candidates: seq<nat>)
    returns (compared: seq<Outcome>, pending: seq<nat>)
    requires |screened| == |items| && Ascending(candidates)
    requires forall k :: 0 <= k < |candidates| ==> candidates[k] < |items| && items[candidates[k]].sourcePath in sources
    ensures |compared| == |items| && Ascending(pending)
    ensures forall k :: 0 <= k < |pending| ==> pending[k] < |items|
    ensures forall i :: 0 <= i < |items| && i !in candidates ==> compared[i] == screened[i] && i !in pending
    ensures forall k :: 0 <= k < |candidates| ==>
      var i := candidates[k];
      && compared[i] == Compared(screened[i], sources[items[i].sourcePath], Lookup(before, items[i].targetPath))
      && (i in pending <==> compared[i].verdict.Copying?)
  {
    compared, pending := screened, [];
    for k := 0 to |candidates|
      invariant |compared| == |items| && Ascending(pending)
      invariant forall j :: 0 <= j < |pending| && k < |candidates| ==> pending[j] < candidates[k]
      invariant forall i :: i in pending ==> i in candidates[..k]
      invariant forall i :: 0 <= i < |items| && i !in candidates[..k] ==> compared[i] == screened[i]
      invariant forall j :: 0 <= j < k ==>
        compared[candidates[j]] == ComparedAt(items, sources, before, screened, candidates[j])
      invariant forall j :: 0 <= j < k ==> (candidates[j] in pending <==> compared[candidates[j]].verdict.Copying?)
    {
      var i := candidates[k];
      assert i !in candidates[..k];
      TakeNext(candidates, k);
      compared := compared[i := ComparedAt(items, sources, before, screened, i)];
      if compared[i].verdict.Copying? {
        pending := pending + [i];
      }
    }
    assert candidates[..|candidates|] == candidates;
    forall k | 0 <= k < |pending| ensures pending[k] < |items| { assert pending[k] in pending; }
  }

  /** Every file of a run onto the target. The batch shares its rounds and nothing else: outcomes and
      targets are those of the files proven one after the other. */
  method CopyVerifiedBatch(items: seq<FileToCopy>, rules: Integrity, sources: map<string, Reading>, target: TargetHost)
    returns (outcomes: seq<Outcome>, pauses: nat)
    requires DistinctTargets(items) && target.queue == []
    modifies target
    ensures outcomes == OneByOne(target.wire, rules, items, sources, old(target.sides)).0
    ensures forall p ::
      At(target.sides, p) == At(OneByOne(target.wire, rules, items, sources, old(target.sides)).1, p)
    ensures target.queue == [] && target.calls == old(target.calls) + TotalAttempts(outcomes)
    ensures rules.interval == 0 ==> pauses == 0
    ensures rules.interval > 0 ==> forall i :: 0 <= i < |outcomes| ==> |outcomes[i].attempts| <= pauses + 1
    ensures pauses > 0 ==> exists i :: 0 <= i < |outcomes| && |outcomes[i].attempts| == pauses + 1
  {
    ghost var start, w := target.sides, target.wire;
    var screened, candidates := ScreenSources(items, rules, sources);
    forall k | 0 <= k < |candidates| ensures items[candidates[k]].sourcePath in sources {
      assert candidates[k] in candidates;
    }
    var before := map[];
    var paths := seq(|candidates|, k requires 0 <= k < |candidates| => items[candidates[k]].targetPath);
    if candidates != [] {
      before := target.HashTargets(paths);
    }
    var compared, pending := CompareTargets(items, sources, before, screened, candidates);
    forall i | 0 <= i < |items|
      ensures compared[i].attempts == [] && OnCourse(w, rules, items, sources, start, compared, start, pending, 1, i)
    {
      if i in candidates {
        var k :| 0 <= k < |candidates| && candidates[k] == i;
        assert paths[k] in paths;
      }
    }
    outcomes, pauses := RunRounds(items, rules, sources, target, compared, pending, start);
    SameAsOneByOne(w, rules, items, sources, start, outcomes, target.sides);
  }

  lemma SameAsOneByOne(w: Wire, rules: Integrity, items: seq<FileToCopy>, sources: map<string, Reading>,
                       start: map<string, Side>, outcomes: seq<Outcome>, now: map<string, Side>)
    requires DistinctTargets(items) && |outcomes| == |items|
    requires forall i :: 0 <= i < |items| ==> Settled(w, rules, items, sources, start, outcomes, now, i)
    requires forall p :: !IsTarget(items, p) ==> At(now, p) == At(start, p)
    ensures outcomes == OneByOne(w, rules, items, sources, start).0
    ensures forall p :: At(now, p) == At(OneByOne(w, rules, items, sources, start).1, p)
  {
    OneByOneIsEachAlone(w, rules, items, sources, start);
    var (each, after) := OneByOne(w, rules, items, sources, start);
    forall i | 0 <= i < |items|
      ensures outcomes[i] == each[i] && At(now, items[i].targetPath) == At(after, items[i].targetPath)
    {
      assert Settled(w, rules, items, sources, start, outcomes, now, i);
    }
    forall p ensures At(now, p) == At(after, p) {
      if IsTarget(items, p) {
        var i :| 0 <= i < |items| && items[i].targetPath == p;
      }
    }
  }

  /** One file: a batch of one. */
  method CopyVerified(item: FileToCopy, rules: Integrity, sources: map<string, Reading>, target: TargetHost)
    returns (outcome: Outcome)
    requires target.queue == []
    modifies target
    ensures (outcome, At(target.sides, item.targetPath))
      == Alone(target.wire, rules, item, Lookup(sources, item.sourcePath), At(old(target.sides), item.targetPath))
    ensures forall p :: p != item.targetPath ==> At(target.sides, p) == At(old(target.sides), p)
    ensures target.queue == []
  {
    OneByOneIsEachAlone(target.wire, rules, [item], sources, target.sides);
    var outcomes, _ := CopyVerifiedBatch([item], rules, sources, target);
    outcome := outcomes[0];
    assert IsTarget([item], item.targetPath) by { assert [item][0].targetPath == item.targetPath; }
  }

  // ---------------------------------------------------------------- what a verdict is worth

  ghost predicate Accounted(attempts: seq<Attempt>, verdict: Verdict, total: nat) {
    var k := |attempts|;
    && k <= total
    && (forall j :: 0 <= j < k ==> attempts[j].no == j + 1)
    && (forall j :: 0 <= j < k - 1 ==> !attempts[j].result.AttemptMatch?)
    && (verdict.Copied? <==> k == 1 && attempts[0].result.AttemptMatch?)
    && (verdict.Recopied? <==> k > 1 && attempts[k - 1].result.AttemptMatch?)
    && (verdict.CopyFailed? <==> k > 0 && k == total && !attempts[k - 1].result.AttemptMatch?)
    && (k == 0 ==> !verdict.Copying?)
  }

  lemma {:induction false} RoundsEnd(w: Wire, path: string, source: Reading, o: Outcome, s: Side, no: nat, total: nat)
    requires 1 <= no <= total + 1 && total > 0 && o.verdict.Copying? && |o.attempts| == no - 1
    requires forall j :: 0 <= j < no - 1 ==> o.attempts[j].no == j + 1 && !o.attempts[j].result.AttemptMatch?
    ensures var (r, after) := Rounds(w, path, source, o, s, no, total);
      && Accounted(r.attempts, r.verdict, total) && |r.attempts| > 0
      && (r.verdict.Copied? || r.verdict.Recopied? || r.verdict.CopyFailed?)
      && (Proven(r.verdict) ==> SameBytes(Look(w, after), Some(source.sha), source.size))
      && after.copies == s.copies + |r.attempts| - |o.attempts|
    decreases total + 1 - no
  {
    if no <= total {
      var a := Try(w, path, source, s, no);
      if !a.result.AttemptMatch? {
        RoundsEnd(w, path, source, WithAttempt(o, a), Wrote(w, path, s), no + 1, total);
      }
    }
  }

  /** Soundness of one verdict: proven means the target, as it is left, reads as the source - and, for a
      catalogued file held to its record, as what its backup recorded. Any other end that copied nothing
      left the target as it was. */
  lemma ProvenHoldsTheSource(w: Wire, rules: Integrity, item: FileToCopy, source: Option<Reading>, s: Side)
    ensures var (o, after) := Alone(w, rules, item, source, s);
      && (Proven(o.verdict) ==>
        && source.Some? && SameBytes(Look(w, after), Some(source.value.sha), source.value.size)
        && (item.recorded.Some? && rules.verifySource ==> source.value.sha == item.recorded.value)
        && (item.recorded.None? ==> !rules.refuseUncatalogued))
      && (o.verdict.SourceMissing? || o.verdict.SourceMismatch? || o.verdict.UncataloguedRefused? || o.verdict.Match?
          ==> after == s && o.attempts == [])
      && (o.verdict.SourceMissing? <==> source.None?)
  {
    var screened := Screened(rules, item, source);
    if screened.verdict.Copying? {
      var compared := Compared(screened, source.value, Look(w, s));
      if compared.verdict.Copying? {
        RoundsEnd(w, item.targetPath, source.value, compared, s, 1, rules.retries + 1);
      }
    }
  }

  /** Attempts are numbered from 1, at most `retries + 1` of them, only the last may match, and they decide
      the verdict; every one is a copy made. No file is left undecided. */
  lemma AttemptsAreAccounted(w: Wire, rules: Integrity, item: FileToCopy, source: Option<Reading>, s: Side)
    ensures var (o, after) := Alone(w, rules, item, source, s);
      && Accounted(o.attempts, o.verdict, rules.retries + 1) && !o.verdict.Copying?
      && after.copies == s.copies + |o.attempts|
      && (|o.attempts| > 0 <==> o.verdict.Copied? || o.verdict.Recopied? || o.verdict.CopyFailed?)
  {
    var screened := Screened(rules, item, source);
    if screened.verdict.Copying? {
      var compared := Compared(screened, source.value, Look(w, s));
      if compared.verdict.Copying? {
        RoundsEnd(w, item.targetPath, source.value, compared, s, 1, rules.retries + 1);
      }
    }
  }

  /** Which end each file comes to before any copy, exactly: missing, refused, not what its backup recorded, or
      there already. Every other file, and no other, is copied. */
  lemma VerdictIsDecided(w: Wire, rules: Integrity, item: FileToCopy, source: Option<Reading>, s: Side)
    ensures var (o, after) := Alone(w, rules, item, source, s);
      var refused := source.Some? && item.recorded.None? && rules.refuseUncatalogued;
      var changed := source.Some? && item.recorded.Some? && rules.verifySource
        && source.value.sha != item.recorded.value;
      var there := source.Some? && !refused && !changed
        && s.content.Some? && ReadAlike(w.hash(s.content.value), source.value);
      && (o.verdict.SourceMissing? <==> source.None?) && (o.verdict.UncataloguedRefused? <==> refused)
      && (o.verdict.SourceMismatch? <==> changed) && (o.verdict.Match? <==> there)
      && (o.attempts != [] <==> source.Some? && !refused && !changed && !there)
  {
    if source.Some? { SameBytesExactly(Look(w, s), Some(source.value.sha), source.value.size); }
    var screened := Screened(rules, item, source);
    if screened.verdict.Copying? {
      var compared := Compared(screened, source.value, Look(w, s));
      if compared.verdict.Copying? {
        RoundsEnd(w, item.targetPath, source.value, compared, s, 1, rules.retries + 1);
      }
    }
  }

  /** The path after its first `k` copies, whatever each of them left. */
  ghost function Carried(w: Wire, path: string, s: Side, k: nat): Side {
    if k == 0 then s
    else
      var before := Carried(w, path, s, k - 1);
      Side(w.effect(path, before.copies, before.content).after, before.copies + 1)
  }

  /** The attempt is the `k`th copy: an error when it raised or left nothing, a match when what it left reads like the
      source, and with the reading it took. */
  ghost predicate IsAttempt(w: Wire, path: string, s: Side, source: Reading, k: nat, a: Attempt)
    requires k > 0
  {
    var before, now := Carried(w, path, s, k - 1), Carried(w, path, s, k).content;
    var failed := (!w.deferred && w.effect(path, before.copies, before.content).raised) || now.None?;
    && a.no == k && (a.result.AttemptError? <==> failed)
    && (a.result.AttemptMatch? <==> !failed && ReadAlike(w.hash(now.value), source))
    && (failed ==> a.sha.None? && a.size.None?)
    && (!failed ==> a.sha == Some(w.hash(now.value).sha) && a.size == w.hash(now.value).size)
  }

  lemma {:induction false} RoundsAreCopies(w: Wire, path: string, source: Reading, o: Outcome, s: Side, no: nat,
                                           total: nat)
    requires 1 <= no <= total + 1 && |o.attempts| == no - 1
    requires forall j :: 0 <= j < no - 1 ==> IsAttempt(w, path, s, source, j + 1, o.attempts[j])
    ensures var (r, after) := Rounds(w, path, source, o, Carried(w, path, s, no - 1), no, total);
      && o.attempts <= r.attempts && after == Carried(w, path, s, |r.attempts|)
      && forall j :: 0 <= j < |r.attempts| ==> IsAttempt(w, path, s, source, j + 1, r.attempts[j])
    decreases total + 1 - no
  {
    if no <= total {
      var before := Carried(w, path, s, no - 1);
      var a := Try(w, path, source, before, no);
      assert Wrote(w, path, before) == Carried(w, path, s, no);
      SameBytesExactly(Look(w, Wrote(w, path, before)), Some(source.sha), source.size);
      assert IsAttempt(w, path, s, source, no, a);
      if !a.result.AttemptMatch? {
        RoundsAreCopies(w, path, source, WithAttempt(o, a), s, no + 1, total);
      }
    }
  }

  /** One file through the gate, copy by copy: each attempt is one copy onto what the one before left, judged by what it
      left itself; the target is as the last of them left it; and one attempt fewer than allowed only after a match. */
  lemma AttemptsAreCopies(w: Wire, rules: Integrity, item: FileToCopy, source: Option<Reading>, s: Side)
    ensures var (o, after) := Alone(w, rules, item, source, s);
      && after == Carried(w, item.targetPath, s, |o.attempts|)
      && (o.attempts != [] ==> source.Some?)
      && (forall j :: 0 <= j < |o.attempts| ==>
            IsAttempt(w, item.targetPath, s, source.value, j + 1, o.attempts[j]))
      && (0 < |o.attempts| <= rules.retries ==> o.attempts[|o.attempts| - 1].result.AttemptMatch?)
  {
    var screened := Screened(rules, item, source);
    if screened.verdict.Copying? {
      var compared := Compared(screened, source.value, Look(w, s));
      if compared.verdict.Copying? {
        RoundsAreCopies(w, item.targetPath, source.value, compared, s, 1, rules.retries + 1);
        RoundsEnd(w, item.targetPath, source.value, compared, s, 1, rules.retries + 1);
      }
    }
  }

  /** The whole run: every proven file still reads as its source after all rounds of all files. */
  lemma RunIsSound(w: Wire, rules: Integrity, items: seq<FileToCopy>, sources: map<string, Reading>,
                   sides: map<string, Side>, i: nat)
    requires DistinctTargets(items) && i < |items|
    ensures var (outcomes, after) := OneByOne(w, rules, items, sources, sides);
      var source := Lookup(sources, items[i].sourcePath);
      && |outcomes| == |items|
      && (outcomes[i].verdict in {Match, Copied, Recopied} ==>
        && source.Some? && At(after, items[i].targetPath).content.Some?
        && ReadAlike(w.hash(At(after, items[i].targetPath).content.value), source.value)
        && (items[i].recorded.Some? && rules.verifySource ==> source.value.sha == items[i].recorded.value))
      && (outcomes[i].attempts == [] ==> At(after, items[i].targetPath) == At(sides, items[i].targetPath))
  {
    OneByOneIsEachAlone(w, rules, items, sources, sides);
    var item := items[i];
    ProvenHoldsTheSource(w, rules, item, Lookup(sources, item.sourcePath), At(sides, item.targetPath));
    AttemptsAreAccounted(w, rules, item, Lookup(sources, item.sourcePath), At(sides, item.targetPath));
    var source := Lookup(sources, item.sourcePath);
    var left := At(OneByOne(w, rules, items, sources, sides).1, item.targetPath);
    if source.Some? { SameBytesExactly(Look(w, left), Some(source.value.sha), source.value.size); }
  }

  // ---------------------------------------------------------------- deferred copies

  /** A transport that reports no failure. */
  ghost predicate NeverRaises(w: Wire) {
    forall path, copies, content :: !w.effect(path, copies, content).raised
  }

  lemma {:induction false} DeferredRounds(w: Wire, path: string, source: Reading, o: Outcome, s: Side, no: nat,
                                          total: nat)
    requires NeverRaises(w)
    ensures Rounds(w.(deferred := true), path, source, o, s, no, total)
         == Rounds(w.(deferred := false), path, source, o, s, no, total)
    decreases total + 1 - no
  {
    if no <= total {
      var a := Try(w.(deferred := false), path, source, s, no);
      assert a == Try(w.(deferred := true), path, source, s, no);
      DeferredRounds(w, path, source, WithAttempt(o, a), Wrote(w, path, s), no + 1, total);
    }
  }

  /** Queuing a round's copies to travel together changes no verdict while the transport reports no failure. */
  lemma {:induction false} DeferredIsEager(w: Wire, rules: Integrity, items: seq<FileToCopy>,
                                           sources: map<string, Reading>, sides: map<string, Side>)
    requires NeverRaises(w)
    ensures OneByOne(w.(deferred := true), rules, items, sources, sides)
         == OneByOne(w.(deferred := false), rules, items, sources, sides)
  {
    if items != [] {
      var path, source := items[0].targetPath, Lookup(sources, items[0].sourcePath);
      var s := At(sides, path);
      var screened := Screened(rules, items[0], source);
      if screened.verdict.Copying? {
        DeferredRounds(w, path, source.value, Compared(screened, source.value, Look(w, s)), s, 1, rules.retries + 1);
      }
      var first := Alone(w.(deferred := true), rules, items[0], source, s);
      DeferredIsEager(w, rules, items[1..], sources, sides[path := first.1]);
    }
  }

  // ---------------------------------------------------------------- the run's answer

  function Times(counts: map<Verdict, nat>, v: Verdict): nat {
    if v in counts then counts[v] else 0
  }

  function VerdictsOf(outcomes: seq<Outcome>): seq<Verdict> {
    seq(|outcomes|, i requires 0 <= i < |outcomes| => outcomes[i].verdict)
  }

  ghost predicate AllProven(outcomes: seq<Outcome>) {
    forall i :: 0 <= i < |outcomes| ==> outcomes[i].verdict in {Match, Copied, Recopied}
  }

  lemma ProvenNext(outcomes: seq<Outcome>, i: nat)
    requires i < |outcomes|
    ensures AllProven(outcomes[..i + 1]) <==> AllProven(outcomes[..i]) && Proven(outcomes[i].verdict)
  {
    TakeNext(outcomes, i);
    assert outcomes[..i + 1][i] == outcomes[i];
    assert forall k :: 0 <= k < i ==> outcomes[..i + 1][k] == outcomes[..i][k];
  }

  /** How often each verdict fell, and whether every file is proven - which no file at all also is. */
  method Summarize(outcomes: seq<Outcome>) returns (counts: map<Verdict, nat>, unproven: nat)
    ensures forall v :: (if v in counts then counts[v] else 0) == Count(VerdictsOf(outcomes), v)
    ensures unproven == 0 <==> AllProven(outcomes)
  {
    counts, unproven := map[], 0;
    ghost var verdicts := VerdictsOf(outcomes);
    for i := 0 to |outcomes|
      invariant forall v :: Times(counts, v) == Count(verdicts[..i], v)
      invariant unproven == 0 <==> AllProven(outcomes[..i])
    {
      var v, was := outcomes[i].verdict, counts;
      counts := counts[v := Times(counts, v) + 1];
      forall x ensures Times(counts, x) == Count(verdicts[..i + 1], x) {
        CountNext(verdicts, i, x);
        assert Times(was, x) == Count(verdicts[..i], x);
      }
      ProvenNext(outcomes, i);
      if !Proven(v) {
        unproven := unproven + 1;
      }
    }
    assert verdicts[..|outcomes|] == verdicts && outcomes[..|outcomes|] == outcomes;
  }

  // ---------------------------------------------------------------- files already on the target

  /** These are hashed through one member of a directory, so their recorded size is not the reading's. */
  predicate HashedByMember(fileType: string) {
    Lower(fileType) in {"full_base", "incr_base"}
  }

  /** What the target holds is what the file's backup recorded. */
  predicate Confirmed(item: FileToCopy, found: Option<Reading>) {
    SameBytes(found, item.recorded, if HashedByMember(item.fileType) then None else item.recordedSize)
  }

  /** The catalog's word, exactly: the target reads like what the backup recorded, the size left out for a base
      backup. */
  lemma ConfirmedExactly(item: FileToCopy, found: Option<Reading>)
    ensures Confirmed(item, found) <==>
      && found.Some? && item.recorded.Some?
      && var base := SameButCase(item.fileType, "FULL_BASE") || SameButCase(item.fileType, "INCR_BASE");
         ReadAlike(found.value, Reading(item.recorded.value, if base then None else item.recordedSize))
  {
    LowerFolds(item.fileType, "FULL_BASE");
    LowerFolds(item.fileType, "INCR_BASE");
    assert Lower("FULL_BASE") == "full_base" && Lower("INCR_BASE") == "incr_base";
    SameBytesExactly(found, item.recorded, if HashedByMember(item.fileType) then None else item.recordedSize);
  }

  predicate Checkable(item: FileToCopy) {
    item.recorded.Some? && item.recorded.value != ""
  }

  function ConfirmedOutcome(found: Reading): Outcome {
    Outcome(Match, None, Some(found.sha), Some(found.sha), [])
  }

  /** Which items the catalog holds a checksum for, and their paths. */
  method CheckableOf(items: seq<FileToCopy>) returns (checkable: seq<nat>, paths: seq<string>, unsure: set<nat>)
    ensures Ascending(checkable) && |paths| == |checkable|
    ensures forall k :: 0 <= k < |paths| ==> checkable[k] < |items| && paths[k] == items[checkable[k]].targetPath
    ensures forall i :: 0 <= i < |items| ==> (i in checkable <==> Checkable(items[i]))
    ensures forall i: nat :: i in unsure <==> i < |items| && !Checkable(items[i])
  {
    checkable, paths, unsure := [], [], {};
    for i := 0 to |items|
      invariant Ascending(checkable) && |paths| == |checkable|
      invariant forall k :: 0 <= k < |paths| ==> checkable[k] < i && paths[k] == items[checkable[k]].targetPath
      invariant forall k :: 0 <= k < i ==> (k in checkable <==> Checkable(items[k]))
      invariant forall k: nat :: k in unsure <==> k < i && !Checkable(items[k])
    {
      if Checkable(items[i]) {
        paths, checkable := paths + [items[i].targetPath], checkable + [i];
      } else {
        assert i !in checkable;
        unsure := unsure + {i};
      }
    }
  }

  predicate ConfirmedAt(items: seq<FileToCopy>, found: map<string, Reading>, i: nat)
    requires i < |items|
  {
    Confirmed(items[i], Lookup(found, items[i].targetPath))
  }

  const UNDECIDED := Outcome(Copying, None, None, None, [])

  /** The hashes read, held to the recorded checksums one by one. */
  method ConfirmEach(items: seq<FileToCopy>, found: map<string, Reading>, checkable: seq<nat>, unchecked: set<nat>)
    returns (outcomes: seq<Outcome>, unsure: set<nat>)
    requires forall k :: 0 <= k < |checkable| ==> checkable[k] < |items|
    ensures |outcomes| == |items|
    ensures forall i :: 0 <= i < |items| && i in checkable && ConfirmedAt(items, found, i) ==>
      outcomes[i] == ConfirmedOutcome(Lookup(found, items[i].targetPath).value)
    ensures forall i :: 0 <= i < |items| && !(i in checkable && ConfirmedAt(items, found, i)) ==>
      outcomes[i] == UNDECIDED
    ensures forall i: nat :: i in unsure <==>
      i in unchecked || (i < |items| && i in checkable && !ConfirmedAt(items, found, i))
  {
    outcomes, unsure := seq(|items|, i => UNDECIDED), unchecked;
    for k := 0 to |checkable|
      invariant |outcomes| == |items|
      invariant forall i :: 0 <= i < |items| && i in checkable[..k] && ConfirmedAt(items, found, i) ==>
        outcomes[i] == ConfirmedOutcome(Lookup(found, items[i].targetPath).value)
      invariant forall i :: 0 <= i < |items| && !(i in checkable[..k] && ConfirmedAt(items, found, i)) ==>
        outcomes[i] == UNDECIDED
      invariant forall i: nat :: i in unsure <==>
        i in unchecked || (i < |items| && i in checkable[..k] && !ConfirmedAt(items, found, i))
    {
      var i := checkable[k];
      TakeNext(checkable, k);
      if ConfirmedAt(items, found, i) {
        outcomes := outcomes[i := ConfirmedOutcome(Lookup(found, items[i].targetPath).value)];
      } else {
        unsure := unsure + {i};
      }
    }
    assert checkable[..|checkable|] == checkable;
  }

  /** The places still to copy and the files proven against the catalog part the items between them. */
  method ConfirmOnTarget(items: seq<FileToCopy>, target: TargetHost)
    returns (outcomes: seq<Outcome>, remaining: seq<nat>)
    requires target.queue == []
    modifies target`sides, target`queue
    ensures target.sides == old(target.sides) && target.queue == []
    ensures |outcomes| == |items| && Ascending(remaining)
    ensures forall i :: i in remaining ==> i < |items|
    ensures forall i :: 0 <= i < |items| ==>
      var found := Look(target.wire, At(target.sides, items[i].targetPath));
      && (i in remaining <==> !Confirmed(items[i], found))
      && (i !in remaining ==> outcomes[i] == Outcome(Match, None, Some(found.value.sha), Some(found.value.sha), []))
      && (i in remaining ==> outcomes[i].verdict.Copying?)
  {
    var checkable: seq<nat>, paths: seq<string>, unsure: set<nat> := CheckableOf(items);
    var found := target.HashTargets(paths);
    outcomes, unsure := ConfirmEach(items, found, checkable, unsure);
    remaining := SortedSet(unsure);
    forall i | 0 <= i < |items| && i in checkable
      ensures Lookup(found, items[i].targetPath) == Look(target.wire, At(target.sides, items[i].targetPath))
    {
      var k :| 0 <= k < |checkable| && checkable[k] == i;
      assert paths[k] in paths;
    }
  }
}

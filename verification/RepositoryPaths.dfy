/** Where a file's copy lies on the repository, and the way back: which repository folder holds the copies
    of a folder on the server. */
module RepositoryPaths {
  import opened Basics

  function RStrip(s: string): (r: string)
    ensures |r| <= |s| && r == s[..|r|]
    ensures r != "" ==> r[|r| - 1] != '/'
    ensures s != "" && s[|s| - 1] != '/' ==> r == s
    decreases |s|
  {
    if s != "" && s[|s| - 1] == '/' then RStrip(s[..|s| - 1]) else s
  }

  function Norm(s: string): string {
    RStrip(Slashes(s))
  }

  predicate IsWindows(path: string) {
    '\\' in path || (|path| > 1 && path[1] == ':')
  }

  /** The file's path under `root`; "" when it is not under it. A Windows path compares without case. */
  function Relative(file: string, root: string): string {
    var path, base := Norm(file), Norm(root);
    var fold := IsWindows(file);
    if base == "" then ""
    else if StartsWith(if fold then Lower(path) else path, (if fold then Lower(base) else base) + "/")
    then path[|base| + 1..]
    else ""
  }

  /** posixpath.join of two parts: an absolute second part replaces the first. */
  function PosixJoin(a: string, b: string): string {
    if StartsWith(b, "/") then b
    else if a == "" || a[|a| - 1] == '/' then a + b
    else a + "/" + b
  }

  /** A catalogued file: its path as the backup names it and as its host does, and what names it otherwise. */
  datatype File = File(path: string, hostPath: string, database: string, fileType: string, name: string)

  datatype Entry = Entry(folder: string, serverId: string, backupDir: string)

  function CopyRoot(entry: Entry): string {
    PosixJoin(RStrip(entry.folder), entry.serverId)
  }

  /** Where the file lies below its server's folder: its path below the backup folder, or its database's folder. */
  function Place(entry: Entry, f: File): string {
    var relative := Relative(f.path, entry.backupDir);
    var group := if f.database != "" then f.database else if f.fileType != "" then f.fileType else "files";
    if relative == "" then group + "/" + f.name else relative
  }

  function RepositoryPath(entry: Entry, f: File): string {
    PosixJoin(CopyRoot(entry), Place(entry, f))
  }

  // ---------------------------------------------------------------- the mapping, letter by letter

  /** A text without the slashes at its end. */
  ghost predicate Stripped(s: string, r: string) {
    && |r| <= |s| && s[..|r|] == r && (forall i :: |r| <= i < |s| ==> s[i] == '/')
    && (r != "" ==> r[|r| - 1] != '/')
  }

  /** A path spelled with slashes, and without those at its end. */
  ghost predicate Spelled(s: string, r: string) {
    && |r| <= |s| && (forall i :: 0 <= i < |r| ==> r[i] == if s[i] == '\\' then '/' else s[i])
    && (forall i :: |r| <= i < |s| ==> s[i] == '/' || s[i] == '\\')
    && (r != "" ==> r[|r| - 1] != '/')
  }

  lemma {:induction false} StrippedIs(s: string, r: string)
    requires Stripped(s, r)
    ensures r == RStrip(s)
    decreases |s|
  {
    if s != "" && s[|s| - 1] == '/' {
      assert |r| < |s| && s[..|s| - 1][..|r|] == r;
      StrippedIs(s[..|s| - 1], r);
    } else {
      assert s[..|s|] == s;
    }
  }

  lemma SpelledIs(s: string, r: string)
    requires Spelled(s, r)
    ensures r == Norm(s)
  {
    StrippedIs(Slashes(s), r);
  }

  /** The path lies below the root, a Windows path in any case. */
  ghost predicate Below(path: string, root: string, windows: bool) {
    && root != "" && |root| < |path| && path[|root|] == '/'
    && if windows then SameButCase(path[..|root|], root) else path[..|root|] == root
  }

  /** A file below the backup folder is placed by what follows that folder in its path; any other by its database,
      else its type, else "files", and its name. */
  lemma PlaceExactly(entry: Entry, f: File, path: string, root: string)
    requires Spelled(f.path, path) && Spelled(entry.backupDir, root)
    ensures Place(entry, f) ==
      if Below(path, root, '\\' in f.path || (|f.path| > 1 && f.path[1] == ':')) then path[|root| + 1..]
      else if f.database != "" then f.database + "/" + f.name
      else if f.fileType != "" then f.fileType + "/" + f.name
      else "files" + "/" + f.name
  {
    SpelledIs(f.path, path);
    SpelledIs(entry.backupDir, root);
    BelowExactly(path, root);
    if |root| + 1 == |path| { assert path[|path| - 1] != '/'; }
  }

  lemma BelowExactly(path: string, root: string)
    ensures root != "" ==>
      && (Below(path, root, false) <==> StartsWith(path, root + "/"))
      && (Below(path, root, true) <==> StartsWith(Lower(path), Lower(root) + "/"))
  {
    var n := |root|;
    if n < |path| {
      LowerFolds(path[..n], root);
      assert Lower(path)[..n] == Lower(path[..n]);
      assert path[..n + 1] == path[..n] + [path[n]];
      assert Lower(path)[..n + 1] == Lower(path[..n]) + [LowerChar(path[n])];
      assert LowerChar(path[n]) == '/' <==> path[n] == '/';
    }
    assert (root + "/")[..n] == root && (root + "/")[n] == '/';
    assert (Lower(root) + "/")[..n] == Lower(root) && (Lower(root) + "/")[n] == '/';
  }

  /** The copy lies at its place in the server's folder, the one its id names under the repository's; an absolute
      place, or an absolute id, is a path of its own. */
  lemma CopyPathExactly(entry: Entry, f: File, folder: string)
    requires Stripped(entry.folder, folder)
    ensures var id, place := entry.serverId, Place(entry, f);
      var root := if folder == "" || (id != "" && id[0] == '/') then id else folder + "/" + id;
      RepositoryPath(entry, f) ==
        if place[0] == '/' then place
        else if root == "" || root[|root| - 1] == '/' then root + place
        else root + "/" + place
  {
    StrippedIs(entry.folder, folder);
  }

  // ---------------------------------------------------------------- one copy, one file

  predicate UnderBackupDir(entry: Entry, f: File) {
    Relative(f.path, entry.backupDir) != ""
  }

  /** Of two places one carries a doubled slash, and so is a path of its own - that of the other's copy. */
  predicate Crosses(entry: Entry, x: string, y: string) {
    var root := CopyRoot(entry);
    StartsWith(x, "/") && !StartsWith(y, "/")
      && x == (if root == "" || root[|root| - 1] == '/' then root + y else root + "/" + y)
  }

  /** Two files have one copy path exactly when they have one place, or one place is the path of the other's copy. */
  lemma OneCopyPerFile(entry: Entry, a: File, b: File)
    ensures RepositoryPath(entry, a) == RepositoryPath(entry, b) <==>
      var x, y := Place(entry, a), Place(entry, b); x == y || Crosses(entry, x, y) || Crosses(entry, y, x)
  {
    var root, x, y := CopyRoot(entry), Place(entry, a), Place(entry, b);
    var glue := if root == "" || root[|root| - 1] == '/' then root else root + "/";
    assert !StartsWith(x, "/") ==> RepositoryPath(entry, a) == glue + x;
    assert !StartsWith(y, "/") ==> RepositoryPath(entry, b) == glue + y;
    assert (glue + x)[|glue|..] == x && (glue + y)[|glue|..] == y;
  }

  /** Below the backup folder one place is one spelling from there on: up to slashes, trailing slashes and, for
      Windows, the case of the folder, no two files share it. */
  lemma OnePlacePerFile(entry: Entry, a: File, b: File)
    requires UnderBackupDir(entry, a) && UnderBackupDir(entry, b)
    ensures Place(entry, a) == Place(entry, b)
      <==> Norm(a.path)[|Norm(entry.backupDir)|..] == Norm(b.path)[|Norm(entry.backupDir)|..]
  {
    BelowRoot(a.path, entry.backupDir);
    BelowRoot(b.path, entry.backupDir);
    assert ("/" + Place(entry, a))[1..] == Place(entry, a) && ("/" + Place(entry, b))[1..] == Place(entry, b);
  }

  lemma BelowRoot(file: string, root: string)
    requires Relative(file, root) != ""
    ensures |Norm(root)| < |Norm(file)| && Norm(file)[|Norm(root)|..] == "/" + Relative(file, root)
    ensures !IsWindows(file) ==> Norm(file)[..|Norm(root)|] == Norm(root)
  {
    var path, base := Norm(file), Norm(root);
    if IsWindows(file) {
      assert (Lower(base) + "/")[|base|] == '/' && Lower(path)[|base|] == '/';
      assert LowerChar(path[|base|]) == '/';
    } else {
      assert (base + "/")[|base|] == '/' && path[..|base| + 1] == base + "/";
      assert path[..|base|] == path[..|base| + 1][..|base|];
    }
  }

  /** The path spells the backup folder as the entry does, in case too. */
  predicate SpelledAlike(entry: Entry, f: File) {
    UnderBackupDir(entry, f) && StartsWith(Norm(f.path), Norm(entry.backupDir))
  }

  /** On a Linux server, two files have one copy path exactly when their paths differ in slashes alone, or one
      carries a doubled slash that makes it the path of the other's copy. */
  lemma LinuxCopiesAreDistinct(entry: Entry, a: File, b: File)
    requires SpelledAlike(entry, a) && SpelledAlike(entry, b)
    ensures RepositoryPath(entry, a) == RepositoryPath(entry, b) <==>
      || Norm(a.path) == Norm(b.path)
      || Crosses(entry, Place(entry, a), Place(entry, b)) || Crosses(entry, Place(entry, b), Place(entry, a))
  {
    OneCopyPerFile(entry, a, b);
    OnePlacePerFile(entry, a, b);
    FromTheRoot(entry, a);
    FromTheRoot(entry, b);
  }

  lemma FromTheRoot(entry: Entry, f: File)
    requires SpelledAlike(entry, f)
    ensures var base := Norm(entry.backupDir);
      |base| <= |Norm(f.path)| && Norm(f.path) == base + Norm(f.path)[|base|..]
  {
    var path, n := Norm(f.path), |Norm(entry.backupDir)|;
    assert path == path[..n] + path[n..];
  }

  lemma PlacedBelow(entry: Entry, f: File)
    requires CopyRoot(entry) != "" && CopyRoot(entry)[|CopyRoot(entry)| - 1] != '/' && !StartsWith(Place(entry, f), "/")
    ensures RepositoryPath(entry, f) == CopyRoot(entry) + "/" + Place(entry, f)
  {
  }

  // ---------------------------------------------------------------- components

  function Split(s: string): (r: seq<string>)
    ensures r != []
  {
    if s == "" then [""]
    else Onto(s[0], Split(s[1..]))
  }

  function JoinAll(parts: seq<string>): string
    requires parts != []
  {
    if |parts| == 1 then parts[0] else parts[0] + "/" + JoinAll(parts[1..])
  }

  lemma {:induction false} JoinOfSplit(s: string)
    ensures JoinAll(Split(s)) == s
  {
    if s != "" {
      JoinOfSplit(s[1..]);
      var rest := Split(s[1..]);
      assert ([""] + rest)[1..] == rest;
      assert ([[s[0]] + rest[0]] + rest[1..])[1..] == rest[1..];
      assert s == [s[0]] + s[1..];
    }
  }

  lemma {:induction false} JoinOfBoth(a: seq<string>, b: seq<string>)
    requires a != [] && b != []
    ensures JoinAll(a + b) == JoinAll(a) + "/" + JoinAll(b)
  {
    if |a| == 1 {
      assert (a + b)[1..] == b;
    } else {
      JoinOfBoth(a[1..], b);
      assert (a + b)[1..] == a[1..] + b;
      assert a[0] + "/" + (JoinAll(a[1..]) + "/" + JoinAll(b)) == (a[0] + "/" + JoinAll(a[1..])) + "/" + JoinAll(b);
    }
  }

  /** The components of a text that begins with `c` and goes on with `rest`. */
  function Onto(c: char, rest: seq<string>): seq<string>
    requires rest != []
  {
    if c == '/' then [""] + rest else [[c] + rest[0]] + rest[1..]
  }

  lemma OntoBoth(c: char, a: seq<string>, b: seq<string>)
    requires a != []
    ensures Onto(c, a + b) == Onto(c, a) + b
  {
    assert (a + b)[1..] == a[1..] + b;
  }

  lemma {:induction false} SplitOfBoth(a: string, b: string)
    ensures Split(a + "/" + b) == Split(a) + Split(b)
  {
    var s := a + "/" + b;
    if a == "" {
      assert s[0] == '/' && s[1..] == b;
    } else {
      assert s[0] == a[0] && s[1..] == a[1..] + "/" + b;
      SplitOfBoth(a[1..], b);
      OntoBoth(a[0], Split(a[1..]), Split(b));
    }
  }

  /** How many components two paths end in together, leaving each its first. */
  function Common(a: seq<string>, b: seq<string>): nat
    decreases |a|
  {
    if |a| > 1 && |b| > 1 && a[|a| - 1] == b[|b| - 1] then 1 + Common(a[..|a| - 1], b[..|b| - 1]) else 0
  }

  function Ending(parts: seq<string>, n: nat): seq<string>
    requires n <= |parts|
  {
    parts[|parts| - n..]
  }

  lemma {:induction false} CommonAgrees(a: seq<string>, b: seq<string>)
    requires a != [] && b != []
    ensures Common(a, b) < |a| && Common(a, b) < |b|
    ensures Ending(a, Common(a, b)) == Ending(b, Common(a, b))
    decreases |a|
  {
    if |a| > 1 && |b| > 1 && a[|a| - 1] == b[|b| - 1] {
      var a', b' := a[..|a| - 1], b[..|b| - 1];
      CommonAgrees(a', b');
      var c := Common(a', b');
      assert Ending(a, c + 1) == Ending(a', c) + [a[|a| - 1]];
      assert Ending(b, c + 1) == Ending(b', c) + [b[|b| - 1]];
    }
  }

  /** A shared tail counts in full, and then what the heads share. */
  lemma {:induction false} CommonWithTail(a: seq<string>, b: seq<string>, tail: seq<string>)
    requires a != [] && b != []
    ensures Common(a + tail, b + tail) == |tail| + Common(a, b)
  {
    if tail == [] {
      assert a + tail == a && b + tail == b;
    } else {
      var last := |tail| - 1;
      assert (a + tail)[..|a + tail| - 1] == a + tail[..last] && (b + tail)[..|b + tail| - 1] == b + tail[..last];
      CommonWithTail(a, b, tail[..last]);
    }
  }

  // ---------------------------------------------------------------- under its server's folder

  /** The folder a path of components comes to: ".." goes up, "." and doubled slashes go nowhere. */
  function Resolve(parts: seq<string>): seq<string> {
    if parts == [] then [] else
      var before, p := Resolve(parts[..|parts| - 1]), parts[|parts| - 1];
      if p == "" || p == "." then before
      else if p == ".." then (if before == [] then [] else before[..|before| - 1])
      else before + [p]
  }

  /** Names entered, less folders left. */
  function Depth(parts: seq<string>): int {
    if parts == [] then 0 else
      var p := parts[|parts| - 1];
      Depth(parts[..|parts| - 1]) + (if p == "" || p == "." then 0 else if p == ".." then -1 else 1)
  }

  predicate NeverClimbsOut(parts: seq<string>) {
    forall n :: 0 <= n <= |parts| ==> Depth(parts[..n]) >= 0
  }

  /** The path goes through the folder and on every step after it stays inside. */
  predicate LiesUnder(path: string, folder: string) {
    var p, f := Split(path), Split(folder);
    f <= p && forall n :: |f| <= n <= |p| ==> Resolve(f) <= Resolve(p[..n])
  }

  lemma {:induction false} WayBelow(root: seq<string>, rel: seq<string>)
    requires NeverClimbsOut(rel)
    ensures Resolve(root) <= Resolve(root + rel) && |Resolve(root + rel)| == |Resolve(root)| + Depth(rel)
  {
    if rel == [] {
      assert root + rel == root;
    } else {
      var before, p := rel[..|rel| - 1], rel[|rel| - 1];
      forall n | 0 <= n <= |before| ensures Depth(before[..n]) >= 0 { assert before[..n] == rel[..n]; }
      WayBelow(root, before);
      assert (root + rel)[..|root + rel| - 1] == root + before && (root + rel)[|root + rel| - 1] == p;
      assert rel[..|rel|] == rel;
      assert Depth(rel) >= 0;
    }
  }

  /** The first step that leaves: up to it the way stayed inside, and there it stands one folder above. */
  lemma {:induction false} LeavesSomewhere(root: seq<string>, rel: seq<string>) returns (n: nat)
    requires Resolve(root) != [] && !NeverClimbsOut(rel)
    ensures n <= |rel| && !(Resolve(root) <= Resolve(root + rel[..n]))
  {
    var out :| 0 <= out <= |rel| && Depth(rel[..out]) < 0;
    n := 0;
    while Depth(rel[..n]) >= 0
      invariant n <= out && forall m :: 0 <= m < n ==> Depth(rel[..m]) >= 0
      decreases out - n
    {
      n := n + 1;
    }
    FirstStepOut(root, rel, n);
  }

  lemma FirstStepOut(root: seq<string>, rel: seq<string>, n: nat)
    requires Resolve(root) != [] && 0 < n <= |rel| && Depth(rel[..n]) < 0
    requires forall m :: 0 <= m < n ==> Depth(rel[..m]) >= 0
    ensures !(Resolve(root) <= Resolve(root + rel[..n]))
  {
    var before, way := rel[..n - 1], root + rel[..n];
    assert rel[..n][..n - 1] == before && rel[..n][n - 1] == rel[n - 1];
    forall m | 0 <= m <= |before| ensures Depth(before[..m]) >= 0 { assert before[..m] == rel[..m]; }
    WayBelow(root, before);
    assert Depth(before) == 0 && rel[n - 1] == "..";
    assert way[..|way| - 1] == root + before && way[|way| - 1] == "..";
  }

  /** A copy lies under its server's folder, at its end and all along its way, exactly when its place never climbs out -
      or, for a place with a doubled slash, which is a path of its own, when that path goes through the folder and never
      climbs out from there. A plain place, with neither, always lies there. */
  lemma CopyLiesUnderItsServer(entry: Entry, f: File)
    requires CopyRoot(entry) != "" && CopyRoot(entry)[|CopyRoot(entry)| - 1] != '/'
    requires Resolve(Split(CopyRoot(entry))) != []
    ensures LiesUnder(RepositoryPath(entry, f), CopyRoot(entry)) <==>
      var place, root := Place(entry, f), Split(CopyRoot(entry));
      if StartsWith(place, "/") then root <= Split(place) && NeverClimbsOut(Split(place)[|root|..])
      else NeverClimbsOut(Split(place))
    ensures !StartsWith(Place(entry, f), "/") && ".." !in Split(Place(entry, f)) ==>
      LiesUnder(RepositoryPath(entry, f), CopyRoot(entry))
  {
    var root, place := CopyRoot(entry), Place(entry, f);
    if StartsWith(place, "/") {
      if Split(root) <= Split(place) {
        var rest := Split(place)[|Split(root)|..];
        assert Split(place) == Split(root) + rest;
        StaysExactly(Split(root), rest);
      }
    } else {
      PlacedBelow(entry, f);
      SplitOfBoth(root, place);
      StaysExactly(Split(root), Split(place));
      if ".." !in Split(place) { PlainNamesStay(Split(place)); }
    }
  }

  lemma StaysExactly(root: seq<string>, rel: seq<string>)
    requires Resolve(root) != []
    ensures (forall n :: |root| <= n <= |root + rel| ==> Resolve(root) <= Resolve((root + rel)[..n])) <==>
      NeverClimbsOut(rel)
  {
    if NeverClimbsOut(rel) {
      forall n | |root| <= n <= |root + rel| ensures Resolve(root) <= Resolve((root + rel)[..n]) {
        var part := rel[..n - |root|];
        forall m | 0 <= m <= |part| ensures Depth(part[..m]) >= 0 { assert part[..m] == rel[..m]; }
        WayBelow(root, part);
        assert (root + rel)[..n] == root + part;
      }
    } else {
      var n := LeavesSomewhere(root, rel);
      assert (root + rel)[..|root| + n] == root + rel[..n];
      assert !(Resolve(root) <= Resolve((root + rel)[..|root| + n]));
    }
  }

  /** A place without ".." never climbs out. */
  lemma {:induction false} PlainNamesStay(parts: seq<string>)
    requires ".." !in parts
    ensures NeverClimbsOut(parts)
  {
    forall n | 0 <= n <= |parts| ensures Depth(parts[..n]) >= 0 { NeverBelow(parts[..n]); }
  }

  lemma {:induction false} NeverBelow(parts: seq<string>)
    requires ".." !in parts
    ensures Depth(parts) >= 0
  {
    if parts != [] { NeverBelow(parts[..|parts| - 1]); }
  }

  const ENTRY := Entry("/repo", "S", "/bk")

  function Named(path: string, name: string): File {
    File(path, "", "", "", name)
  }

  /** Where it fails: a doubled slash after the backup folder sends the copy outside its server's folder or onto
      another file's copy, ".." leads out of it, and a backslash inside a Linux file name is read as a folder. */
  lemma WhereTheMappingFails()
    ensures RepositoryPath(ENTRY, Named("/bk//x", "x")) == "/x"
    ensures RepositoryPath(ENTRY, Named("/bk//repo/S/x", "x")) == RepositoryPath(ENTRY, Named("/bk/x", "x"))
    ensures RepositoryPath(ENTRY, Named("/bk/../x", "x")) == "/repo/S/../x"
    ensures RepositoryPath(ENTRY, Named("/bk/a\\b", "b")) == RepositoryPath(ENTRY, Named("/bk/a/b", "b"))
  {
    SlashLeaves();
    SlashCollides();
    DotsClimb();
    BackslashIsAFolder();
  }

  lemma SlashLeaves()
    ensures RepositoryPath(ENTRY, Named("/bk//x", "x")) == "/x"
  {
    assert "/bk/" + "/x" == "/bk//x";
    LinuxRelative("/x");
    CopyAt("/bk//x", "/x", "x");
  }

  lemma SlashCollides()
    ensures RepositoryPath(ENTRY, Named("/bk//repo/S/x", "x")) == RepositoryPath(ENTRY, Named("/bk/x", "x"))
  {
    assert "/bk/" + "/repo/S/x" == "/bk//repo/S/x" && "/bk/" + "x" == "/bk/x";
    LinuxRelative("/repo/S/x");
    LinuxRelative("x");
    CopyAt("/bk//repo/S/x", "/repo/S/x", "x");
    CopyAt("/bk/x", "x", "x");
    assert "/repo/S/" + "x" == "/repo/S/x";
  }

  lemma DotsClimb()
    ensures RepositoryPath(ENTRY, Named("/bk/../x", "x")) == "/repo/S/../x"
  {
    assert "/bk/" + "../x" == "/bk/../x";
    LinuxRelative("../x");
    CopyAt("/bk/../x", "../x", "x");
    assert "/repo/S/" + "../x" == "/repo/S/../x";
  }

  lemma BackslashIsAFolder()
    ensures RepositoryPath(ENTRY, Named("/bk/a\\b", "b")) == RepositoryPath(ENTRY, Named("/bk/a/b", "b"))
  {
    ReadAsAFolder();
    CopyAt("/bk/a\\b", "a/b", "b");
    CopyAt("/bk/a/b", "a/b", "b");
  }

  lemma CopyAt(path: string, relative: string, name: string)
    requires Relative(path, "/bk") == relative && relative != ""
    ensures RepositoryPath(ENTRY, Named(path, name))
      == if relative[0] == '/' then relative else "/repo/S/" + relative
  {
    assert relative[..1] == [relative[0]] && "/" == ['/'] && "S"[..1] == ['S'];
    assert RStrip("/repo") == "/repo" && PosixJoin("/repo", "S") == "/repo" + "/" + "S";
    assert "/repo" + "/" + "S" == "/repo/S" && "/repo/S" + "/" + relative == "/repo/S/" + relative;
  }

  lemma LinuxRelative(relative: string)
    requires relative != "" && relative[|relative| - 1] != '/' && '\\' !in relative
    ensures Relative("/bk/" + relative, "/bk") == relative
  {
    var path := "/bk/" + relative;
    assert Slashes("/bk") == "/bk" && Slashes(path) == path;
    assert path[|path| - 1] == relative[|relative| - 1];
    assert path[..4] == "/bk" + "/" && path[4..] == relative;
  }

  lemma ReadAsAFolder()
    ensures Relative("/bk/a\\b", "/bk") == "a/b" && Relative("/bk/a/b", "/bk") == "a/b"
  {
    assert Slashes("/bk") == "/bk" && Slashes("/bk/a\\b") == "/bk/a/b" && Slashes("/bk/a/b") == "/bk/a/b";
    assert '\\' == "/bk/a\\b"[5] && IsWindows("/bk/a\\b") && !IsWindows("/bk/a/b");
    assert Lower("/bk") == "/bk" && Lower("/bk/a/b") == "/bk/a/b" && "/bk/a/b"[..4] == "/bk" + "/";
  }

  /** The way up and out: "../x" leaves the server's folder at its first step. */
  lemma ClimbingOut(entry: Entry, f: File)
    requires CopyRoot(entry) != "" && CopyRoot(entry)[|CopyRoot(entry)| - 1] != '/'
    requires Resolve(Split(CopyRoot(entry))) != []
    requires Place(entry, f) == "../x"
    ensures !LiesUnder(RepositoryPath(entry, f), CopyRoot(entry))
  {
    CopyLiesUnderItsServer(entry, f);
    UpAndOut();
  }

  lemma UpAndOut()
    ensures !NeverClimbsOut(Split("../x"))
  {
    assert ".." + "/" + "x" == "../x";
    SplitOfBoth("..", "x");
    SplitName("..");
    assert Split("../x")[..1] == [".."] && [".."][..0] == [];
    assert Depth([".."]) == -1;
  }

  lemma {:induction false} SplitName(name: string)
    requires '/' !in name
    ensures Split(name) == [name]
  {
    if name != "" {
      SplitName(name[1..]);
      assert name == [name[0]] + name[1..];
    }
  }

  // ---------------------------------------------------------------- the way back

  /** A verified copy as the catalog locates it: its file on the server, and on which repository, where. */
  datatype Location = Location(serverId: string, serverPath: string, copyPath: string)

  predicate AtOrBelow(folder: string, root: string) {
    folder == root || StartsWith(folder, root + "/")
  }

  /** The folder is the root, or its name goes on with a slash. */
  ghost predicate Inside(folder: string, root: string) {
    folder == root || (|folder| > |root| && folder[..|root|] == root && folder[|root|] == '/')
  }

  lemma InsideIs(folder: string, root: string)
    ensures Inside(folder, root) <==> AtOrBelow(folder, root)
  {
    if |folder| > |root| { assert folder[..|root| + 1] == folder[..|root|] + [folder[|root|]]; }
    assert (root + "/")[..|root|] == root && (root + "/")[|root|] == '/';
    if StartsWith(folder, root + "/") { assert folder[..|root|] == folder[..|root| + 1][..|root|]; }
  }

  function Cut(parts: seq<string>, common: nat): string
    requires common < |parts|
  {
    RStrip(JoinAll(parts[..|parts| - common]))
  }

  /** What one location says of the wanted folder: the same folder on the repository, translated through what the
      two paths end in together - or nothing, when it lies elsewhere. */
  function Answer(row: Location, want: string): Option<(string, string)> {
    var a, b := Split(Slashes(row.serverPath)), Split(row.copyPath);
    var common := Common(a, b);
    CommonAgrees(a, b);
    if common == 0 then None
    else
      var serverRoot, repoRoot := Cut(a, common), Cut(b, common);
      if AtOrBelow(want, serverRoot) then Some((row.serverId, repoRoot + want[|serverRoot|..])) else None
  }

  datatype Refusal = NoCopies | OfAnotherFolder | InManyPlaces

  function SourceOf(locations: seq<Location>, hostDir: string): Result<(string, string), Refusal> {
    var found := set row | row in locations && Answer(row, Norm(hostDir)).Some? :: Answer(row, Norm(hostDir)).value;
    if locations == [] then Err(NoCopies)
    else if found == {} then Err(OfAnotherFolder)
    else if |found| > 1 then Err(InManyPlaces)
    else
      assert exists x :: x in found && forall y :: y in found ==> y == x by { OnlyElement(found); }
      var only :| only in found && forall y :: y in found ==> y == only;
      Ok(only)
  }

  lemma OnlyElement<T>(s: set<T>)
    requires |s| == 1
    ensures exists x :: x in s && forall y :: y in s ==> y == x
  {
    var x :| x in s;
    assert |s - {x}| == 0;
    assert forall y :: y in s ==> y == x || y in s - {x};
  }

  /** A location that says something of the folder, and what. */
  ghost predicate Says(locations: seq<Location>, hostDir: string, answer: (string, string)) {
    exists row :: row in locations && Answer(row, Norm(hostDir)) == Some(answer)
  }

  /** The one answer of all the locations that have any; refused when there are none, when none has an answer, and
      when two have different ones. */
  lemma SourceExactly(locations: seq<Location>, hostDir: string)
    ensures match SourceOf(locations, hostDir)
      case Ok(x) => Says(locations, hostDir, x) && forall y :: Says(locations, hostDir, y) ==> y == x
      case Err(NoCopies) => locations == []
      case Err(OfAnotherFolder) => locations != [] && forall x :: !Says(locations, hostDir, x)
      case Err(InManyPlaces) => exists x, y :: x != y && Says(locations, hostDir, x) && Says(locations, hostDir, y)
  {
    var found := set row | row in locations && Answer(row, Norm(hostDir)).Some? :: Answer(row, Norm(hostDir)).value;
    forall x ensures x in found <==> Says(locations, hostDir, x) { SaysIs(locations, hostDir, found, x); }
    if |found| > 1 { var x, y := TwoElements(found); }
  }

  lemma SaysIs(locations: seq<Location>, hostDir: string, found: set<(string, string)>, x: (string, string))
    requires found == set row | row in locations && Answer(row, Norm(hostDir)).Some? :: Answer(row, Norm(hostDir)).value
    ensures x in found <==> Says(locations, hostDir, x)
  {
    if x in found {
      var row :| row in locations && Answer(row, Norm(hostDir)).Some? && Answer(row, Norm(hostDir)).value == x;
      assert Answer(row, Norm(hostDir)) == Some(x);
    }
  }

  lemma TwoElements<T>(s: set<T>) returns (x: T, y: T)
    requires |s| > 1
    ensures x in s && y in s && x != y
  {
    x :| x in s;
    assert |s - {x}| == |s| - 1;
    y :| y in s - {x};
  }

  method CommonEnding(a: seq<string>, b: seq<string>) returns (common: nat)
    requires a != [] && b != []
    ensures common == Common(a, b)
    ensures common < |a| && common < |b| && Ending(a, common) == Ending(b, common)
    ensures common + 1 < |a| && common + 1 < |b| ==> a[|a| - 1 - common] != b[|b| - 1 - common]
  {
    CommonAgrees(a, b);
    common := 0;
    assert a[..|a|] == a && b[..|b|] == b;
    while common < (if |a| < |b| then |a| else |b|) - 1 && a[|a| - 1 - common] == b[|b| - 1 - common]
      invariant common < |a| && common < |b|
      invariant common + Common(a[..|a| - common], b[..|b| - common]) == Common(a, b)
    {
      var a', b' := a[..|a| - common], b[..|b| - common];
      common := common + 1;
      assert a'[..|a'| - 1] == a[..|a| - common] && b'[..|b'| - 1] == b[..|b| - common];
    }
  }

  method RepositorySource(locations: seq<Location>, hostDir: string) returns (r: Result<(string, string), Refusal>)
    ensures r == SourceOf(locations, hostDir)
  {
    if locations == [] {
      return Err(NoCopies);
    }
    var want := Norm(hostDir);
    var found: set<(string, string)> := {};
    for k := 0 to |locations|
      invariant found == set row | row in locations[..k] && Answer(row, want).Some? :: Answer(row, want).value
    {
      var row := locations[k];
      TakeNext(locations, k);
      var a, b := Split(Slashes(row.serverPath)), Split(row.copyPath);
      var common := CommonEnding(a, b);
      CommonAgrees(a, b);
      ghost var before := found;
      if common > 0 {
        var serverRoot, repoRoot := Cut(a, common), Cut(b, common);
        if AtOrBelow(want, serverRoot) {
          found := found + {(row.serverId, repoRoot + want[|serverRoot|..])};
        }
      }
      assert found == before + if Answer(row, want).Some? then {Answer(row, want).value} else {};
      FoundNext(locations, k, want);
    }
    assert locations[..|locations|] == locations;
    if found == {} {
      return Err(OfAnotherFolder);
    }
    if |found| > 1 {
      return Err(InManyPlaces);
    }
    OnlyElement(found);
    var only :| only in found && forall y :: y in found ==> y == only;
    r := Ok(only);
  }

  lemma FoundNext(locations: seq<Location>, k: nat, want: string)
    requires k < |locations|
    ensures (set row | row in locations[..k + 1] && Answer(row, want).Some? :: Answer(row, want).value)
         == (set row | row in locations[..k] && Answer(row, want).Some? :: Answer(row, want).value)
          + (if Answer(locations[k], want).Some? then {Answer(locations[k], want).value} else {})
  {
    TakeNext(locations, k);
  }

  /** No empty component after the first: no doubled and no trailing slash. */
  ghost predicate Clean(path: string) {
    forall i :: 0 < i < |Split(path)| ==> Split(path)[i] != ""
  }

  lemma {:induction false} JoinEndsClean(parts: seq<string>)
    requires parts != [] && (forall i :: 0 < i < |parts| ==> parts[i] != "")
    requires forall i :: 0 <= i < |parts| ==> '/' !in parts[i]
    ensures RStrip(JoinAll(parts)) == JoinAll(parts)
  {
    var last := |parts| - 1;
    if last > 0 {
      JoinOfBoth(parts[..last], [parts[last]]);
      assert parts[..last] + [parts[last]] == parts;
      assert parts[last][|parts[last]| - 1] in parts[last];
    } else if parts[0] != "" {
      assert parts[0][|parts[0]| - 1] in parts[0];
    }
  }

  lemma {:induction false} NoSlashInside(s: string)
    ensures forall i :: 0 <= i < |Split(s)| ==> '/' !in Split(s)[i]
  {
    if s != "" { NoSlashInside(s[1..]); }
  }

  /** What the last `e` components of a path add to the part before them. */
  function Above(parts: seq<string>, e: nat): string
    requires e < |parts|
  {
    if e == 0 then "" else "/" + JoinAll(Ending(parts, e))
  }

  lemma JoinCut(parts: seq<string>, e: nat)
    requires e < |parts|
    ensures JoinAll(parts) == JoinAll(parts[..|parts| - e]) + Above(parts, e)
  {
    var head := parts[..|parts| - e];
    if e == 0 {
      assert head == parts && Above(parts, e) == "";
      assert JoinAll(head) + "" == JoinAll(head);
    } else {
      JoinInTwo(parts, |parts| - e);
      assert Above(parts, e) == "/" + JoinAll(parts[|parts| - e..]);
    }
  }

  lemma JoinInTwo(parts: seq<string>, m: nat)
    requires 0 < m < |parts|
    ensures JoinAll(parts) == JoinAll(parts[..m]) + ("/" + JoinAll(parts[m..]))
  {
    JoinOfBoth(parts[..m], parts[m..]);
    assert parts[..m] + parts[m..] == parts;
    Regroup(JoinAll(parts[..m]), JoinAll(parts[m..]));
  }

  lemma Regroup(a: string, b: string)
    ensures a + "/" + b == a + ("/" + b)
  {
  }

  lemma HeadOfBoth(a: seq<string>, b: seq<string>, e: nat)
    requires e < |a|
    ensures |b| + e < |a + b| && (a + b)[..|a + b| - (|b| + e)] == a[..|a| - e]
  {
  }

  lemma RootIsItsHead(root: string, e: nat)
    requires Clean(root) && e < |Split(root)|
    ensures var r := Split(root);
      root == RStrip(JoinAll(r[..|r| - e])) + Above(r, e)
  {
    var r := Split(root);
    NoSlashInside(root);
    JoinEndsClean(r[..|r| - e]);
    JoinOfSplit(root);
    JoinCut(r, e);
  }

  /** A path is the part before the cut, then what was cut off. */
  lemma CutIs(root: string, tail: string, e: nat)
    requires Clean(root) && e < |Split(root)|
    ensures |Split(tail)| + e < |Split(root + "/" + tail)|
    ensures root == Cut(Split(root + "/" + tail), |Split(tail)| + e) + Above(Split(root), e)
  {
    SplitOfBoth(root, tail);
    HeadOfBoth(Split(root), Split(tail), e);
    CutOfBoth(Split(root), Split(tail), e);
    RootIsItsHead(root, e);
  }

  lemma CutOfBoth(a: seq<string>, b: seq<string>, e: nat)
    requires e < |a|
    ensures |b| + e < |a + b| && Cut(a + b, |b| + e) == RStrip(JoinAll(a[..|a| - e]))
  {
    HeadOfBoth(a, b, e);
  }

  lemma Translated(root: string, copyRoot: string, serverRoot: string, repoRoot: string, above: string, sub: string)
    requires root == serverRoot + above && copyRoot == repoRoot + above
    requires (above == "" || above[0] == '/') && (sub == "" || sub[0] == '/')
    ensures AtOrBelow(root + sub, serverRoot) && repoRoot + (root + sub)[|serverRoot|..] == copyRoot + sub
  {
    assert root + sub == serverRoot + (above + sub) && copyRoot + sub == repoRoot + (above + sub);
    assert (root + sub)[|serverRoot|..] == above + sub;
    if above + sub != "" {
      assert (above + sub)[0] == '/';
      assert (root + sub)[..|serverRoot| + 1] == serverRoot + "/";
    }
  }

  /** One file of a mapped folder answers for every folder at or below the server root, and answers the same
      however far the two paths happen to agree above it. */
  lemma AnswerIsTheMappedFolder(row: Location, root: string, copyRoot: string, tail: string, sub: string)
    requires Slashes(row.serverPath) == root + "/" + tail && row.copyPath == copyRoot + "/" + tail
    requires Clean(root) && Clean(copyRoot) && (sub == "" || sub[0] == '/')
    ensures Answer(row, root + sub) == Some((row.serverId, copyRoot + sub))
  {
    var server, repo := Split(root + "/" + tail), Split(copyRoot + "/" + tail);
    var above := CutBoth(root, copyRoot, tail, server, repo);
    assert server == Split(Slashes(row.serverPath)) && repo == Split(row.copyPath);
    Translated(root, copyRoot, Cut(server, Common(server, repo)), Cut(repo, Common(server, repo)), above, sub);
  }

  lemma CutBoth(root: string, copyRoot: string, tail: string, server: seq<string>, repo: seq<string>)
    returns (above: string)
    requires Clean(root) && Clean(copyRoot)
    requires server == Split(root + "/" + tail) && repo == Split(copyRoot + "/" + tail)
    ensures var n := Common(server, repo);
      && 0 < n < |server| && n < |repo| && root == Cut(server, n) + above && copyRoot == Cut(repo, n) + above
      && (above == "" || above[0] == '/')
  {
    var r, c := Split(root), Split(copyRoot);
    var e := Common(r, c);
    assert Common(server, repo) == |Split(tail)| + e by { EndingIs(root, copyRoot, tail); }
    assert e < |r| && e < |c| && Ending(r, e) == Ending(c, e) by { CommonAgrees(r, c); }
    above := CutAlike(root, copyRoot, tail, e);
  }

  lemma CutAlike(root: string, copyRoot: string, tail: string, e: nat) returns (above: string)
    requires Clean(root) && Clean(copyRoot) && e < |Split(root)| && e < |Split(copyRoot)|
    requires Ending(Split(root), e) == Ending(Split(copyRoot), e)
    ensures var n, server, repo := |Split(tail)| + e, Split(root + "/" + tail), Split(copyRoot + "/" + tail);
      && n < |server| && n < |repo| && root == Cut(server, n) + above && copyRoot == Cut(repo, n) + above
      && (above == "" || above[0] == '/') && above == Above(Split(root), e)
  {
    above := Above(Split(root), e);
    SameAbove(Split(root), Split(copyRoot), e);
    CutIs(root, tail, e);
    CutIs(copyRoot, tail, e);
  }

  lemma SameAbove(a: seq<string>, b: seq<string>, e: nat)
    requires e < |a| && e < |b| && Ending(a, e) == Ending(b, e)
    ensures Above(a, e) == Above(b, e) && (Above(a, e) == "" || Above(a, e)[0] == '/')
  {
  }

  lemma EndingIs(root: string, copyRoot: string, tail: string)
    ensures Common(Split(root + "/" + tail), Split(copyRoot + "/" + tail))
         == |Split(tail)| + Common(Split(root), Split(copyRoot))
  {
    SplitOfBoth(root, tail);
    SplitOfBoth(copyRoot, tail);
    CommonWithTail(Split(root), Split(copyRoot), Split(tail));
  }

  /** The round trip: for a folder at or below the backup folder as its host names it, the copies made by the
      mapping are found exactly where the mapping puts that folder. */
  lemma SourceIsWhereTheMappingPuts(locations: seq<Location>, serverId: string, root: string, copyRoot: string,
                                    tails: seq<string>, hostDir: string, sub: string)
    requires |tails| == |locations| > 0 && Clean(root) && Clean(copyRoot)
    requires forall k :: 0 <= k < |locations| ==>
      && locations[k].serverId == serverId && Slashes(locations[k].serverPath) == root + "/" + tails[k]
      && locations[k].copyPath == copyRoot + "/" + tails[k]
    requires Norm(hostDir) == root + sub && (sub == "" || sub[0] == '/')
    ensures SourceOf(locations, hostDir) == Ok((serverId, copyRoot + sub))
  {
    var answer := (serverId, copyRoot + sub);
    forall row | row in locations ensures Answer(row, Norm(hostDir)) == Some(answer) {
      var k :| 0 <= k < |locations| && locations[k] == row;
      AnswerIsTheMappedFolder(row, root, copyRoot, tails[k], sub);
    }
    var found := set row | row in locations && Answer(row, Norm(hostDir)).Some? :: Answer(row, Norm(hostDir)).value;
    assert locations[0] in locations;
    assert found == {answer};
  }

  /** There and back: wherever the mapping put the files of a backup folder, a restore that asks for that folder,
      or one inside it, is sent to the folder holding their copies. */
  lemma MappingAndBack(entry: Entry, files: seq<File>, repositoryId: string, hostRoot: string, hostDir: string,
                       sub: string)
    requires files != [] && CopyRoot(entry) != "" && CopyRoot(entry)[|CopyRoot(entry)| - 1] != '/'
    requires Clean(hostRoot) && Clean(CopyRoot(entry))
    requires forall f :: f in files ==>
      && UnderBackupDir(entry, f) && !StartsWith(Relative(f.path, entry.backupDir), "/")
      && Slashes(f.hostPath) == hostRoot + "/" + Relative(f.path, entry.backupDir)
    requires Norm(hostDir) == hostRoot + sub && (sub == "" || sub[0] == '/')
    ensures SourceOf(Locations(entry, files, repositoryId), hostDir) == Ok((repositoryId, CopyRoot(entry) + sub))
  {
    var locations := Locations(entry, files, repositoryId);
    var tails := seq(|files|, k requires 0 <= k < |files| => Relative(files[k].path, entry.backupDir));
    forall k | 0 <= k < |files|
      ensures Slashes(locations[k].serverPath) == hostRoot + "/" + tails[k]
      ensures locations[k].copyPath == CopyRoot(entry) + "/" + tails[k]
    {
      assert files[k] in files;
      PlacedBelow(entry, files[k]);
    }
    SourceIsWhereTheMappingPuts(locations, repositoryId, hostRoot, CopyRoot(entry), tails, hostDir, sub);
  }

  function Locations(entry: Entry, files: seq<File>, repositoryId: string): seq<Location> {
    seq(|files|,
        k requires 0 <= k < |files| => Location(repositoryId, files[k].hostPath, RepositoryPath(entry, files[k])))
  }

  /** The two roots end in one component, each with more before it. */
  predicate EndAlike(root: string, copyRoot: string) {
    var r, c := Split(root), Split(copyRoot);
    |r| > 1 && |c| > 1 && r[|r| - 1] == c[|c| - 1]
  }

  lemma AnswerByItsCut(row: Location, server: seq<string>, repo: seq<string>, n: nat, want: string)
    requires server == Split(Slashes(row.serverPath)) && repo == Split(row.copyPath) && n == Common(server, repo)
    requires 0 < n < |server|
    ensures Answer(row, want).Some? <==> AtOrBelow(want, Cut(server, n))
  {
  }

  /** The end of the root that the copies' folder ends in too, "" when they do not end alike. */
  function SharedEnding(root: string, copyRoot: string): string {
    CommonAgrees(Split(root), Split(copyRoot));
    Above(Split(root), Common(Split(root), Split(copyRoot)))
  }

  /** Exactly which folders a copy answers for: those at or below the part of its root above what the two roots
      end in together; that is the root itself exactly when they do not end alike. */
  lemma AnswersExactly(row: Location, root: string, copyRoot: string, tail: string, want: string)
    requires Slashes(row.serverPath) == root + "/" + tail && row.copyPath == copyRoot + "/" + tail
    requires Clean(root) && Clean(copyRoot)
    ensures var shared := SharedEnding(root, copyRoot);
      && |shared| <= |root| && (shared != "" <==> EndAlike(root, copyRoot))
      && (Answer(row, want).Some? <==> Inside(want, root[..|root| - |shared|]))
  {
    var server, repo := Split(root + "/" + tail), Split(copyRoot + "/" + tail);
    var n := CutAtTheShared(root, copyRoot, tail, server, repo);
    AnswerByItsCut(row, server, repo, n, want);
    CutEnds(root, Cut(server, n), SharedEnding(root, copyRoot));
    SharedExactly(root, copyRoot);
    InsideIs(want, Cut(server, n));
  }

  lemma SharedExactly(root: string, copyRoot: string)
    ensures SharedEnding(root, copyRoot) != "" <==> EndAlike(root, copyRoot)
  {
    CommonAgrees(Split(root), Split(copyRoot));
  }

  lemma CutAtTheShared(root: string, copyRoot: string, tail: string, server: seq<string>, repo: seq<string>)
    returns (n: nat)
    requires Clean(root) && Clean(copyRoot)
    requires server == Split(root + "/" + tail) && repo == Split(copyRoot + "/" + tail)
    ensures n == Common(server, repo) && 0 < n < |server| && root == Cut(server, n) + SharedEnding(root, copyRoot)
  {
    var e := Common(Split(root), Split(copyRoot));
    n := |Split(tail)| + e;
    assert Common(server, repo) == n by { EndingIs(root, copyRoot, tail); }
    assert e < |Split(root)| && e < |Split(copyRoot)| && Ending(Split(root), e) == Ending(Split(copyRoot), e) by {
      CommonAgrees(Split(root), Split(copyRoot));
    }
    var above := CutAlike(root, copyRoot, tail, e);
  }

  lemma CutEnds(root: string, cut: string, above: string)
    requires root == cut + above
    ensures |above| <= |root| && root[..|root| - |above|] == cut
  {
  }

  /** Some folder that is not at or below the backup folder is answered for exactly when the backup folder and the
      copies' folder end alike - which the entry alone tells. */
  lemma BesideExactly(row: Location, root: string, copyRoot: string, tail: string)
    requires Slashes(row.serverPath) == root + "/" + tail && row.copyPath == copyRoot + "/" + tail
    requires Clean(root) && Clean(copyRoot)
    ensures (exists want :: !Inside(want, root) && Answer(row, want).Some?) <==> EndAlike(root, copyRoot)
  {
    var shared := SharedEnding(root, copyRoot);
    AnswersExactly(row, root, copyRoot, tail, root);
    if EndAlike(root, copyRoot) {
      var want := root[..|root| - |shared|];
      AnswersExactly(row, root, copyRoot, tail, want);
      assert !Inside(want, root) && Answer(row, want).Some?;
    } else {
      assert root[..|root| - |shared|] == root;
      forall want ensures Answer(row, want).Some? ==> Inside(want, root) {
        AnswersExactly(row, root, copyRoot, tail, want);
      }
    }
  }

  /** A family of them: when an entry's backup folder and its copy folder end in the same name, a copy of that
      entry answers for every folder beside it as well - so a server with two repositories can be refused
      although the copies of the folder asked for are all in one. */
  lemma AFolderBesideItAnswersToo(id: string, parent: string, copyParent: string, shared: string, file: string,
                                  beside: string)
    requires Clean(parent) && Clean(copyParent)
    requires var row := Location(id, parent + "/" + (shared + "/" + file), copyParent + "/" + (shared + "/" + file));
      Slashes(row.serverPath) == row.serverPath
    ensures Answer(Location(id, parent + "/" + (shared + "/" + file), copyParent + "/" + (shared + "/" + file)),
        parent + ("/" + beside))
      == Some((id, copyParent + ("/" + beside)))
  {
    AnswerIsTheMappedFolder(Location(id, parent + "/" + (shared + "/" + file),
        copyParent + "/" + (shared + "/" + file)),
                            parent, copyParent, shared + "/" + file, "/" + beside);
  }
}

/** Small vocabulary shared by the models: optional values, results, ordered sets and text. */
module Basics {

  datatype Option<+T> = None | Some(value: T)

  datatype Result<+T, +E> = Ok(value: T) | Err(error: E)

  /** No two places of the sequence hold the same value. */
  ghost predicate NoDuplicates<T>(s: seq<T>) {
    forall i, j :: 0 <= i < j < |s| ==> s[i] != s[j]
  }

  ghost predicate Ascending(s: seq<nat>) {
    forall i, j :: 0 <= i < j < |s| ==> s[i] < s[j]
  }

  lemma AscendingLast(s: seq<nat>, x: nat)
    requires Ascending(s) && x in s
    ensures x <= s[|s| - 1]
  {
  }

  lemma TakeNext<T>(s: seq<T>, i: nat)
    requires i < |s|
    ensures s[..i + 1] == s[..i] + [s[i]] && s[..|s|] == s
  {
  }

  /** How often `x` occurs. */
  ghost function Count<T>(s: seq<T>, x: T): nat {
    multiset(s)[x]
  }

  lemma CountAppend<T>(a: seq<T>, b: seq<T>, x: T)
    ensures Count(a + b, x) == Count(a, x) + Count(b, x)
  {
    assert multiset(a + b) == multiset(a) + multiset(b);
  }

  lemma CountNext<T>(s: seq<T>, i: nat, x: T)
    requires i < |s|
    ensures Count(s[..i + 1], x) == Count(s[..i], x) + if s[i] == x then 1 else 0
  {
    TakeNext(s, i);
    CountAppend(s[..i], [s[i]], x);
  }

  lemma CountPositive<T>(s: seq<T>, x: T)
    ensures Count(s, x) > 0 <==> x in s
  {
  }

  lemma {:induction false} CountOnce<T>(s: seq<T>)
    ensures NoDuplicates(s) <==> forall x :: Count(s, x) <= 1
  {
    if s != [] {
      var rest, last := s[..|s| - 1], s[|s| - 1];
      CountOnce(rest);
      assert s == rest + [last];
      forall x ensures Count(s, x) == Count(rest, x) + if x == last then 1 else 0 { CountAppend(rest, [last], x); }
      CountPositive(rest, last);
      if NoDuplicates(s) {
        forall i, j | 0 <= i < j < |rest| ensures rest[i] != rest[j] { assert s[i] != s[j]; }
        assert forall i :: 0 <= i < |rest| ==> rest[i] == s[i] != last;
        assert last !in rest;
      } else {
        var i, j :| 0 <= i < j < |s| && s[i] == s[j];
        if j < |rest| {
          assert rest[i] == rest[j];
          assert !NoDuplicates(rest);
        } else {
          assert rest[i] == last;
        }
      }
    }
  }

  /** `part` keeps exactly the entries of `whole` that satisfy `keep`, each as often as it occurs there. */
  ghost predicate Sifted<T(!new)>(part: seq<T>, whole: seq<T>, keep: T -> bool) {
    forall x :: Count(part, x) == if keep(x) then Count(whole, x) else 0
  }

  lemma SiftedNext<T(!new)>(part: seq<T>, whole: seq<T>, i: nat, keep: T -> bool)
    requires i < |whole| && Sifted(part, whole[..i], keep)
    ensures Sifted(if keep(whole[i]) then part + [whole[i]] else part, whole[..i + 1], keep)
  {
    assert whole[..i + 1] == whole[..i] + [whole[i]];
    var next := if keep(whole[i]) then part + [whole[i]] else part;
    forall x ensures Count(next, x) == if keep(x) then Count(whole[..i + 1], x) else 0 {
      CountAppend(whole[..i], [whole[i]], x);
      CountAppend(part, [whole[i]], x);
    }
  }

  lemma SiftedBoth<T(!new)>(a: seq<T>, b: seq<T>, whole: seq<T>, p: T -> bool, q: T -> bool, either: T -> bool)
    requires Sifted(a, whole, p) && Sifted(b, whole, q)
    requires forall x :: !(p(x) && q(x)) && (either(x) <==> p(x) || q(x))
    ensures Sifted(a + b, whole, either)
  {
    forall x { CountAppend(a, b, x); }
  }

  lemma SiftedTwice<T(!new)>(part: seq<T>, middle: seq<T>, whole: seq<T>, p: T -> bool, q: T -> bool, both: T -> bool)
    requires Sifted(part, middle, q) && Sifted(middle, whole, p)
    requires forall x :: both(x) <==> p(x) && q(x)
    ensures Sifted(part, whole, both)
  {
  }

  lemma SiftedHas<T(!new)>(part: seq<T>, whole: seq<T>, keep: T -> bool, x: T)
    requires Sifted(part, whole, keep)
    ensures x in part <==> x in whole && keep(x)
  {
    assert Count(part, x) == if keep(x) then Count(whole, x) else 0;
  }

  /** ASCII lower case, as the checksums and folder names here are compared. */
  function LowerChar(c: char): char {
    if 'A' <= c <= 'Z' then c - 'A' + 'a' else c
  }

  /** A path with every backslash a slash. */
  function Slashes(s: string): string {
    seq(|s|, i requires 0 <= i < |s| => if s[i] == '\\' then '/' else s[i])
  }

  function Lower(s: string): string {
    seq(|s|, i requires 0 <= i < |s| => LowerChar(s[i]))
  }

  /** Letter by letter the same, but for the case of the letters A to Z. */
  ghost predicate SameButCase(a: string, b: string) {
    |a| == |b| && forall i :: 0 <= i < |a| ==>
      || a[i] == b[i]
      || ('A' <= a[i] <= 'Z' && b[i] as int == a[i] as int + 32)
      || ('A' <= b[i] <= 'Z' && a[i] as int == b[i] as int + 32)
  }

  lemma LowerFolds(a: string, b: string)
    ensures Lower(a) == Lower(b) <==> SameButCase(a, b)
  {
    if Lower(a) == Lower(b) {
      assert |a| == |Lower(a)| && |b| == |Lower(b)|;
      forall i | 0 <= i < |a| ensures LowerChar(a[i]) == LowerChar(b[i]) {
        assert Lower(a)[i] == LowerChar(a[i]) && Lower(b)[i] == LowerChar(b[i]);
      }
    }
  }

  predicate StartsWith(s: string, prefix: string) {
    |prefix| <= |s| && s[..|prefix|] == prefix
  }

  predicate EndsWith(s: string, suffix: string) {
    |suffix| <= |s| && s[|s| - |suffix|..] == suffix
  }

  lemma {:induction false} MaximumExists(s: set<nat>) returns (m: nat)
    requires s != {}
    ensures m in s && forall x :: x in s ==> x <= m
  {
    var x0 :| x0 in s;
    m := x0;
    var rest := s - {m};
    assert forall x :: x in s ==> x == x0 || x in rest;
    if rest != {} {
      var n := MaximumExists(rest);
      m := if m <= n then n else m;
    }
  }

  lemma {:induction false} MinimumExists(s: set<nat>) returns (m: nat)
    requires s != {}
    ensures m in s && forall x :: x in s ==> m <= x
  {
    var x0 :| x0 in s;
    m := x0;
    var rest := s - {m};
    assert forall x :: x in s ==> x == x0 || x in rest;
    if rest != {} {
      var n := MinimumExists(rest);
      m := if m <= n then m else n;
    }
  }

  /** The largest element, None of an empty set. */
  function Maximum(s: set<nat>): (m: Option<nat>)
    ensures m.None? <==> s == {}
    ensures m.Some? ==> m.value in s && forall x :: x in s ==> x <= m.value
  {
    if s == {} then None else
      assert exists m :: m in s && forall x :: x in s ==> x <= m by { var m := MaximumExists(s); }
      var m :| m in s && forall x :: x in s ==> x <= m;
      Some(m)
  }

  /** A set's elements, smallest first. */
  method SortedSet(s: set<nat>) returns (r: seq<nat>)
    ensures Ascending(r)
    ensures forall x :: x in r <==> x in s
  {
    var rest := s;
    r := [];
    while rest != {}
      invariant rest <= s
      invariant Ascending(r)
      invariant forall x :: x in r <==> x in s && x !in rest
      invariant forall x, i :: x in rest && 0 <= i < |r| ==> r[i] < x
      decreases |rest|
    {
      ghost var m := MinimumExists(rest);
      var least :| least in rest && forall x :: x in rest ==> least <= x;
      r, rest := r + [least], rest - {least};
    }
  }
}

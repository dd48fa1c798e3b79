/** Backup files in the order their rules compare them: by moment, and by path within one moment. */
module BackupOrder {

  /** A backup file: its path as text, and the moment its name or its clock gives it. */
  datatype Stamped = Stamped(text: string, stamp: nat)

  /** Texts in dictionary order. */
  predicate TextBefore(a: string, b: string) {
    if b == "" then false
    else if a == "" then true
    else a[0] < b[0] || (a[0] == b[0] && TextBefore(a[1..], b[1..]))
  }

  lemma {:induction false} TextOrder(a: string, b: string)
    ensures !(TextBefore(a, b) && TextBefore(b, a))
    ensures TextBefore(a, b) || TextBefore(b, a) || a == b
    ensures !TextBefore(a, a)
  {
    if a != "" { TextOrder(a[1..], a[1..]); }
    if a != "" && b != "" {
      TextOrder(a[1..], b[1..]);
      if a[0] == b[0] && a[1..] == b[1..] { assert a == [a[0]] + a[1..] && b == [b[0]] + b[1..]; }
    }
  }

  lemma {:induction false} TextOrderChains(a: string, b: string, c: string)
    requires TextBefore(a, b) && TextBefore(b, c)
    ensures TextBefore(a, c)
  {
    if a != "" && a[0] == b[0] == c[0] { TextOrderChains(a[1..], b[1..], c[1..]); }
  }

  /** Dictionary order, by the first place where they part: there the one ends, or has the smaller letter. */
  lemma {:induction false} TextsPart(a: string, b: string) returns (k: nat)
    ensures k <= |a| && k <= |b| && a[..k] == b[..k] && (k == |a| || k == |b| || a[k] != b[k])
    ensures TextBefore(a, b) <==> (k == |a| && k < |b|) || (k < |a| && k < |b| && a[k] < b[k])
  {
    k := 0;
    if a != "" && b != "" && a[0] == b[0] {
      var m := TextsPart(a[1..], b[1..]);
      k := m + 1;
      assert a[..k] == [a[0]] + a[1..][..m] && b[..k] == [b[0]] + b[1..][..m];
    }
  }

  predicate Before(a: Stamped, b: Stamped) {
    a.stamp < b.stamp || (a.stamp == b.stamp && TextBefore(a.text, b.text))
  }

  lemma BeforeIsStrictOrder(a: Stamped, b: Stamped)
    ensures !(Before(a, b) && Before(b, a)) && !Before(a, a)
    ensures Before(a, b) || Before(b, a) || a == b
  {
    TextOrder(a.text, b.text);
  }

  lemma BeforeChains(a: Stamped, b: Stamped, c: Stamped)
    requires Before(a, b) && Before(b, c)
    ensures Before(a, c)
  {
    if a.stamp == b.stamp == c.stamp { TextOrderChains(a.text, b.text, c.text); }
  }

  predicate IsNewest(files: set<Stamped>, a: Stamped) {
    a in files && forall b :: b in files ==> b == a || Before(b, a)
  }

  lemma {:induction false} NewestExists(files: set<Stamped>) returns (a: Stamped)
    requires files != {}
    ensures IsNewest(files, a)
  {
    var x :| x in files;
    a := x;
    var rest := files - {x};
    assert forall c :: c in files ==> c == x || c in rest;
    if rest != {} {
      var b := NewestExists(rest);
      BeforeIsStrictOrder(x, b);
      if Before(x, b) {
        a := b;
      } else {
        forall c | c in rest ensures Before(c, x) {
          if c != b { BeforeChains(c, b, x); }
        }
      }
    }
  }

  lemma NewestIsOne(files: set<Stamped>, a: Stamped, b: Stamped)
    requires IsNewest(files, a) && IsNewest(files, b)
    ensures a == b
  {
    BeforeIsStrictOrder(a, b);
  }
}

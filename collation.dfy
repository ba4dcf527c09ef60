/**
  The order of `ORDER BY name ASC`. The `name` column has SQLite's default
  BINARY collation, which compares the UTF-8 bytes of two texts with
  memcmp and lets a proper prefix come first. UTF-8 preserves the order of
  code points, so on characters this is the lexicographic order of
  `string`s compared character by character.
*/
module Collation {

  /** `a` sorts strictly before `b`. */
  predicate Less(a: string, b: string)
  {
    |b| > 0 && (|a| == 0 || a[0] < b[0] || (a[0] == b[0] && Less(a[1..], b[1..])))
  }

  /** The textbook reading of the same order: after their longest common
      prefix, `a` has run out while `b` has not, or `a`'s next character is
      the smaller one. */
  ghost predicate DiffersFirstAt(a: string, b: string, k: nat) {
    k <= |a| && k <= |b| && a[..k] == b[..k] &&
    ((k == |a| && k < |b|) || (k < |a| && k < |b| && a[k] < b[k]))
  }

  ghost predicate PrefixLess(a: string, b: string) {
    exists k: nat :: DiffersFirstAt(a, b, k)
  }

  /** The recursive comparison and the common-prefix reading agree. */
  lemma {:induction false} LessIsPrefixLess(a: string, b: string)
    ensures Less(a, b) <==> PrefixLess(a, b)
  {
    if |a| == 0 || |b| == 0 {
      if Less(a, b) {
        assert DiffersFirstAt(a, b, 0);
      }
    } else if a[0] != b[0] {
      if Less(a, b) {
        assert DiffersFirstAt(a, b, 0);
      }
      if PrefixLess(a, b) {
        var k: nat :| DiffersFirstAt(a, b, k);
        assert k == 0;
      }
    } else {
      LessIsPrefixLess(a[1..], b[1..]);
      if Less(a, b) {
        var k: nat :| DiffersFirstAt(a[1..], b[1..], k);
        assert a[..k + 1] == [a[0]] + a[1..][..k];
        assert b[..k + 1] == [b[0]] + b[1..][..k];
        assert DiffersFirstAt(a, b, k + 1);
      }
      if PrefixLess(a, b) {
        var k: nat :| DiffersFirstAt(a, b, k);
        assert k > 0;
        assert a[1..][..k - 1] == a[..k][1..];
        assert b[1..][..k - 1] == b[..k][1..];
        assert DiffersFirstAt(a[1..], b[1..], k - 1);
      }
    }
  }

  lemma {:induction false} LessIrreflexive(a: string)
    ensures !Less(a, a)
  {
    if |a| > 0 {
      LessIrreflexive(a[1..]);
    }
  }

  lemma {:induction false} LessTransitive(a: string, b: string, c: string)
    requires Less(a, b) && Less(b, c)
    ensures Less(a, c)
  {
    if |a| > 0 && a[0] == b[0] && b[0] == c[0] {
      LessTransitive(a[1..], b[1..], c[1..]);
    }
  }

  /** Two different names are always ordered one way or the other, so
      `ORDER BY name` leaves no tie between distinct names. */
  lemma {:induction false} LessTotal(a: string, b: string)
    requires a != b
    ensures Less(a, b) || Less(b, a)
  {
    if |a| > 0 && |b| > 0 && a[0] == b[0] {
      assert a == [a[0]] + a[1..];
      assert b == [b[0]] + b[1..];
      LessTotal(a[1..], b[1..]);
    }
  }

  lemma LessAsymmetric(a: string, b: string)
    requires Less(a, b)
    ensures !Less(b, a)
  {
    if Less(b, a) {
      LessTransitive(a, b, a);
      LessIrreflexive(a);
    }
  }

  /** The first name of a non-empty set of names in this order. */
  method Least(names: set<string>) returns (least: string)
    requires names != {}
    ensures least in names
    ensures forall n :: n in names && n != least ==> Less(least, n)
  {
    least :| least in names;
    var rest := names - {least};
    while rest != {}
      invariant rest <= names && least in names && least !in rest
      invariant forall n :: n in names - rest && n != least ==> Less(least, n)
      decreases rest
    {
      var n :| n in rest;
      if Less(n, least) {
        forall m | m in names - rest && m != least
          ensures Less(n, m)
        {
          LessTransitive(n, least, m);
        }
        least := n;
      } else {
        LessTotal(least, n);
      }
      rest := rest - {n};
    }
  }
}

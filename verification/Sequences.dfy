/** Sequences as the sets they list, the order of strings, and what sets and digits are. */
module Sequences {
  function Elements<T(==)>(s: seq<T>): set<T> { set x | x in s }

  predicate Distinct<T(==)>(s: seq<T>) { forall i, j :: 0 <= i < j < |s| ==> s[i] != s[j] }

  lemma NoneOutside<T>(some: set<T>, all: set<T>)
    ensures some - all == {} <==> some <= all
  {
    if some - all == {} {
      forall x | x in some
        ensures x in all
      {
        assert x !in some - all;
      }
    }
  }

  lemma HexadecimalDigit(c: char)
    ensures '0' <= c <= '9' || 'a' <= c <= 'f' <==> c in "0123456789abcdef"
  {
    var digits := "0123456789abcdef";
    if '0' <= c <= '9' {
      assert digits[c as int - 48] == c;
    }
    if 'a' <= c <= 'f' {
      assert digits[c as int - 87] == c;
    }
  }

  // ----- The order of strings

  /** Both strings agree before `k`, where `a` ends or has the smaller character. */
  predicate PartAt(a: string, b: string, k: nat) {
    k <= |a| && k < |b| && a[..k] == b[..k] && (k == |a| || a[k] < b[k])
  }

  /** `a` comes before `b` in the order of their characters' code points. */
  predicate Before(a: string, b: string) { exists k :: 0 <= k <= |a| && PartAt(a, b, k) }

  lemma {:induction false} BeforeOrAfter(a: string, b: string, n: nat)
    requires n <= |a| && n <= |b| && a[..n] == b[..n]
    ensures a == b || Before(a, b) || Before(b, a)
    decreases |a| - n
  {
    if n < |a| && n < |b| && a[n] == b[n] {
      assert a[..n + 1] == a[..n] + [a[n]] && b[..n + 1] == b[..n] + [b[n]];
      BeforeOrAfter(a, b, n + 1);
    } else if |a| == |b| == n {
      assert a == a[..n] && b == b[..n];
    } else {
      assert PartAt(a, b, n) || PartAt(b, a, n);
    }
  }

  lemma BeforeIsOneWay(a: string, b: string)
    requires Before(a, b)
    ensures !Before(b, a) && a != b
  {
    var k :| 0 <= k <= |a| && PartAt(a, b, k);
    assert forall j :: 0 <= j < k ==> a[j] == b[j] by {
      assert forall j :: 0 <= j < k ==> a[..k][j] == b[..k][j];
    }
  }

  lemma BeforeIsTransitive(a: string, b: string, c: string)
    requires Before(a, b) && Before(b, c)
    ensures Before(a, c)
  {
    var j :| 0 <= j <= |a| && PartAt(a, b, j);
    var k :| 0 <= k <= |b| && PartAt(b, c, k);
    var m := if j < k then j else k;
    assert a[..m] == a[..j][..m] == b[..m] == b[..k][..m] == c[..m];
    assert j < k ==> b[..k][j] == c[..k][j];
    assert k < j ==> a[..j][k] == b[..j][k];
    assert PartAt(a, c, m);
  }

  /** The name that comes before all others. */
  method Least(names: set<string>) returns (least: string)
    requires names != {}
    ensures least in names && forall n :: n in names && n != least ==> Before(least, n)
  {
    hide Before;
    least :| least in names;
    var rest := names - {least};
    while rest != {}
      invariant least in names && rest <= names
      invariant forall n :: n in names - rest && n != least ==> Before(least, n)
      decreases rest
    {
      var n :| n in rest;
      BeforeOrAfter(n, least, 0);
      if Before(n, least) {
        forall m | m in names - rest && m != least
          ensures Before(n, m)
        {
          BeforeIsTransitive(n, least, m);
        }
        least := n;
      }
      rest := rest - {n};
    }
  }

  predicate Ascending(names: seq<string>) { forall i, j :: 0 <= i < j < |names| ==> Before(names[i], names[j]) }

  /** Names have one order. */
  lemma {:induction false} OrderIsUnique(a: seq<string>, b: seq<string>)
    requires Ascending(a) && Ascending(b) && Elements(a) == Elements(b)
    ensures a == b
  {
    hide Before;
    NoElements(a);
    NoElements(b);
    if a != [] {
      assert a[0] in Elements(b) && b[0] in Elements(a);
      assert a[0] == b[0] by {
        if a[0] != b[0] {
          assert Before(a[0], b[0]) && Before(b[0], a[0]);
          BeforeIsOneWay(a[0], b[0]);
        }
      }
      RestOfAscending(a);
      RestOfAscending(b);
      OrderIsUnique(a[1..], b[1..]);
      assert a == [a[0]] + a[1..] && b == [b[0]] + b[1..];
    }
  }

  lemma NoElements(names: seq<string>)
    ensures Elements(names) == {} <==> names == []
  {
    if names != [] {
      assert names[0] in Elements(names);
    }
  }

  lemma RestOfAscending(names: seq<string>)
    requires Ascending(names) && names != []
    ensures Ascending(names[1..]) && Elements(names[1..]) == Elements(names) - {names[0]}
  {
    hide Before;
    var rest := names[1..];
    forall n
      ensures n in rest <==> n in names && n != names[0]
    {
      if n in rest {
        var i :| 0 <= i < |rest| && rest[i] == n;
        assert names[i + 1] == n;
        BeforeIsOneWay(names[0], n);
      }
    }
  }

  /** A name after all others may be appended. */
  lemma AppendName(names: seq<string>, n: string)
    requires Ascending(names) && forall m :: m in names ==> Before(m, n)
    ensures Ascending(names + [n])
  {
  }
}

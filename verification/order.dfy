/** The order the build script sorts language names in: Rust's `Ord` for
    `String`, and the sorting of a set of names into that order. */
module KeyOrder {

  /** `a < b` for Rust `String`s. Rust compares the UTF-8 bytes
      lexicographically; UTF-8 keeps the order of code points, so this is
      the lexicographic order on characters, a proper prefix coming first. */
  predicate Below(a: string, b: string)
    decreases |a|
  {
    if |a| == 0 then |b| > 0
    else if |b| == 0 then false
    else if a[0] != b[0] then a[0] < b[0]
    else Below(a[1..], b[1..])
  }

  lemma {:induction false} BelowIrreflexive(a: string)
    ensures !Below(a, a)
    decreases |a|
  {
    if |a| > 0 {
      BelowIrreflexive(a[1..]);
    }
  }

  lemma {:induction false} BelowAsymmetric(a: string, b: string)
    ensures Below(a, b) ==> !Below(b, a)
    decreases |a|
  {
    if |a| > 0 && |b| > 0 && a[0] == b[0] {
      BelowAsymmetric(a[1..], b[1..]);
    }
  }

  lemma {:induction false} BelowTransitive(a: string, b: string, c: string)
    requires Below(a, b) && Below(b, c)
    ensures Below(a, c)
    decreases |a|
  {
    if |a| > 0 && a[0] == b[0] && b[0] == c[0] {
      BelowTransitive(a[1..], b[1..], c[1..]);
    }
  }

  lemma {:induction false} BelowTotal(a: string, b: string)
    ensures a == b || Below(a, b) || Below(b, a)
    decreases |a|
  {
    if |a| > 0 && |b| > 0 && a[0] == b[0] {
      BelowTotal(a[1..], b[1..]);
      assert a == [a[0]] + a[1..];
      assert b == [b[0]] + b[1..];
    }
  }

  /** Every name comes strictly before every later one: sorted, and no
      name twice. */
  predicate StrictlyAscending(s: seq<string>) {
    forall i, j :: 0 <= i < j < |s| ==> Below(s[i], s[j])
  }

  lemma PrependAscending(x: string, s: seq<string>)
    requires StrictlyAscending(s)
    requires forall y :: y in s ==> Below(x, y)
    ensures StrictlyAscending([x] + s)
  {
    var r := [x] + s;
    forall i, j | 0 <= i < j < |r|
      ensures Below(r[i], r[j])
    {
      if i == 0 {
        assert r[j] == s[j - 1];
        assert r[j] in s;
      } else {
        assert r[i] == s[i - 1] && r[j] == s[j - 1];
      }
    }
  }

  /** Inserts one name into a sorted sequence of names. */
  function Insert(k: string, s: seq<string>): (r: seq<string>)
    requires StrictlyAscending(s)
    ensures StrictlyAscending(r)
    ensures forall x :: x in r <==> x in s || x == k
    decreases |s|
  {
    if |s| == 0 then [k]
    else if k == s[0] then s
    else if Below(k, s[0]) then
      assert forall y :: y in s ==> Below(k, y) by {
        forall y | y in s
          ensures Below(k, y)
        {
          var j :| 0 <= j < |s| && s[j] == y;
          if j > 0 {
            BelowTransitive(k, s[0], y);
          }
        }
      }
      PrependAscending(k, s);
      [k] + s
    else
      BelowTotal(k, s[0]);
      var rest := Insert(k, s[1..]);
      assert forall y :: y in rest ==> Below(s[0], y) by {
        forall y | y in rest
          ensures Below(s[0], y)
        {
          if y != k {
            var j :| 1 <= j < |s| && s[j] == y;
          }
        }
      }
      PrependAscending(s[0], rest);
      assert forall x :: x in s <==> x == s[0] || x in s[1..] by {
        assert s == [s[0]] + s[1..];
      }
      [s[0]] + rest
  }

  /** `itertools::sorted` over the keys of a `HashMap`: the map hands its
      keys out in an order nobody controls, so each step takes any key not
      yet placed and inserts it into the sorted prefix. */
  method SortKeys(ks: set<string>) returns (r: seq<string>)
    ensures StrictlyAscending(r)
    ensures forall x :: x in r <==> x in ks
  {
    r := [];
    var rest := ks;
    while rest != {}
      invariant rest <= ks
      invariant StrictlyAscending(r)
      invariant forall x :: x in r <==> x in ks && x !in rest
      decreases |rest|
    {
      var k :| k in rest;
      r := Insert(k, r);
      rest := rest - {k};
    }
  }

  /** Two strictly ascending sequences holding the same names are the same
      sequence: sorting leaves no choice. */
  lemma {:induction false} AscendingUnique(a: seq<string>, b: seq<string>)
    requires StrictlyAscending(a) && StrictlyAscending(b)
    requires forall x :: x in a <==> x in b
    ensures a == b
    decreases |a|
  {
    assert |a| == 0 <==> |b| == 0 by {
      assert |a| > 0 ==> a[0] in b;
      assert |b| > 0 ==> b[0] in a;
    }
    if |a| > 0 {
      assert a[0] in b && b[0] in a;
      var j :| 0 <= j < |b| && b[j] == a[0];
      var i :| 0 <= i < |a| && a[i] == b[0];
      BelowAsymmetric(a[0], b[0]);
      assert a[0] == b[0];
      forall x | x in a[1..]
        ensures x in b[1..]
      {
        var k :| 1 <= k < |a| && a[k] == x;
        BelowIrreflexive(x);
        assert x in b;
        var m :| 0 <= m < |b| && b[m] == x;
        assert m != 0;
        assert b[1..][m - 1] == x;
      }
      forall x | x in b[1..]
        ensures x in a[1..]
      {
        var k :| 1 <= k < |b| && b[k] == x;
        BelowIrreflexive(x);
        assert x in a;
        var m :| 0 <= m < |a| && a[m] == x;
        assert m != 0;
        assert a[1..][m - 1] == x;
      }
      AscendingUnique(a[1..], b[1..]);
      assert a == [a[0]] + a[1..];
      assert b == [b[0]] + b[1..];
    }
  }
}

/** Shared vocabulary: options, string order, and the sorted order of a set of names. */
module Prelude {
  datatype Option<+T> = None | Some(value: T) {
    function GetOr(default: T): T {
      if Some? then value else default
    }
  }

  /** Python's order on str: by code point, a proper prefix first. */
  predicate StrLe(a: string, b: string)
  {
    a == "" || (b != "" && (a[0] < b[0] || (a[0] == b[0] && StrLe(a[1..], b[1..]))))
  }

  lemma StrLeTotal(a: string, b: string)
    ensures StrLe(a, b) || StrLe(b, a)
  {
  }

  lemma {:induction false} StrLeAntisymmetric(a: string, b: string)
    requires StrLe(a, b) && StrLe(b, a)
    ensures a == b
  {
    if a == "" {
    } else {
      StrLeAntisymmetric(a[1..], b[1..]);
      assert a == [a[0]] + a[1..] && b == [b[0]] + b[1..];
    }
  }

  lemma {:induction false} StrLeTransitive(a: string, b: string, c: string)
    requires StrLe(a, b) && StrLe(b, c)
    ensures StrLe(a, c)
  {
    if a == "" || a[0] != b[0] || b[0] != c[0] {
    } else {
      StrLeTransitive(a[1..], b[1..], c[1..]);
    }
  }

  /** What two strings share does not matter; after it the smaller character comes first, and the end before any. */
  lemma {:induction false} StrLeExact(p: string, s: string, t: string)
    requires s != "" && t != "" && s[0] != t[0]
    ensures StrLe(p, p + s) && !StrLe(p + s, p)
    ensures StrLe(p + s, p + t) <==> s[0] < t[0]
  {
    if p == "" {
      assert p + s == s && p + t == t;
    } else {
      assert (p + s)[1..] == p[1..] + s && (p + t)[1..] == p[1..] + t;
      StrLeExact(p[1..], s, t);
    }
  }

  predicate IsLeast(m: string, s: set<string>)
  {
    m in s && forall y :: y in s ==> StrLe(m, y)
  }

  lemma {:induction false} LeastExists(s: set<string>)
    requires s != {}
    ensures exists m :: IsLeast(m, s)
    decreases s
  {
    var m :| m in s;
    StrLeTotal(m, m);
    if s == {m} {
      assert IsLeast(m, s);
    } else {
      LeastExists(s - {m});
      var n :| IsLeast(n, s - {m});
      StrLeTotal(m, n);
      if StrLe(m, n) {
        forall y | y in s ensures StrLe(m, y) {
          if y != m { StrLeTransitive(m, n, y); }
        }
        assert IsLeast(m, s);
      } else {
        assert IsLeast(n, s);
      }
    }
  }

  function Least(s: set<string>): (m: string)
    requires s != {}
    ensures IsLeast(m, s)
  {
    LeastExists(s);
    assert forall x, y :: IsLeast(x, s) && IsLeast(y, s) ==> x == y by {
      forall x, y | IsLeast(x, s) && IsLeast(y, s) ensures x == y { StrLeAntisymmetric(x, y); }
    }
    var m :| m in s && IsLeast(m, s);
    m
  }

  lemma SubsetSize<T>(a: set<T>, b: set<T>)
    requires a <= b
    ensures |a| <= |b|
  {
    assert b == a + (b - a);
  }

  /** `sorted(names)` for a set (or the keys of a dict). */
  function SortedNames(s: set<string>): (r: seq<string>)
    ensures forall x :: x in r <==> x in s
    ensures forall i, j :: 0 <= i < j < |r| ==> r[i] != r[j] && StrLe(r[i], r[j])
  {
    if s == {} then [] else var m := Least(s); [m] + SortedNames(s - {m})
  }
}

/** `sorted(xs, key=...)` for a string key: stable insertion sort. */
module NameSort {
  import opened Prelude

  function InsertBy<T>(key: T -> string, x: T, xs: seq<T>): seq<T> {
    if xs == [] || StrLe(key(x), key(xs[0])) then [x] + xs else [xs[0]] + InsertBy(key, x, xs[1..])
  }

  function SortBy<T>(key: T -> string, xs: seq<T>): seq<T> {
    if xs == [] then [] else InsertBy(key, xs[0], SortBy(key, xs[1..]))
  }

  ghost predicate SortedBy<T>(key: T -> string, xs: seq<T>) {
    forall i, j :: 0 <= i < j < |xs| ==> StrLe(key(xs[i]), key(xs[j]))
  }

  ghost predicate DistinctBy<T>(key: T -> string, xs: seq<T>) {
    forall i, j :: 0 <= i < j < |xs| ==> key(xs[i]) != key(xs[j])
  }

  lemma {:induction false} InsertByMembers<T>(key: T -> string, x: T, xs: seq<T>)
    ensures multiset(InsertBy(key, x, xs)) == multiset(xs) + multiset{x}
    ensures forall y :: y in InsertBy(key, x, xs) <==> y == x || y in xs
  {
    if xs == [] || StrLe(key(x), key(xs[0])) {
    } else {
      InsertByMembers(key, x, xs[1..]);
      assert xs == [xs[0]] + xs[1..];
    }
  }

  lemma {:induction false} InsertBySorts<T>(key: T -> string, x: T, xs: seq<T>)
    requires SortedBy(key, xs)
    ensures SortedBy(key, InsertBy(key, x, xs))
  {
    if xs == [] {
    } else if StrLe(key(x), key(xs[0])) {
      forall j | 0 <= j < |xs| ensures StrLe(key(x), key(xs[j])) {
        if j > 0 { StrLeTransitive(key(x), key(xs[0]), key(xs[j])); }
      }
    } else {
      InsertBySorts(key, x, xs[1..]);
      InsertByMembers(key, x, xs[1..]);
      StrLeTotal(key(x), key(xs[0]));
      var rest := InsertBy(key, x, xs[1..]);
      forall j | 0 <= j < |rest| ensures StrLe(key(xs[0]), key(rest[j])) {
        var y := rest[j];
        assert y in rest;
        if y != x {
          assert y in multiset(rest) && y in multiset(xs[1..]);
          var k :| 0 <= k < |xs| - 1 && xs[1..][k] == y;
          assert xs[k + 1] == y;
        }
      }
    }
  }

  lemma {:induction false} SortBySorts<T>(key: T -> string, xs: seq<T>)
    ensures SortedBy(key, SortBy(key, xs))
    ensures multiset(SortBy(key, xs)) == multiset(xs)
    ensures forall y :: y in SortBy(key, xs) <==> y in xs
  {
    if xs == [] {
    } else {
      SortBySorts(key, xs[1..]);
      InsertBySorts(key, xs[0], SortBy(key, xs[1..]));
      InsertByMembers(key, xs[0], SortBy(key, xs[1..]));
      assert xs == [xs[0]] + xs[1..];
    }
  }

  /** Sorting distinct keys forgets the order of the input. */
  lemma {:induction false} SortedByUnique<T>(key: T -> string, xs: seq<T>, ys: seq<T>)
    requires SortedBy(key, xs) && SortedBy(key, ys)
    requires DistinctBy(key, xs)
    requires multiset(xs) == multiset(ys)
    ensures xs == ys
  {
    assert |multiset(xs)| == |xs| && |multiset(ys)| == |ys|;
    if xs == [] {
    } else {
      HeadsAgree(key, xs, ys);
      WithoutFirst(xs);
      WithoutFirst(ys);
      TailSorted(key, xs);
      TailSorted(key, ys);
      SortedByUnique(key, xs[1..], ys[1..]);
    }
  }

  lemma WithoutFirst<T>(xs: seq<T>)
    requires xs != []
    ensures xs == [xs[0]] + xs[1..] && multiset(xs[1..]) == multiset(xs) - multiset{xs[0]}
  {
    assert xs == [xs[0]] + xs[1..];
  }

  lemma TailSorted<T>(key: T -> string, xs: seq<T>)
    requires SortedBy(key, xs) && xs != []
    ensures SortedBy(key, xs[1..]) && (DistinctBy(key, xs) ==> DistinctBy(key, xs[1..]))
  {
  }

  lemma HeadsAgree<T>(key: T -> string, xs: seq<T>, ys: seq<T>)
    requires SortedBy(key, xs) && SortedBy(key, ys)
    requires DistinctBy(key, xs)
    requires multiset(xs) == multiset(ys) && xs != [] && ys != []
    ensures xs[0] == ys[0]
  {
    var x, y := xs[0], ys[0];
    assert x in multiset(ys) && y in multiset(xs);
    var i :| 0 <= i < |ys| && ys[i] == x;
    var j :| 0 <= j < |xs| && xs[j] == y;
    StrLeTotal(key(x), key(x));
    StrLeTotal(key(y), key(y));
    assert StrLe(key(x), key(xs[j])) && StrLe(key(y), key(ys[i]));
    StrLeAntisymmetric(key(x), key(y));
    assert key(xs[0]) == key(xs[j]);
  }

  lemma SortByForgetsOrder<T>(key: T -> string, xs: seq<T>, ys: seq<T>)
    requires DistinctBy(key, xs) && multiset(xs) == multiset(ys)
    ensures SortBy(key, xs) == SortBy(key, ys)
  {
    SortBySorts(key, xs);
    SortBySorts(key, ys);
    DistinctPermuted(key, xs, SortBy(key, xs));
    SortedByUnique(key, SortBy(key, xs), SortBy(key, ys));
  }

  lemma {:induction false} DistinctPermuted<T>(key: T -> string, xs: seq<T>, ys: seq<T>)
    requires DistinctBy(key, xs) && multiset(xs) == multiset(ys)
    ensures DistinctBy(key, ys)
  {
    forall i, j | 0 <= i < j < |ys| ensures key(ys[i]) != key(ys[j]) {
      assert ys[i] in multiset(ys) && ys[j] in multiset(ys);
      var k :| 0 <= k < |xs| && xs[k] == ys[i];
      var l :| 0 <= l < |xs| && xs[l] == ys[j];
      if k == l {
        TwiceInMultiset(ys, i, j);
        OnceInMultiset(key, xs, k);
        assert false;
      }
    }
  }

  lemma TwiceInMultiset<T>(ys: seq<T>, i: nat, j: nat)
    requires i < j < |ys| && ys[i] == ys[j]
    ensures multiset(ys)[ys[i]] >= 2
  {
    assert ys == ys[..j] + [ys[j]] + ys[j + 1..];
    assert ys[..j][i] in multiset(ys[..j]);
  }

  lemma OnceInMultiset<T>(key: T -> string, xs: seq<T>, k: nat)
    requires DistinctBy(key, xs) && k < |xs|
    ensures multiset(xs)[xs[k]] == 1
  {
    assert xs == xs[..k] + [xs[k]] + xs[k + 1..];
    assert xs[k] !in xs[..k] && xs[k] !in xs[k + 1..];
  }
}

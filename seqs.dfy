/** Sequence helpers shared by the node, book and interface modules: the
    operations that `Vec::insert` and `Vec::retain` perform, and duplicate-freedom. */
module Seqs {

  /** No element occurs twice. */
  ghost predicate NoDup<T>(s: seq<T>) {
    forall i, j :: 0 <= i < j < |s| ==> s[i] != s[j]
  }

  function Min(a: nat, b: nat): nat {
    if a < b then a else b
  }

  /** `Vec::insert(min(pos, len), x)`: an index at or past the end appends. */
  function Insert<T>(s: seq<T>, pos: nat, x: T): (r: seq<T>)
    ensures |r| == |s| + 1
    ensures r[Min(pos, |s|)] == x
    ensures r[..Min(pos, |s|)] == s[..Min(pos, |s|)]
    ensures r[Min(pos, |s|) + 1..] == s[Min(pos, |s|)..]
    ensures multiset(r) == multiset(s) + multiset{x}
  {
    var k := Min(pos, |s|);
    assert s == s[..k] + s[k..];
    s[..k] + [x] + s[k..]
  }

  /** `Vec::retain(|y| y != x)`: every occurrence of `x` dropped, the rest kept in order. */
  function Without<T(==,!new)>(s: seq<T>, x: T): (r: seq<T>)
    ensures x !in r
    ensures forall y :: y in r <==> y in s && y != x
    ensures multiset(r) == multiset(s)[x := 0]
  {
    if s == [] then []
    else if s[0] == x then
      assert s == [s[0]] + s[1..];
      Without(s[1..], x)
    else
      assert s == [s[0]] + s[1..];
      [s[0]] + Without(s[1..], x)
  }

  lemma {:induction false} WithoutAbsent<T(!new)>(s: seq<T>, x: T)
    requires x !in s
    ensures Without(s, x) == s
  {
    if s != [] {
      WithoutAbsent(s[1..], x);
    }
  }

  /** Removing the one occurrence of `x` splices the two sides together in order. */
  lemma {:induction false} WithoutSplice<T(!new)>(a: seq<T>, x: T, b: seq<T>)
    requires x !in a && x !in b
    ensures Without(a + [x] + b, x) == a + b
  {
    if a == [] {
      assert a + [x] + b == [x] + b;
      WithoutAbsent(b, x);
    } else {
      var s := a + [x] + b;
      assert s[0] == a[0] != x;
      assert s[1..] == a[1..] + [x] + b;
      assert Without(s, x) == [a[0]] + Without(s[1..], x);
      WithoutSplice(a[1..], x, b);
      assert a + b == [a[0]] + (a[1..] + b);
    }
  }

  lemma {:induction false} WithoutNoDup<T(!new)>(s: seq<T>, x: T)
    requires NoDup(s)
    ensures NoDup(Without(s, x))
  {
    if s != [] {
      assert NoDup(s[1..]) by {
        forall i, j | 0 <= i < j < |s[1..]| ensures s[1..][i] != s[1..][j] {
          assert s[1..][i] == s[i + 1] && s[1..][j] == s[j + 1];
        }
      }
      WithoutNoDup(s[1..], x);
      if s[0] != x {
        var t := Without(s[1..], x);
        assert s[0] !in s[1..] by {
          forall j | 0 <= j < |s[1..]| ensures s[1..][j] != s[0] {
            assert s[1..][j] == s[j + 1];
          }
        }
        assert s[0] !in t;
        forall i, j | 0 <= i < j < |[s[0]] + t| ensures ([s[0]] + t)[i] != ([s[0]] + t)[j] {
          if i == 0 {
            assert ([s[0]] + t)[j] == t[j - 1];
          } else {
            assert ([s[0]] + t)[i] == t[i - 1] && ([s[0]] + t)[j] == t[j - 1];
          }
        }
      }
    }
  }

  lemma InsertNoDup<T>(s: seq<T>, pos: nat, x: T)
    requires NoDup(s) && x !in s
    ensures NoDup(Insert(s, pos, x))
  {
    var r := Insert(s, pos, x);
    var k := Min(pos, |s|);
    forall i, j | 0 <= i < j < |r| ensures r[i] != r[j] {
      if j < k {
        assert r[i] == r[..k][i] && r[j] == r[..k][j];
      } else if j == k {
        assert r[i] == s[..k][i];
      } else if i == k {
        assert r[j] == r[k + 1..][j - k - 1] == s[j - 1];
      } else if i < k {
        assert r[i] == s[..k][i] == s[i];
        assert r[j] == r[k + 1..][j - k - 1] == s[j - 1];
      } else {
        assert r[i] == r[k + 1..][i - k - 1] == s[i - 1];
        assert r[j] == r[k + 1..][j - k - 1] == s[j - 1];
      }
    }
  }

  lemma InsertMembers<T(!new)>(s: seq<T>, pos: nat, x: T)
    ensures forall y :: y in Insert(s, pos, x) <==> y == x || y in s
  {
    var r := Insert(s, pos, x);
    assert multiset(r) == multiset(s) + multiset{x};
    forall y ensures y in r <==> y == x || y in s {
      assert y in r <==> y in multiset(r);
      assert y in s <==> y in multiset(s);
    }
  }

  /** A duplicate-free sequence has as many distinct elements as it has positions. */
  lemma {:induction false} NoDupCard<T>(s: seq<T>)
    requires NoDup(s)
    ensures |set x | x in s| == |s|
  {
    if s != [] {
      var t := s[1..];
      assert NoDup(t) by {
        forall i, j | 0 <= i < j < |t| ensures t[i] != t[j] {
          assert t[i] == s[i + 1] && t[j] == s[j + 1];
        }
      }
      NoDupCard(t);
      assert s[0] !in t by {
        forall j | 0 <= j < |t| ensures t[j] != s[0] {
          assert t[j] == s[j + 1];
        }
      }
      assert (set x | x in s) == (set x | x in t) + {s[0]} by {
        assert s == [s[0]] + t;
      }
    }
  }

  /** Two duplicate-free sequences with no common element concatenate to a duplicate-free one. */
  lemma NoDupConcat<T>(a: seq<T>, b: seq<T>)
    requires NoDup(a) && NoDup(b)
    requires forall x :: x in a ==> x !in b
    ensures NoDup(a + b)
  {
    forall i, j | 0 <= i < j < |a + b| ensures (a + b)[i] != (a + b)[j] {
      if j < |a| {
        assert (a + b)[i] == a[i] && (a + b)[j] == a[j];
      } else if i < |a| {
        assert (a + b)[i] == a[i] && (a + b)[j] == b[j - |a|];
        assert a[i] in a && b[j - |a|] in b;
      } else {
        assert (a + b)[i] == b[i - |a|] && (a + b)[j] == b[j - |a|];
      }
    }
  }

  /** Both halves of a duplicate-free concatenation are duplicate-free and share nothing. */
  lemma NoDupSplit<T>(a: seq<T>, b: seq<T>)
    requires NoDup(a + b)
    ensures NoDup(a) && NoDup(b)
    ensures forall x :: x in a ==> x !in b
  {
    forall i, j | 0 <= i < j < |a| ensures a[i] != a[j] {
      assert a[i] == (a + b)[i] && a[j] == (a + b)[j];
    }
    forall i, j | 0 <= i < j < |b| ensures b[i] != b[j] {
      assert b[i] == (a + b)[|a| + i] && b[j] == (a + b)[|a| + j];
    }
    forall x | x in a ensures x !in b {
      var i :| 0 <= i < |a| && a[i] == x;
      forall j | 0 <= j < |b| ensures b[j] != x {
        assert a[i] == (a + b)[i] && b[j] == (a + b)[|a| + j];
      }
    }
  }

  /** The elements of a duplicate-free sequence `[x] + s`: `x`, then those of
      `s`, one each. */
  lemma HeadAndTail<T>(x: T, s: seq<T>)
    requires NoDup([x] + s)
    ensures NoDup(s) && x !in s
    ensures (set k | k in [x] + s) == {x} + (set k | k in s)
    ensures |set k | k in [x] + s| == 1 + |s|
  {
    NoDupSplit([x], s);
    NoDupCard([x] + s);
  }

  /** Concatenation regroups freely. */
  lemma AppendAssoc<T>(a: seq<T>, b: seq<T>, c: seq<T>)
    ensures (a + b) + c == a + (b + c)
  {
  }
}

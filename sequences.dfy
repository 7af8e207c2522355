/** Generic facts about sequences used by every stage of the catalogue pipeline:
    order-preserving selection (subsequences), filtering, uniqueness under a key,
    and sorting under a real-valued key. */
module Sequences {

  /** `xs` is obtained from `ys` by deleting some elements; the order of the
      remaining elements is kept. Defined from the back, like the pipeline specs. */
  predicate SubsequenceOf<T(==)>(xs: seq<T>, ys: seq<T>)
    decreases |ys|
  {
    if xs == [] then true
    else if ys == [] then false
    else (xs[|xs| - 1] == ys[|ys| - 1] && SubsequenceOf(xs[..|xs| - 1], ys[..|ys| - 1]))
         || SubsequenceOf(xs, ys[..|ys| - 1])
  }

  lemma {:induction false} SubsequenceReflexive<T>(xs: seq<T>)
    ensures SubsequenceOf(xs, xs)
    decreases |xs|
  {
    if xs != [] {
      SubsequenceReflexive(xs[..|xs| - 1]);
    }
  }

  lemma SubsequenceExtend<T>(xs: seq<T>, ys: seq<T>, y: T)
    requires SubsequenceOf(xs, ys)
    ensures SubsequenceOf(xs + [y], ys + [y])
    ensures SubsequenceOf(xs, ys + [y])
  {
    assert (xs + [y])[..|xs|] == xs;
    assert (ys + [y])[..|ys|] == ys;
  }

  lemma {:induction false} SubsequenceMembers<T>(xs: seq<T>, ys: seq<T>)
    requires SubsequenceOf(xs, ys)
    ensures |xs| <= |ys|
    ensures forall x :: x in xs ==> x in ys
    decreases |ys|
  {
    if xs != [] {
      var ys' := ys[..|ys| - 1];
      assert ys == ys' + [ys[|ys| - 1]];
      if xs[|xs| - 1] == ys[|ys| - 1] && SubsequenceOf(xs[..|xs| - 1], ys') {
        SubsequenceMembers(xs[..|xs| - 1], ys');
        assert xs == xs[..|xs| - 1] + [xs[|xs| - 1]];
      } else {
        SubsequenceMembers(xs, ys');
      }
    }
  }

  lemma {:induction false} SubsequenceTransitive<T>(xs: seq<T>, ys: seq<T>, zs: seq<T>)
    requires SubsequenceOf(xs, ys) && SubsequenceOf(ys, zs)
    ensures SubsequenceOf(xs, zs)
    decreases |zs|
  {
    if xs == [] {
    } else if ys == [] {
    } else {
      var xs', ys', zs' := xs[..|xs| - 1], ys[..|ys| - 1], zs[..|zs| - 1];
      assert zs == zs' + [zs[|zs| - 1]];
      if SubsequenceOf(ys, zs') {
        SubsequenceTransitive(xs, ys, zs');
        SubsequenceExtend(xs, zs', zs[|zs| - 1]);
      } else {
        assert ys[|ys| - 1] == zs[|zs| - 1] && SubsequenceOf(ys', zs');
        assert xs == xs' + [xs[|xs| - 1]];
        if xs[|xs| - 1] == ys[|ys| - 1] && SubsequenceOf(xs', ys') {
          SubsequenceTransitive(xs', ys', zs');
          SubsequenceExtend(xs', zs', zs[|zs| - 1]);
        } else {
          SubsequenceTransitive(xs, ys', zs');
          SubsequenceExtend(xs, zs', zs[|zs| - 1]);
        }
      }
    }
  }

  /** No two positions of `s` share a key. */
  predicate UniqueBy<T, K(==)>(s: seq<T>, key: T -> K) {
    forall i, j :: 0 <= i < j < |s| ==> key(s[i]) != key(s[j])
  }

  /** Deleting elements cannot create a clash of keys. */
  lemma {:induction false} UniqueBySubsequence<T, K>(xs: seq<T>, ys: seq<T>, key: T -> K)
    requires SubsequenceOf(xs, ys) && UniqueBy(ys, key)
    ensures UniqueBy(xs, key)
    decreases |ys|
  {
    if xs != [] {
      var xs', ys' := xs[..|xs| - 1], ys[..|ys| - 1];
      assert UniqueBy(ys', key);
      if xs[|xs| - 1] == ys[|ys| - 1] && SubsequenceOf(xs', ys') {
        UniqueBySubsequence(xs', ys', key);
        SubsequenceMembers(xs', ys');
        forall i | 0 <= i < |xs'|
          ensures key(xs[i]) != key(xs[|xs| - 1])
        {
          assert xs[i] == xs'[i] && xs'[i] in ys';
          var k :| 0 <= k < |ys'| && ys'[k] == xs'[i];
          assert ys[k] == ys'[k];
        }
      } else {
        UniqueBySubsequence(xs, ys', key);
      }
    }
  }

  lemma {:induction false} CountAtLeastTwo<T>(s: seq<T>, i: int, j: int)
    requires 0 <= i < j < |s| && s[i] == s[j]
    ensures multiset(s)[s[i]] >= 2
    decreases |s|
  {
    assert s == s[..|s| - 1] + [s[|s| - 1]];
    if j < |s| - 1 {
      CountAtLeastTwo(s[..|s| - 1], i, j);
    } else {
      assert s[i] in s[..|s| - 1];
    }
  }

  lemma {:induction false} UniqueCountAtMostOne<T, K>(s: seq<T>, key: T -> K, x: T)
    requires UniqueBy(s, key)
    ensures multiset(s)[x] <= 1
    decreases |s|
  {
    if s != [] {
      var s' := s[..|s| - 1];
      assert s == s' + [s[|s| - 1]];
      assert UniqueBy(s', key);
      UniqueCountAtMostOne(s', key, x);
    }
  }

  /** Reordering elements cannot create a clash of keys. */
  lemma UniqueByPermutation<T, K>(a: seq<T>, b: seq<T>, key: T -> K)
    requires multiset(a) == multiset(b) && UniqueBy(a, key)
    ensures UniqueBy(b, key)
  {
    forall i, j | 0 <= i < j < |b|
      ensures key(b[i]) != key(b[j])
    {
      if key(b[i]) == key(b[j]) {
        assert b[i] in multiset(a) && b[j] in multiset(a);
        var i' :| 0 <= i' < |a| && a[i'] == b[i];
        var j' :| 0 <= j' < |a| && a[j'] == b[j];
        assert i' == j';
        CountAtLeastTwo(b, i, j);
        UniqueCountAtMostOne(a, key, b[i]);
        assert false;
      }
    }
  }

  /** The elements of `s` that satisfy `keep`, in their original order: the
      semantics of selecting rows of a table with a boolean mask. */
  function Where<T(!new)>(s: seq<T>, keep: T -> bool): (r: seq<T>)
    ensures SubsequenceOf(r, s)
    ensures forall i :: 0 <= i < |r| ==> r[i] in s && keep(r[i])
    ensures forall i :: 0 <= i < |s| && keep(s[i]) ==> s[i] in r
    decreases |s|
  {
    if s == [] then []
    else
      var s', last := s[..|s| - 1], s[|s| - 1];
      var r' := Where(s', keep);
      assert s == s' + [last];
      SubsequenceExtend(r', s', last);
      if keep(last) then r' + [last] else r'
  }

  /** A mask keeps every copy of an element it accepts and no copy of one it rejects. */
  lemma {:induction false} WhereCounts<T(!new)>(s: seq<T>, keep: T -> bool)
    ensures forall x :: multiset(Where(s, keep))[x] == if keep(x) then multiset(s)[x] else 0
    decreases |s|
  {
    if s != [] {
      var s', last := s[..|s| - 1], s[|s| - 1];
      WhereCounts(s', keep);
      assert s == s' + [last];
    }
  }

  /** Position `i` holds the first element of `s` that satisfies `q` with its key. */
  predicate FirstWith<T, K(==)>(s: seq<T>, i: int, q: T -> bool, key: T -> K)
    requires 0 <= i < |s|
  {
    q(s[i]) && forall k :: 0 <= k < i && q(s[k]) ==> key(s[k]) != key(s[i])
  }

  /** The last element, when kept and the first of its key, is the first of
      its key in the result too. */
  lemma WhereKeepsLast<T(!new), K>(s: seq<T>, keep: T -> bool, q: T -> bool, key: T -> K)
    requires s != [] && keep(s[|s| - 1]) && FirstWith(s, |s| - 1, q, key)
    ensures var r' := Where(s[..|s| - 1], keep);
      && Where(s, keep) == r' + [s[|s| - 1]]
      && FirstWith(Where(s, keep), |r'|, q, key)
  {
    var s', last := s[..|s| - 1], s[|s| - 1];
    var r, r' := Where(s, keep), Where(s', keep);
    assert r == r' + [last];
    forall k | 0 <= k < |r'| && q(r[k]) ensures key(r[k]) != key(last) {
      assert r[k] == r'[k];
      var m :| 0 <= m < |s'| && s'[m] == r'[k];
      assert s[m] == r[k];
    }
  }

  /** A mask that keeps every element satisfying `q` keeps the first element
      satisfying `q` with each key, and it stays the first such element. */
  lemma {:induction false} WhereKeepsFirst<T(!new), K>(s: seq<T>, keep: T -> bool, q: T -> bool, key: T -> K, i: int)
    returns (j: int)
    requires 0 <= i < |s| && FirstWith(s, i, q, key)
    requires forall x :: q(x) ==> keep(x)
    ensures 0 <= j < |Where(s, keep)| && Where(s, keep)[j] == s[i]
    ensures FirstWith(Where(s, keep), j, q, key)
    decreases |s|
  {
    var s' := s[..|s| - 1];
    var r, r' := Where(s, keep), Where(s', keep);
    if i < |s'| {
      assert s'[i] == s[i];
      assert FirstWith(s', i, q, key);
      j := WhereKeepsFirst(s', keep, q, key, i);
      assert r[..|r'|] == r';
    } else {
      WhereKeepsLast(s, keep, q, key);
      j := |r'|;
    }
  }

  /** Keys are non-decreasing along `s`. */
  predicate Ascending<T>(s: seq<T>, key: T -> real) {
    forall i, j :: 0 <= i < j < |s| ==> key(s[i]) <= key(s[j])
  }

  /** A head no larger than any element of an ascending tail keeps it ascending. */
  lemma AscendingCons<T>(h: T, t: seq<T>, key: T -> real)
    requires Ascending(t, key)
    requires forall i :: 0 <= i < |t| ==> key(h) <= key(t[i])
    ensures Ascending([h] + t, key)
  {
    var r := [h] + t;
    forall i, j | 0 <= i < j < |r| ensures key(r[i]) <= key(r[j]) {
      assert r[j] == t[j - 1];
      if i > 0 {
        assert r[i] == t[i - 1];
      }
    }
  }

  /** The first element of an ascending sequence has the smallest key. */
  lemma AscendingHeadLeast<T>(s: seq<T>, key: T -> real, y: T)
    requires Ascending(s, key) && s != [] && y in s
    ensures key(s[0]) <= key(y)
  {
    var j :| 0 <= j < |s| && s[j] == y;
    if j > 0 {
      assert key(s[0]) <= key(s[j]);
    }
  }

  /** Puts `x` in front of the first element with a larger key. */
  function Insert<T>(x: T, s: seq<T>, key: T -> real): (r: seq<T>)
    ensures multiset(r) == multiset(s) + multiset{x}
    decreases |s|
  {
    if s == [] then [x]
    else if key(x) <= key(s[0]) then [x] + s
    else
      assert s == [s[0]] + s[1..];
      [s[0]] + Insert(x, s[1..], key)
  }

  /** Inserting into an ascending sequence keeps it ascending. */
  lemma {:induction false} InsertAscending<T>(x: T, s: seq<T>, key: T -> real)
    requires Ascending(s, key)
    ensures Ascending(Insert(x, s, key), key)
    decreases |s|
  {
    if s == [] {
    } else if key(x) <= key(s[0]) {
      AscendingCons(x, s, key);
    } else {
      var rest := Insert(x, s[1..], key);
      assert Ascending(s[1..], key);
      InsertAscending(x, s[1..], key);
      forall i | 0 <= i < |rest| ensures key(s[0]) <= key(rest[i]) {
        assert rest[i] in multiset(rest);
        if rest[i] != x {
          assert rest[i] in multiset(s[1..]);
          assert rest[i] in s;
          AscendingHeadLeast(s, key, rest[i]);
        }
      }
      AscendingCons(s[0], rest, key);
    }
  }

  /** Some ordering of `s` by ascending key. Which of several rows with equal
      keys comes first is not promised by the contract. */
  function SortBy<T>(s: seq<T>, key: T -> real): (r: seq<T>)
    ensures Ascending(r, key)
    ensures multiset(r) == multiset(s)
    decreases |s|
  {
    if s == [] then []
    else
      assert s == [s[0]] + s[1..];
      var sorted := SortBy(s[1..], key);
      InsertAscending(s[0], sorted, key);
      Insert(s[0], sorted, key)
  }
}

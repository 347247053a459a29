/**
 * The LINQ operators the repositories apply to a table, on sequences of rows
 * (a table is a sequence in insertion order), and the facts about them that the
 * store's invariants need.
 */
module Seqs {
  import opened Wrappers

  /** `FirstOrDefault(p)`: the first element satisfying `p`, if there is one. */
  function FirstWhere<T>(s: seq<T>, p: T -> bool): (r: Option<T>)
    ensures r.Some? <==> exists i | 0 <= i < |s| :: p(s[i])
    ensures r.Some? ==> r.value in s && p(r.value)
  {
    if s == [] then None
    else if p(s[0]) then Some(s[0])
    else
      var r := FirstWhere(s[1..], p);
      assert (exists i | 0 <= i < |s| :: p(s[i])) ==> exists i | 0 <= i < |s[1..]| :: p(s[1..][i]) by {
        if exists i | 0 <= i < |s| :: p(s[i]) {
          var i :| 0 <= i < |s| && p(s[i]);
          assert i != 0 && s[1..][i - 1] == s[i];
        }
      }
      r
  }

  /** What `FirstWhere` finds is the element at the first index satisfying `p`. */
  lemma {:induction false} FirstWhereIsFirst<T>(s: seq<T>, p: T -> bool)
    requires FirstWhere(s, p).Some?
    ensures exists i | 0 <= i < |s| :: s[i] == FirstWhere(s, p).value && forall j | 0 <= j < i :: !p(s[j])
  {
    if !p(s[0]) {
      FirstWhereIsFirst(s[1..], p);
      var i :| 0 <= i < |s[1..]| && s[1..][i] == FirstWhere(s[1..], p).value && forall j | 0 <= j < i :: !p(s[1..][j]);
      assert forall j | 1 <= j < i + 1 :: s[j] == s[1..][j - 1];
      assert s[i + 1] == FirstWhere(s, p).value;
    } else {
      assert s[0] == FirstWhere(s, p).value;
    }
  }

  /** `Any(p)`: some element satisfies `p`. */
  predicate Any<T>(s: seq<T>, p: T -> bool) {
    exists i | 0 <= i < |s| :: p(s[i])
  }

  /** `Where(p).ToList()`: the elements satisfying `p`, in their original order. */
  function Filter<T>(s: seq<T>, p: T -> bool): (r: seq<T>)
    ensures |r| <= |s|
    ensures forall i | 0 <= i < |r| :: p(r[i]) && r[i] in s
    ensures forall j | 0 <= j < |s| :: p(s[j]) ==> s[j] in r
  {
    if s == [] then []
    else if p(s[0]) then [s[0]] + Filter(s[1..], p)
    else Filter(s[1..], p)
  }

  /** A filter every element passes keeps the whole sequence. */
  lemma {:induction false} FilterAll<T>(s: seq<T>, p: T -> bool)
    requires forall i | 0 <= i < |s| :: p(s[i])
    ensures Filter(s, p) == s
  {
    if s != [] {
      assert p(s[0]);
      FilterAll(s[1..], p);
      assert [s[0]] + s[1..] == s;
    }
  }

  /** Every element satisfying `p` replaced by `x`: an UPDATE of the rows `p` selects. */
  function ReplaceWhere<T>(s: seq<T>, p: T -> bool, x: T): (r: seq<T>)
    ensures |r| == |s|
    ensures forall i | 0 <= i < |s| :: r[i] == if p(s[i]) then x else s[i]
  {
    seq(|s|, i requires 0 <= i < |s| => if p(s[i]) then x else s[i])
  }

  /** The set of keys a table holds. */
  ghost function KeySet<T, K>(s: seq<T>, key: T -> K): set<K> {
    set i | 0 <= i < |s| :: key(s[i])
  }

  /** No two rows share a key: a primary key or a unique index. */
  ghost predicate UniqueBy<T, K>(s: seq<T>, key: T -> K) {
    forall i, j | 0 <= i < |s| && 0 <= j < |s| && i != j :: key(s[i]) != key(s[j])
  }

  /** Every row's foreign key `fk` is the key `pk` of some row of `t`. */
  ghost predicate References<A, B, K>(s: seq<A>, fk: A -> K, t: seq<B>, pk: B -> K) {
    forall i | 0 <= i < |s| :: fk(s[i]) in KeySet(t, pk)
  }

  lemma KeySetAppend<T, K>(s: seq<T>, x: T, key: T -> K)
    ensures KeySet(s + [x], key) == KeySet(s, key) + {key(x)}
  {
    var a, b := KeySet(s + [x], key), KeySet(s, key) + {key(x)};
    forall k | k in a ensures k in b {
      var i :| 0 <= i < |s + [x]| && key((s + [x])[i]) == k;
      if i < |s| { assert key(s[i]) == k; }
    }
    forall k | k in b ensures k in a {
      if k == key(x) { assert key((s + [x])[|s|]) == k; }
      else {
        var i :| 0 <= i < |s| && key(s[i]) == k;
        assert key((s + [x])[i]) == k;
      }
    }
  }

  lemma KeySetConcat<T, K>(s: seq<T>, t: seq<T>, key: T -> K)
    ensures KeySet(s + t, key) == KeySet(s, key) + KeySet(t, key)
  {
    var a, b := KeySet(s + t, key), KeySet(s, key) + KeySet(t, key);
    forall k | k in a ensures k in b {
      var i :| 0 <= i < |s + t| && key((s + t)[i]) == k;
      if i < |s| { assert key(s[i]) == k; } else { assert key(t[i - |s|]) == k; }
    }
    forall k | k in b ensures k in a {
      if k in KeySet(s, key) {
        var i :| 0 <= i < |s| && key(s[i]) == k;
        assert key((s + t)[i]) == k;
      } else {
        var i :| 0 <= i < |t| && key(t[i]) == k;
        assert key((s + t)[|s| + i]) == k;
      }
    }
  }

  /** Removing the rows whose key is `k` removes exactly the key `k`. */
  lemma KeySetFilterOut<T, K>(s: seq<T>, key: T -> K, k: K, p: T -> bool)
    requires forall x :: p(x) == (key(x) != k)
    ensures KeySet(Filter(s, p), key) == KeySet(s, key) - {k}
  {
    var f := Filter(s, p);
    var a, b := KeySet(f, key), KeySet(s, key) - {k};
    forall q | q in a ensures q in b {
      var i :| 0 <= i < |f| && key(f[i]) == q;
      var j :| 0 <= j < |s| && s[j] == f[i];
    }
    forall q | q in b ensures q in a {
      var j :| 0 <= j < |s| && key(s[j]) == q;
      assert s[j] in f;
      var i :| 0 <= i < |f| && f[i] == s[j];
    }
  }

  /** Removing referencing rows keeps a foreign key intact. */
  lemma ReferencesFilterSource<A, B, K>(s: seq<A>, fk: A -> K, t: seq<B>, pk: B -> K, p: A -> bool)
    requires References(s, fk, t, pk)
    ensures References(Filter(s, p), fk, t, pk)
  {
    var f := Filter(s, p);
    forall i | 0 <= i < |f| ensures fk(f[i]) in KeySet(t, pk) {
      var j :| 0 <= j < |s| && s[j] == f[i];
    }
  }

  /** Removing the referenced rows whose key is `k` keeps a foreign key intact when nothing refers to `k`. */
  lemma ReferencesFilterTarget<A, B, K>(s: seq<A>, fk: A -> K, t: seq<B>, pk: B -> K, k: K, p: B -> bool)
    requires References(s, fk, t, pk)
    requires forall x :: p(x) == (pk(x) != k)
    requires forall i | 0 <= i < |s| :: fk(s[i]) != k
    ensures References(s, fk, Filter(t, p), pk)
  {
    KeySetFilterOut(t, pk, k, p);
  }

  /**
   * Filtering both sides keeps a foreign key intact when every kept row's
   * target is kept as well.
   */
  lemma ReferencesFilterBoth<A, B, K>(s: seq<A>, fk: A -> K, t: seq<B>, pk: B -> K, ps: A -> bool, pt: B -> bool)
    requires References(s, fk, t, pk)
    requires forall i, j | 0 <= i < |s| && 0 <= j < |t| :: ps(s[i]) && pk(t[j]) == fk(s[i]) ==> pt(t[j])
    ensures References(Filter(s, ps), fk, Filter(t, pt), pk)
  {
    var f, g := Filter(s, ps), Filter(t, pt);
    forall i | 0 <= i < |f| ensures fk(f[i]) in KeySet(g, pk) {
      var a :| 0 <= a < |s| && s[a] == f[i];
      var b :| 0 <= b < |t| && pk(t[b]) == fk(s[a]);
      assert t[b] in g;
      var c :| 0 <= c < |g| && g[c] == t[b];
    }
  }

  /** Replacing the rows that have `x`'s key by `x` keeps the set of keys, if such a row exists. */
  lemma KeySetReplace<T, K>(s: seq<T>, key: T -> K, p: T -> bool, x: T)
    requires forall y :: p(y) ==> key(y) == key(x)
    requires key(x) in KeySet(s, key)
    ensures KeySet(ReplaceWhere(s, p, x), key) == KeySet(s, key)
  {
    var r := ReplaceWhere(s, p, x);
    forall q | q in KeySet(r, key) ensures q in KeySet(s, key) {
      var i :| 0 <= i < |r| && key(r[i]) == q;
    }
    forall q | q in KeySet(s, key) ensures q in KeySet(r, key) {
      var i :| 0 <= i < |s| && key(s[i]) == q;
      assert key(r[i]) == q;
    }
  }

  lemma UniqueByAppend<T, K>(s: seq<T>, x: T, key: T -> K)
    requires UniqueBy(s, key)
    requires key(x) !in KeySet(s, key)
    ensures UniqueBy(s + [x], key)
  {
    var t := s + [x];
    forall i, j | 0 <= i < |t| && 0 <= j < |t| && i != j ensures key(t[i]) != key(t[j]) {
      if i == |s| { assert key(t[j]) == key(s[j]); }
      else if j == |s| { assert key(t[i]) == key(s[i]); }
    }
  }

  lemma UniqueByConcat<T, K>(s: seq<T>, t: seq<T>, key: T -> K)
    requires UniqueBy(s, key) && UniqueBy(t, key)
    requires KeySet(s, key) !! KeySet(t, key)
    ensures UniqueBy(s + t, key)
  {
    var u := s + t;
    forall i, j | 0 <= i < |u| && 0 <= j < |u| && i != j ensures key(u[i]) != key(u[j]) {
      if i < |s| && j >= |s| {
        assert key(u[i]) in KeySet(s, key) && key(u[j]) == key(t[j - |s|]) && key(t[j - |s|]) in KeySet(t, key);
      } else if i >= |s| && j < |s| {
        assert key(u[j]) in KeySet(s, key) && key(u[i]) == key(t[i - |s|]) && key(t[i - |s|]) in KeySet(t, key);
      } else if i >= |s| {
        assert u[i] == t[i - |s|] && u[j] == t[j - |s|];
      }
    }
  }

  /** Removing rows keeps a key unique. */
  lemma {:induction false} UniqueByFilter<T, K>(s: seq<T>, key: T -> K, p: T -> bool)
    requires UniqueBy(s, key)
    ensures UniqueBy(Filter(s, p), key)
  {
    if s != [] {
      var rest := Filter(s[1..], p);
      assert UniqueBy(s[1..], key) by {
        forall i, j | 0 <= i < |s[1..]| && 0 <= j < |s[1..]| && i != j ensures key(s[1..][i]) != key(s[1..][j]) {
          assert s[1..][i] == s[i + 1] && s[1..][j] == s[j + 1];
        }
      }
      UniqueByFilter(s[1..], key, p);
      if p(s[0]) {
        assert key(s[0]) !in KeySet(rest, key);
        UniqueByConcat([s[0]], rest, key);
      }
    }
  }

  /**
   * Replacing the row that has `x`'s `id` by `x` keeps `key` unique, provided no
   * other row has `x`'s `key`.
   */
  lemma UniqueByReplace<T, I, K>(s: seq<T>, id: T -> I, key: T -> K, p: T -> bool, x: T)
    requires UniqueBy(s, key)
    requires forall y :: p(y) == (id(y) == id(x))
    requires UniqueBy(s, id)
    requires forall j | 0 <= j < |s| :: id(s[j]) != id(x) ==> key(s[j]) != key(x)
    ensures UniqueBy(ReplaceWhere(s, p, x), key)
  {
    var r := ReplaceWhere(s, p, x);
    assert forall i, j | 0 <= i < |r| && 0 <= j < |r| && i != j :: key(r[i]) != key(r[j]);
  }
}

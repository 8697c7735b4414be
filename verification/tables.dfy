/**
 * Grouped tables, the shape a pandas `pivot_table(...).reset_index()` leaves:
 * a sequence of entries, one per group key, each holding the aggregated value.
 * Groups are kept in first-appearance order (pandas sorts them; no later step
 * of the source depends on that order except through an explicit sort).
 */
module Tables {
  import opened Wrappers
  import Lex

  datatype Entry<K, V> = Entry(key: K, value: V)

  function Keys<K, V(==)>(t: seq<Entry<K, V>>): set<K> {
    set e | e in t :: e.key
  }

  predicate DistinctKeys<K(==), V>(t: seq<Entry<K, V>>) {
    forall i, j :: 0 <= i < j < |t| ==> t[i].key != t[j].key
  }

  /** The value of the first entry under `k`. */
  function Find<K(==), V(==)>(t: seq<Entry<K, V>>, k: K): (r: Option<V>)
    ensures r.Some? <==> k in Keys(t)
    ensures r.Some? ==> Entry(k, r.value) in t
  {
    if t == [] then None
    else if t[0].key == k then Some(t[0].value)
    else
      assert Keys(t) == {t[0].key} + Keys(t[1..]) by {
        assert t == [t[0]] + t[1..];
      }
      Find(t[1..], k)
  }

  /** In a table with one entry per key, each entry is what `Find` returns for its key. */
  lemma {:induction false} FindDistinct<K, V>(t: seq<Entry<K, V>>, e: Entry<K, V>)
    requires DistinctKeys(t) && e in t
    ensures Find(t, e.key) == Some(e.value)
  {
    if t[0] != e {
      FindDistinct(t[1..], e);
    }
  }

  /** The keys met in `xs`, each once, in first-appearance order. */
  function Groups<T, K(==)>(xs: seq<T>, key: T -> K): (g: seq<K>)
    ensures forall i, j :: 0 <= i < j < |g| ==> g[i] != g[j]
  {
    if xs == [] then []
    else
      var g0, x := Groups(xs[..|xs| - 1], key), xs[|xs| - 1];
      if key(x) in g0 then g0 else g0 + [key(x)]
  }

  /** The groups are exactly the keys of the members. */
  lemma {:induction false} GroupsSpec<T, K>(xs: seq<T>, key: T -> K)
    ensures forall k :: k in Groups(xs, key) <==> exists x :: x in xs && key(x) == k
  {
    if xs != [] {
      var prefix, x := xs[..|xs| - 1], xs[|xs| - 1];
      GroupsSpec(prefix, key);
      assert forall y :: y in xs <==> y in prefix || y == x by {
        assert xs == prefix + [x];
      }
    }
  }

  // ---------------------------------------------------------------
  // Grouping
  // ---------------------------------------------------------------

  /**
   * Fold `v` into the entry under `k` with `combine`, or append a new entry
   * when there is none: one step of a group-by aggregation.
   */
  function Upsert<K(==), V>(t: seq<Entry<K, V>>, k: K, v: V, combine: (V, V) -> V): seq<Entry<K, V>> {
    if t == [] then [Entry(k, v)]
    else if t[0].key == k then [Entry(k, combine(t[0].value, v))] + t[1..]
    else [t[0]] + Upsert(t[1..], k, v, combine)
  }

  /** Only the entry under `k` changes: it becomes `combine(old, v)`, or `v` when absent. */
  lemma {:induction false} UpsertFind<K, V>(t: seq<Entry<K, V>>, k: K, v: V, combine: (V, V) -> V)
    ensures forall j :: Find(Upsert(t, k, v, combine), j) ==
              (if j != k then Find(t, j) else if Find(t, k).Some? then Some(combine(Find(t, k).value, v)) else Some(v))
  {
    if t != [] && t[0].key != k {
      UpsertFind(t[1..], k, v, combine);
    }
  }

  lemma {:induction false} UpsertDistinct<K, V>(t: seq<Entry<K, V>>, k: K, v: V, combine: (V, V) -> V)
    requires DistinctKeys(t)
    ensures DistinctKeys(Upsert(t, k, v, combine))
  {
    if t != [] && t[0].key != k {
      UpsertDistinct(t[1..], k, v, combine);
      var r := Upsert(t, k, v, combine);
      forall j | 1 <= j < |r| ensures r[0].key != r[j].key {
        var e := r[j];
        assert e in Upsert(t[1..], k, v, combine);
        UpsertFind(t[1..], k, v, combine);
        assert Find(Upsert(t[1..], k, v, combine), e.key).Some?;
      }
    }
  }

  function Plus(a: int, b: int): int {
    a + b
  }

  /** The sum of `val(x)` over the `x` in `xs` with `key(x) == k`: the per-group reference. */
  function SumWhere<T, K(==)>(xs: seq<T>, key: T -> K, val: T -> int, k: K): int {
    if xs == [] then 0
    else
      var x := xs[|xs| - 1];
      SumWhere(xs[..|xs| - 1], key, val, k) + (if key(x) == k then val(x) else 0)
  }

  /** `pivot_table(index=key, values=val, aggfunc='sum')`. */
  function GroupSum<T, K(==)>(xs: seq<T>, key: T -> K, val: T -> int): seq<Entry<K, int>> {
    if xs == [] then []
    else
      var x := xs[|xs| - 1];
      Upsert(GroupSum(xs[..|xs| - 1], key, val), key(x), val(x), Plus)
  }

  /**
   * The summed table holds one entry per key present in `xs`, and that entry's
   * value is the sum over the members of its group.
   */
  lemma {:induction false} GroupSumSpec<T, K>(xs: seq<T>, key: T -> K, val: T -> int)
    ensures DistinctKeys(GroupSum(xs, key, val))
    ensures forall k :: Find(GroupSum(xs, key, val), k) ==
              (if exists x :: x in xs && key(x) == k then Some(SumWhere(xs, key, val, k)) else None)
  {
    if xs != [] {
      var prefix, x := xs[..|xs| - 1], xs[|xs| - 1];
      assert xs == prefix + [x];
      GroupSumSpec(prefix, key, val);
      UpsertDistinct(GroupSum(prefix, key, val), key(x), val(x), Plus);
      forall k ensures Find(GroupSum(xs, key, val), k) ==
        (if exists y :: y in xs && key(y) == k then Some(SumWhere(xs, key, val, k)) else None)
      {
        GroupSumStep(prefix, x, key, val, k);
      }
    }
  }

  /** Adding `v` under `k` raises that entry by `v` (from 0 when absent) and leaves every other key's entry alone. */
  lemma UpsertPlus<K>(t: seq<Entry<K, int>>, k: K, v: int)
    ensures Find(Upsert(t, k, v, Plus), k) == Some((if Find(t, k).Some? then Find(t, k).value else 0) + v)
    ensures forall j :: j != k ==> Find(Upsert(t, k, v, Plus), j) == Find(t, j)
  {
    UpsertFind(t, k, v, Plus);
  }

  /** The table after one more member is the table before it with that member folded in. */
  lemma GroupSumAppendOne<T, K>(xs: seq<T>, x: T, key: T -> K, val: T -> int)
    ensures GroupSum(xs + [x], key, val) == Upsert(GroupSum(xs, key, val), key(x), val(x), Plus)
  {
    assert (xs + [x])[..|xs|] == xs;
  }

  /** One more member: only its group's entry changes, by its value. */
  lemma GroupSumStep<T, K>(prefix: seq<T>, x: T, key: T -> K, val: T -> int, k: K)
    requires Find(GroupSum(prefix, key, val), k) ==
               (if exists y :: y in prefix && key(y) == k then Some(SumWhere(prefix, key, val, k)) else None)
    ensures Find(GroupSum(prefix + [x], key, val), k) ==
              (if exists y :: y in prefix + [x] && key(y) == k then Some(SumWhere(prefix + [x], key, val, k)) else None)
  {
    var xs := prefix + [x];
    GroupSumSnoc(prefix, x, key, val, k);
    if k != key(x) {
      assert (exists y :: y in xs && key(y) == k) <==> (exists y :: y in prefix && key(y) == k) by {
        if exists y :: y in xs && key(y) == k {
          var y :| y in xs && key(y) == k;
          assert y in prefix;
        }
        if exists y :: y in prefix && key(y) == k {
          var y :| y in prefix && key(y) == k;
          assert y in xs;
        }
      }
    } else {
      assert x in xs;
      if !exists y :: y in prefix && key(y) == k {
        SumWhereEmpty(prefix, key, val, k);
      }
    }
  }

  /** The table and the group sum after one more member, in terms of those before it. */
  lemma GroupSumSnoc<T, K>(prefix: seq<T>, x: T, key: T -> K, val: T -> int, k: K)
    ensures var old0 := Find(GroupSum(prefix, key, val), k);
      Find(GroupSum(prefix + [x], key, val), k) ==
        if k != key(x) then old0 else if old0.Some? then Some(old0.value + val(x)) else Some(val(x))
    ensures SumWhere(prefix + [x], key, val, k) == SumWhere(prefix, key, val, k) + (if key(x) == k then val(x) else 0)
  {
    var xs, t0 := prefix + [x], GroupSum(prefix, key, val);
    assert GroupSum(xs, key, val) == Upsert(t0, key(x), val(x), Plus) by {
      GroupSumAppendOne(prefix, x, key, val);
    }
    UpsertFind(t0, key(x), val(x), Plus);
    assert xs[..|xs| - 1] == prefix && xs[|xs| - 1] == x;
  }

  /** A group with no members sums to 0. */
  lemma {:induction false} SumWhereEmpty<T, K>(xs: seq<T>, key: T -> K, val: T -> int, k: K)
    requires forall x :: x in xs ==> key(x) != k
    ensures SumWhere(xs, key, val, k) == 0
  {
    if xs != [] {
      SumWhereEmpty(xs[..|xs| - 1], key, val, k);
    }
  }

  /** Summing the values of a concatenation is summing each part. */
  lemma {:induction false} SumWhereAppend<T, K>(a: seq<T>, b: seq<T>, key: T -> K, val: T -> int, k: K)
    ensures SumWhere(a + b, key, val, k) == SumWhere(a, key, val, k) + SumWhere(b, key, val, k)
    decreases |b|
  {
    if b == [] {
      assert a + b == a;
    } else {
      assert (a + b)[..|a + b| - 1] == a + b[..|b| - 1];
      SumWhereAppend(a, b[..|b| - 1], key, val, k);
    }
  }

  /**
   * A coarser regrouping of a table: the sum, over the entries whose key projects
   * to `p`, of the entry's value scaled by a weight of its key.
   */
  function Weighted<K, P(==)>(t: seq<Entry<K, int>>, proj: K -> P, w: K -> int, p: P): int {
    if t == [] then 0
    else (if proj(t[0].key) == p then w(t[0].key) * t[0].value else 0) + Weighted(t[1..], proj, w, p)
  }

  /** The same regrouping computed directly on the members of the groups. */
  function RowsWeighted<T, K, P(==)>(xs: seq<T>, key: T -> K, val: T -> int, proj: K -> P, w: K -> int, p: P): int {
    if xs == [] then 0
    else
      var x := xs[|xs| - 1];
      RowsWeighted(xs[..|xs| - 1], key, val, proj, w, p) + (if proj(key(x)) == p then w(key(x)) * val(x) else 0)
  }

  lemma {:induction false} UpsertWeighted<K, P>(t: seq<Entry<K, int>>, k: K, v: int, proj: K -> P, w: K -> int, p: P)
    ensures Weighted(Upsert(t, k, v, Plus), proj, w, p) == Weighted(t, proj, w, p) + (if proj(k) == p then w(k) * v else 0)
  {
    if t != [] {
      if t[0].key == k {
        assert Upsert(t, k, v, Plus)[1..] == t[1..];
        assert w(k) * (t[0].value + v) == w(k) * t[0].value + w(k) * v;
      } else {
        assert Upsert(t, k, v, Plus)[1..] == Upsert(t[1..], k, v, Plus);
        UpsertWeighted(t[1..], k, v, proj, w, p);
      }
    }
  }

  /**
   * Re-aggregating a summed table by a coarser key, with weights that depend
   * only on the group key, gives the same totals as aggregating the members.
   */
  lemma {:induction false} GroupSumWeighted<T, K, P>(xs: seq<T>, key: T -> K, val: T -> int, proj: K -> P, w: K -> int, p: P)
    ensures Weighted(GroupSum(xs, key, val), proj, w, p) == RowsWeighted(xs, key, val, proj, w, p)
  {
    if xs != [] {
      var x := xs[|xs| - 1];
      GroupSumWeighted(xs[..|xs| - 1], key, val, proj, w, p);
      UpsertWeighted(GroupSum(xs[..|xs| - 1], key, val), key(x), val(x), proj, w, p);
    }
  }

  lemma {:induction false} WeightedAppend<K, P>(a: seq<Entry<K, int>>, b: seq<Entry<K, int>>, proj: K -> P, w: K -> int, p: P)
    ensures Weighted(a + b, proj, w, p) == Weighted(a, proj, w, p) + Weighted(b, proj, w, p)
  {
    if a == [] {
      assert a + b == b;
    } else {
      assert (a + b)[0] == a[0] && (a + b)[1..] == a[1..] + b;
      WeightedAppend(a[1..], b, proj, w, p);
    }
  }

  /** A per-entry sum over a table is its `Weighted` regrouping, when the entry functions agree with `proj` and `w`. */
  lemma {:induction false} SumWhereIsWeighted<K, P>(t: seq<Entry<K, int>>, key: Entry<K, int> -> P, val: Entry<K, int> -> int,
                                                    proj: K -> P, w: K -> int, p: P)
    requires forall e :: key(e) == proj(e.key) && val(e) == w(e.key) * e.value
    ensures SumWhere(t, key, val, p) == Weighted(t, proj, w, p)
  {
    if t != [] {
      var prefix, e := t[..|t| - 1], t[|t| - 1];
      SumWhereIsWeighted(prefix, key, val, proj, w, p);
      assert t == prefix + [e];
      WeightedAppend(prefix, [e], proj, w, p);
    }
  }

  /** `RowsWeighted` is a plain per-group sum, when its functions compose into `key` and `val`. */
  lemma {:induction false} RowsWeightedIsSumWhere<T, K, P>(xs: seq<T>, key: T -> K, val: T -> int, proj: K -> P, w: K -> int,
                                                           key': T -> P, val': T -> int, p: P)
    requires forall x :: proj(key(x)) == key'(x) && w(key(x)) * val(x) == val'(x)
    ensures RowsWeighted(xs, key, val, proj, w, p) == SumWhere(xs, key', val', p)
  {
    if xs != [] {
      RowsWeightedIsSumWhere(xs[..|xs| - 1], key, val, proj, w, key', val', p);
    }
  }

  // ---------------------------------------------------------------
  // aggfunc='max' on a column of strings
  // ---------------------------------------------------------------

  /** The greatest `val(x)` over the `x` in `xs` with `key(x) == k`, if any: the per-group reference. */
  function MaxWhere<T, K(==)>(xs: seq<T>, key: T -> K, val: T -> string, k: K): Option<string> {
    if xs == [] then None
    else
      var m, x := MaxWhere(xs[..|xs| - 1], key, val, k), xs[|xs| - 1];
      if key(x) != k then m
      else if m.Some? then Some(Lex.Max(m.value, val(x)))
      else Some(val(x))
  }

  /** `MaxWhere` is absent exactly for an empty group; otherwise it is a member's value and bounds them all. */
  lemma {:induction false} MaxWhereSpec<T, K>(xs: seq<T>, key: T -> K, val: T -> string, k: K)
    ensures MaxWhere(xs, key, val, k).Some? <==> exists x :: x in xs && key(x) == k
    ensures MaxWhere(xs, key, val, k).Some? ==>
      (exists x :: x in xs && key(x) == k && val(x) == MaxWhere(xs, key, val, k).value) &&
      (forall x :: x in xs && key(x) == k ==> Lex.LessEq(val(x), MaxWhere(xs, key, val, k).value))
  {
    if xs != [] {
      var prefix, x := xs[..|xs| - 1], xs[|xs| - 1];
      MaxWhereSpec(prefix, key, val, k);
      assert forall y :: y in xs <==> y in prefix || y == x by {
        assert xs == prefix + [x];
      }
      var m0, m := MaxWhere(prefix, key, val, k), MaxWhere(xs, key, val, k);
      if key(x) == k && m0.Some? {
        forall y | y in xs && key(y) == k ensures Lex.LessEq(val(y), m.value) {
          if y in prefix {
            Lex.LessEqTransitive(val(y), m0.value, m.value);
          }
        }
        if m.value == m0.value {
          var y :| y in prefix && key(y) == k && val(y) == m0.value;
          assert y in xs;
        }
      }
    }
  }

  /** `pivot_table(index=key, values=val, aggfunc='max')`. */
  function GroupMax<T, K(==)>(xs: seq<T>, key: T -> K, val: T -> string): seq<Entry<K, string>> {
    if xs == [] then []
    else
      var x := xs[|xs| - 1];
      Upsert(GroupMax(xs[..|xs| - 1], key, val), key(x), val(x), Lex.Max)
  }

  /** The max table holds, under each key, the group's maximum, and nothing under other keys. */
  lemma {:induction false} GroupMaxSpec<T, K>(xs: seq<T>, key: T -> K, val: T -> string)
    ensures DistinctKeys(GroupMax(xs, key, val))
    ensures forall k :: Find(GroupMax(xs, key, val), k) == MaxWhere(xs, key, val, k)
  {
    if xs != [] {
      var prefix, x := xs[..|xs| - 1], xs[|xs| - 1];
      GroupMaxSpec(prefix, key, val);
      UpsertDistinct(GroupMax(prefix, key, val), key(x), val(x), Lex.Max);
      UpsertFind(GroupMax(prefix, key, val), key(x), val(x), Lex.Max);
    }
  }

  // ---------------------------------------------------------------
  // sort_values(by=value, ascending=False)
  // ---------------------------------------------------------------

  predicate NonIncreasing<K>(t: seq<Entry<K, int>>) {
    forall i, j :: 0 <= i < j < |t| ==> t[i].value >= t[j].value
  }

  /** An entry at least as large as every entry of a sorted table can go in front of it. */
  lemma Prepend<K>(h: Entry<K, int>, r: seq<Entry<K, int>>)
    requires NonIncreasing(r)
    requires forall x :: x in r ==> x.value <= h.value
    ensures NonIncreasing([h] + r)
  {
    forall i, j | 0 <= i < j < |[h] + r| ensures ([h] + r)[i].value >= ([h] + r)[j].value {
      assert ([h] + r)[j] == r[j - 1];
      if i > 0 {
        assert ([h] + r)[i] == r[i - 1];
      }
    }
  }

  /** The head of a sorted table is its largest value. */
  lemma HeadIsMax<K>(t: seq<Entry<K, int>>)
    requires NonIncreasing(t) && t != []
    ensures forall x :: x in t ==> x.value <= t[0].value
  {
    forall x | x in t ensures x.value <= t[0].value {
      var j :| 0 <= j < |t| && t[j] == x;
    }
  }

  /** A bound on the values of a table holds for every permutation of it. */
  lemma PermutationBound<K>(r: seq<Entry<K, int>>, s: seq<Entry<K, int>>, bound: int)
    requires multiset(r) == multiset(s)
    requires forall x :: x in s ==> x.value <= bound
    ensures forall x :: x in r ==> x.value <= bound
  {
    forall x | x in r ensures x.value <= bound {
      assert x in multiset(r);
      assert x in multiset(s);
    }
  }

  function Insert<K>(e: Entry<K, int>, t: seq<Entry<K, int>>): (r: seq<Entry<K, int>>)
    requires NonIncreasing(t)
    ensures NonIncreasing(r)
    ensures multiset(r) == multiset(t) + multiset{e}
  {
    if t == [] || t[0].value <= e.value then
      if t != [] then HeadIsMax(t); Prepend(e, t); [e] + t
      else Prepend(e, t); [e] + t
    else
      var h, rest := t[0], t[1..];
      assert t == [h] + rest;
      HeadIsMax(t);
      var r' := Insert(e, rest);
      assert multiset(r') == multiset(rest + [e]);
      PermutationBound(r', rest + [e], h.value);
      Prepend(h, r');
      [h] + r'
  }

  /** A descending sort by value; entries with equal values may come in any order in the source. */
  function SortDesc<K>(t: seq<Entry<K, int>>): (r: seq<Entry<K, int>>)
    ensures NonIncreasing(r)
    ensures multiset(r) == multiset(t)
  {
    if t == [] then []
    else
      assert t == [t[0]] + t[1..];
      Insert(t[0], SortDesc(t[1..]))
  }

  /** Sorting keeps exactly the entries it was given. */
  lemma SortDescEntries<K>(t: seq<Entry<K, int>>)
    ensures forall e :: e in SortDesc(t) <==> e in t
  {
    var r := SortDesc(t);
    forall e ensures e in r <==> e in t {
      assert e in r <==> e in multiset(r);
      assert e in t <==> e in multiset(t);
    }
  }

  /** With one entry per key, no entry occurs twice. */
  lemma {:induction false} OnceEach<K, V>(t: seq<Entry<K, V>>, e: Entry<K, V>)
    requires DistinctKeys(t)
    ensures multiset(t)[e] <= 1
  {
    if t != [] {
      assert t == [t[0]] + t[1..];
      OnceEach(t[1..], e);
      if t[0] == e {
        assert e !in t[1..] by {
          forall j | 0 <= j < |t[1..]| ensures t[1..][j] != e {
            assert t[j + 1].key != t[0].key;
          }
        }
      }
    }
  }

  /** An entry at two positions occurs at least twice. */
  lemma TwiceCounted<T>(r: seq<T>, i: nat, j: nat)
    requires i < j < |r| && r[i] == r[j]
    ensures multiset(r)[r[i]] >= 2
  {
    assert r == r[..j] + r[j..];
    assert r[i] in r[..j] && r[j] in r[j..];
  }

  /** A rearrangement of a table with one entry per key still has one entry per key. */
  lemma PermutationDistinct<K, V>(t: seq<Entry<K, V>>, r: seq<Entry<K, V>>)
    requires DistinctKeys(t) && multiset(r) == multiset(t)
    ensures DistinctKeys(r)
  {
    forall i, j | 0 <= i < j < |r| ensures r[i].key != r[j].key {
      if r[i].key == r[j].key {
        assert r[i] in multiset(t) && r[j] in multiset(t);
        FindDistinct(t, r[i]);
        FindDistinct(t, r[j]);
        TwiceCounted(r, i, j);
        OnceEach(t, r[i]);
      }
    }
  }

  /** Sorting a table with one entry per key keeps one entry per key. */
  lemma SortDescDistinct<K>(t: seq<Entry<K, int>>)
    requires DistinctKeys(t)
    ensures DistinctKeys(SortDesc(t))
  {
    PermutationDistinct(t, SortDesc(t));
  }

  /** Sorting keeps the set of keys. */
  lemma SortDescKeys<K>(t: seq<Entry<K, int>>)
    ensures Keys(SortDesc(t)) == Keys(t)
  {
    var r := SortDesc(t);
    forall k ensures k in Keys(r) <==> k in Keys(t) {
      if k in Keys(r) {
        var e :| e in r && e.key == k;
        assert e in multiset(r);
      }
      if k in Keys(t) {
        var e :| e in t && e.key == k;
        assert e in multiset(t);
      }
    }
    assert Keys(r) == Keys(t);
  }

}

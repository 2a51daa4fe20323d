/** The two list/dict idioms the turn engine relies on: grouping with
    `d.setdefault(key, []).append(value)` on an insertion-ordered dict, and `list.remove(x)`. */
module Collections {
  /** An insertion-ordered dict of lists, as its list of `(key, values)` entries. */
  type Groups<K, V> = seq<(K, seq<V>)>

  /** The keys of the entries, in order. */
  function Keys<K, V>(g: Groups<K, V>): (r: seq<K>)
    ensures |r| == |g| && forall i :: 0 <= i < |g| ==> r[i] == g[i].0
  {
    if g == [] then [] else [g[0].0] + Keys(g[1..])
  }

  /** `d.setdefault(key, []).append(value)`: the entry of an existing key grows in place, a new
      key gets a new last entry. */
  function AddTo<K(==), V>(g: Groups<K, V>, key: K, value: V): Groups<K, V>
  {
    if key in Keys(g) then
      var i := IndexOf(Keys(g), key);
      g[i := (key, g[i].1 + [value])]
    else
      g + [(key, [value])]
  }

  /** The dict a `for` loop of `setdefault(...).append(...)` calls builds from `pairs`, in order. */
  function GroupBy<K(==), V>(pairs: seq<(K, V)>): Groups<K, V>
  {
    if pairs == [] then [] else AddTo(GroupBy(pairs[..|pairs| - 1]), pairs[|pairs| - 1].0, pairs[|pairs| - 1].1)
  }

  /** The values paired with `key`, in order. */
  function Select<K(==), V>(pairs: seq<(K, V)>, key: K): seq<V>
  {
    if pairs == [] then []
    else Select(pairs[..|pairs| - 1], key) + (if pairs[|pairs| - 1].0 == key then [pairs[|pairs| - 1].1] else [])
  }

  ghost predicate DistinctKeys<K, V>(g: Groups<K, V>)
  {
    forall i, j :: 0 <= i < j < |g| ==> g[i].0 != g[j].0
  }

  /** The entries of a grouping agree with `pairs`: one entry per key that occurs, holding exactly
      that key's values in order. */
  ghost predicate Grouping<K, V>(pairs: seq<(K, V)>, g: Groups<K, V>)
  {
    DistinctKeys(g) &&
    (forall i :: 0 <= i < |g| ==> g[i].1 == Select(pairs, g[i].0) && g[i].1 != []) &&
    (forall i :: 0 <= i < |pairs| ==> pairs[i].0 in Keys(g))
  }

  /** Appending a value under a key keeps the entries a grouping of the extended pairs. */
  lemma AddToGroups<K, V>(pairs: seq<(K, V)>, g: Groups<K, V>, key: K, value: V)
    requires Grouping(pairs, g)
    ensures Grouping(pairs + [(key, value)], AddTo(g, key, value))
  {
    var pairs' := pairs + [(key, value)];
    var g' := AddTo(g, key, value);
    AddToShape(g, key, value);
    forall i | 0 <= i < |g'| ensures g'[i].1 == Select(pairs', g'[i].0) && g'[i].1 != [] {
      SelectAppend(pairs, (key, value), g'[i].0);
      if key !in Keys(g) && i == |g| {
        forall j | 0 <= j < |pairs| ensures pairs[j].0 != key {
          assert pairs[j].0 in Keys(g);
        }
        SelectAbsent(pairs, key);
      }
    }
    forall i | 0 <= i < |pairs'| ensures pairs'[i].0 in Keys(g') {
      var k := pairs'[i].0;
      if k in Keys(g) {
        var j := IndexOf(Keys(g), k);
        assert g'[j].0 == k;
        assert Keys(g')[j] == k;
      } else {
        assert i == |pairs|;
        assert Keys(g')[|g|] == k;
      }
    }
  }

  lemma SelectAppend<K, V>(pairs: seq<(K, V)>, p: (K, V), k: K)
    ensures Select(pairs + [p], k) == Select(pairs, k) + (if p.0 == k then [p.1] else [])
  {
    assert (pairs + [p])[..|pairs + [p]| - 1] == pairs;
  }

  lemma {:induction false} SelectAbsent<K, V>(pairs: seq<(K, V)>, k: K)
    requires forall j :: 0 <= j < |pairs| ==> pairs[j].0 != k
    ensures Select(pairs, k) == []
    decreases |pairs|
  {
    if pairs != [] {
      SelectAbsent(pairs[..|pairs| - 1], k);
    }
  }

  /** How AddTo changes the entries: the entry of `key` grows by `value`, or a new last entry
      appears; every other entry stays where it was. */
  lemma AddToShape<K, V>(g: Groups<K, V>, key: K, value: V)
    requires DistinctKeys(g)
    ensures key in Keys(g) ==> |AddTo(g, key, value)| == |g|
    ensures key in Keys(g) ==>
              forall i :: 0 <= i < |g| ==>
                AddTo(g, key, value)[i] == if g[i].0 == key then (key, g[i].1 + [value]) else g[i]
    ensures key !in Keys(g) ==> AddTo(g, key, value) == g + [(key, [value])]
    ensures DistinctKeys(AddTo(g, key, value))
    ensures forall i :: 0 <= i < |AddTo(g, key, value)| ==> AddTo(g, key, value)[i].0 in Keys(g) || AddTo(g, key, value)[i].0 == key
  {
    var g' := AddTo(g, key, value);
    if key in Keys(g) {
      var k := IndexOf(Keys(g), key);
      forall i | 0 <= i < |g| ensures g'[i] == if g[i].0 == key then (key, g[i].1 + [value]) else g[i] {
        if i != k {
          assert g[i].0 != g[k].0;
        }
      }
    } else {
      forall i | 0 <= i < |g| ensures g[i].0 != key {
        assert g[i].0 == Keys(g)[i];
      }
    }
  }

  /** GroupBy builds the grouping of its pairs: distinct keys, each with exactly its values in
      order, and every key that occurs. */
  lemma {:induction false} GroupByGroups<K, V>(pairs: seq<(K, V)>)
    ensures Grouping(pairs, GroupBy(pairs))
    decreases |pairs|
  {
    if pairs != [] {
      var init := pairs[..|pairs| - 1];
      assert init + [pairs[|pairs| - 1]] == pairs;
      GroupByGroups(init);
      AddToGroups(init, GroupBy(init), pairs[|pairs| - 1].0, pairs[|pairs| - 1].1);
    }
  }

  /** Every pair is counted once: the entries' value lists together are as long as `pairs`. */
  function TotalSize<K, V>(g: Groups<K, V>): nat
  {
    if g == [] then 0 else |g[0].1| + TotalSize(g[1..])
  }

  lemma {:induction false} AddToSize<K, V>(g: Groups<K, V>, key: K, value: V)
    ensures TotalSize(AddTo(g, key, value)) == TotalSize(g) + 1
    decreases |g|
  {
    if g != [] && g[0].0 != key {
      AddToSize(g[1..], key, value);
      assert AddTo(g, key, value)[1..] == AddTo(g[1..], key, value);
    } else if g != [] {
      assert AddTo(g, key, value)[1..] == g[1..];
    }
  }

  lemma {:induction false} GroupBySize<K, V>(pairs: seq<(K, V)>)
    ensures TotalSize(GroupBy(pairs)) == |pairs|
    decreases |pairs|
  {
    if pairs != [] {
      GroupBySize(pairs[..|pairs| - 1]);
      AddToSize(GroupBy(pairs[..|pairs| - 1]), pairs[|pairs| - 1].0, pairs[|pairs| - 1].1);
    }
  }

  /** `list.remove(x)`: drops the first occurrence of `x`; a list without `x` is left as it is. */
  function RemoveFirst<T(==)>(s: seq<T>, x: T): (r: seq<T>)
  {
    if s == [] then [] else if s[0] == x then s[1..] else [s[0]] + RemoveFirst(s[1..], x)
  }

  /** The position of the first occurrence of `x` in `s`. */
  function IndexOf<T(==)>(s: seq<T>, x: T): (i: nat)
    requires x in s
    ensures i < |s| && s[i] == x && x !in s[..i]
  {
    if s[0] == x then 0 else 1 + IndexOf(s[1..], x)
  }

  lemma {:induction false} RemoveFirstAbsent<T>(s: seq<T>, x: T)
    requires x !in s
    ensures RemoveFirst(s, x) == s
    decreases |s|
  {
    if s != [] {
      assert s[0] != x && x !in s[1..];
      RemoveFirstAbsent(s[1..], x);
    }
  }

  /** What RemoveFirst means: the list with exactly its first occurrence of `x` cut out. */
  lemma {:induction false} RemoveFirstCuts<T>(s: seq<T>, x: T)
    requires x in s
    ensures RemoveFirst(s, x) == s[..IndexOf(s, x)] + s[IndexOf(s, x) + 1..]
    decreases |s|
  {
    if s[0] != x {
      var t := s[1..];
      var i := IndexOf(t, x);
      RemoveFirstCuts(t, x);
      assert RemoveFirst(s, x) == [s[0]] + (t[..i] + t[i + 1..]);
      assert s[..i + 1] == [s[0]] + t[..i];
      assert s[i + 2..] == t[i + 1..];
    }
  }

  /** So removing takes exactly one `x` out of the multiset of elements. */
  lemma RemoveFirstCount<T>(s: seq<T>, x: T)
    requires x in s
    ensures multiset(RemoveFirst(s, x)) == multiset(s) - multiset{x}
  {
    RemoveFirstCuts(s, x);
    var i := IndexOf(s, x);
    assert s == s[..i] + [x] + s[i + 1..];
  }

  /** The elements of `s` not in `gone`, in order. */
  function Keep<T>(s: seq<T>, gone: set<T>): (r: seq<T>)
    ensures forall i :: 0 <= i < |r| ==> r[i] in s && r[i] !in gone
    ensures forall i :: 0 <= i < |s| ==> (s[i] in r <==> s[i] !in gone)
  {
    if s == [] then [] else (if s[0] in gone then [] else [s[0]]) + Keep(s[1..], gone)
  }

  ghost predicate NoDuplicates<T>(s: seq<T>)
  {
    forall i, j :: 0 <= i < j < |s| ==> s[i] != s[j]
  }

  lemma {:induction false} KeepNoDuplicates<T>(s: seq<T>, gone: set<T>)
    requires NoDuplicates(s)
    ensures NoDuplicates(Keep(s, gone))
    decreases |s|
  {
    if s != [] {
      KeepNoDuplicates(s[1..], gone);
      assert s[0] !in s[1..];
    }
  }

  /** On a list without duplicates, removing one more element is keeping one fewer. */
  lemma {:induction false} RemoveFirstKeep<T>(s: seq<T>, gone: set<T>, x: T)
    requires NoDuplicates(s)
    ensures RemoveFirst(Keep(s, gone), x) == Keep(s, gone + {x})
    decreases |s|
  {
    if s != [] {
      assert NoDuplicates(s[1..]) by {
        forall i, j | 0 <= i < j < |s[1..]| ensures s[1..][i] != s[1..][j] {
          assert s[1..][i] == s[i + 1] && s[1..][j] == s[j + 1];
        }
      }
      RemoveFirstKeep(s[1..], gone, x);
      var k := Keep(s[1..], gone);
      if s[0] in gone {
        assert Keep(s, gone) == k;
      } else if s[0] == x {
        assert Keep(s, gone) == [x] + k;
        assert x !in s[1..] by {
          forall i | 0 <= i < |s[1..]| ensures s[1..][i] != x {
            assert s[1..][i] == s[i + 1];
          }
        }
        KeepUnchanged(s[1..], gone, x);
      } else {
        assert Keep(s, gone) == [s[0]] + k;
        assert ([s[0]] + k)[1..] == k;
      }
    }
  }

  lemma {:induction false} KeepUnchanged<T>(s: seq<T>, gone: set<T>, x: T)
    requires x !in s
    ensures Keep(s, gone + {x}) == Keep(s, gone)
    decreases |s|
  {
    if s != [] {
      KeepUnchanged(s[1..], gone, x);
    }
  }

  /** The values Select collects under `k` are exactly those paired with `k`. */
  lemma {:induction false} SelectMember<K, V>(pairs: seq<(K, V)>, k: K, v: V)
    ensures v in Select(pairs, k) <==> exists i :: 0 <= i < |pairs| && pairs[i] == (k, v)
    decreases |pairs|
  {
    if pairs != [] {
      var init := pairs[..|pairs| - 1];
      SelectMember(init, k, v);
      if exists i :: 0 <= i < |init| && init[i] == (k, v) {
        var i :| 0 <= i < |init| && init[i] == (k, v);
        assert pairs[i] == (k, v);
      }
      if exists i :: 0 <= i < |pairs| && pairs[i] == (k, v) {
        var i :| 0 <= i < |pairs| && pairs[i] == (k, v);
        if i < |init| {
          assert init[i] == (k, v);
        }
      }
    }
  }

  /** A key paired only once selects just its one value. */
  lemma {:induction false} SelectSingle<K, V>(pairs: seq<(K, V)>, i: nat)
    requires i < |pairs|
    requires forall j :: 0 <= j < |pairs| && j != i ==> pairs[j].0 != pairs[i].0
    ensures Select(pairs, pairs[i].0) == [pairs[i].1]
    decreases |pairs|
  {
    var init := pairs[..|pairs| - 1];
    if i == |pairs| - 1 {
      SelectAbsent(init, pairs[i].0);
    } else {
      assert init[i] == pairs[i];
      SelectSingle(init, i);
    }
  }

  /** Keeping distributes over concatenation. */
  lemma {:induction false} KeepAppend<T>(s: seq<T>, t: seq<T>, gone: set<T>)
    ensures Keep(s + t, gone) == Keep(s, gone) + Keep(t, gone)
    decreases |s|
  {
    if s == [] {
      assert s + t == t;
    } else {
      var head := if s[0] in gone then [] else [s[0]];
      calc {
        Keep(s + t, gone);
      == { assert (s + t)[0] == s[0] && (s + t)[1..] == s[1..] + t; }
        head + Keep(s[1..] + t, gone);
      == { KeepAppend(s[1..], t, gone); }
        head + (Keep(s[1..], gone) + Keep(t, gone));
      ==
        (head + Keep(s[1..], gone)) + Keep(t, gone);
      }
    }
  }

  /** Keeping preserves order: of two kept elements, the earlier one stays earlier. */
  lemma KeepOrder<T>(s: seq<T>, gone: set<T>, i: nat, j: nat)
    requires i < j < |s| && s[i] !in gone && s[j] !in gone
    ensures var r := Keep(s, gone); exists k, l :: 0 <= k < l < |r| && r[k] == s[i] && r[l] == s[j]
  {
    var front, back := s[..j], s[j..];
    assert s == front + back;
    KeepAppend(front, back, gone);
    var kf, kb := Keep(front, gone), Keep(back, gone);
    assert front[i] == s[i] && back[0] == s[j];
    var k :| 0 <= k < |kf| && kf[k] == s[i];
    var l :| 0 <= l < |kb| && kb[l] == s[j];
    assert (kf + kb)[k] == s[i] && (kf + kb)[|kf| + l] == s[j];
  }

  /** Everything kept was in the list and is not gone. */
  lemma KeepMembers<T>(s: seq<T>, gone: set<T>)
    ensures forall x :: x in Keep(s, gone) ==> x in s && x !in gone
  {
    forall x | x in Keep(s, gone) ensures x in s && x !in gone {
      var i :| 0 <= i < |Keep(s, gone)| && Keep(s, gone)[i] == x;
    }
  }

  /** Keeping with nothing gone keeps everything. */
  lemma {:induction false} KeepNothing<T>(s: seq<T>)
    ensures Keep(s, {}) == s
    decreases |s|
  {
    if s != [] {
      KeepNothing(s[1..]);
    }
  }

  /** A list without duplicates, split in two: each half is without duplicates and they share
      nothing. */
  lemma NoDuplicatesSplit<T>(s: seq<T>, t: seq<T>)
    requires NoDuplicates(s + t)
    ensures NoDuplicates(s) && NoDuplicates(t)
    ensures forall x :: x in s ==> x !in t
  {
    assert forall i :: 0 <= i < |s| ==> (s + t)[i] == s[i];
    assert forall i :: 0 <= i < |t| ==> (s + t)[|s| + i] == t[i];
  }

  /** The values listed in `s`. */
  ghost function Members<V>(s: seq<V>): set<V>
  {
    set x | x in s
  }

  /** Extending a sequence by one value adds exactly that value to its members. */
  lemma MembersAppend<V>(s: seq<V>, x: V)
    ensures Members(s + [x]) == Members(s) + {x}
  {
    var t := s + [x];
    assert t[|s|] == x;
    forall y | y in Members(s)
      ensures y in Members(t)
    {
      var j :| 0 <= j < |s| && s[j] == y;
      assert t[j] == y;
    }
  }

  /** The values of the first `k` entries of a grouping that list more than one value. */
  ghost function Crowded<K, V>(g: Groups<K, V>, k: nat): set<V>
    requires k <= |g|
  {
    if k == 0 then {} else Crowded(g, k - 1) + (if |g[k - 1].1| > 1 then Members(g[k - 1].1) else {})
  }

  /** No value is paired twice. */
  ghost predicate DistinctValues<K, V>(pairs: seq<(K, V)>)
  {
    forall i, j :: 0 <= i < j < |pairs| ==> pairs[i].1 != pairs[j].1
  }

  /** The values of `pairs` whose key another pair shares. */
  ghost function Shared<K, V>(pairs: seq<(K, V)>): set<V>
  {
    set i | 0 <= i < |pairs| && (exists j :: 0 <= j < |pairs| && j != i && pairs[j].0 == pairs[i].0) :: pairs[i].1
  }

  lemma {:induction false} CrowdedMember<K, V>(g: Groups<K, V>, k: nat, v: V)
    requires k <= |g|
    ensures v in Crowded(g, k) <==> exists a :: 0 <= a < k && |g[a].1| > 1 && v in g[a].1
  {
    if k > 0 {
      CrowdedMember(g, k - 1, v);
    }
  }

  /** A value of a crowded entry shares its key with another pair. */
  lemma CrowdedShared<K, V>(pairs: seq<(K, V)>, v: V)
    requires v in Crowded(GroupBy(pairs), |GroupBy(pairs)|)
    ensures v in Shared(pairs)
  {
    var g := GroupBy(pairs);
    GroupByGroups(pairs);
    CrowdedMember(g, |g|, v);
    var a :| 0 <= a < |g| && |g[a].1| > 1 && v in g[a].1;
    var key := g[a].0;
    SelectMember(pairs, key, v);
    var i :| 0 <= i < |pairs| && pairs[i] == (key, v);
    if forall j' :: 0 <= j' < |pairs| && j' != i ==> pairs[j'].0 != pairs[i].0 {
      SelectSingle(pairs, i);
      assert false;
    }
  }

  /** A list holding two different values has more than one element. */
  lemma TwoMembers<V>(s: seq<V>, x: V, y: V)
    requires x in s && y in s && x != y
    ensures |s| > 1
  {
  }

  /** With distinct values, a value whose key another pair shares is in a crowded entry. */
  lemma SharedCrowded<K, V>(pairs: seq<(K, V)>, v: V)
    requires DistinctValues(pairs)
    requires v in Shared(pairs)
    ensures v in Crowded(GroupBy(pairs), |GroupBy(pairs)|)
  {
    var g := GroupBy(pairs);
    var i, j' :| 0 <= i < |pairs| && 0 <= j' < |pairs| && j' != i && pairs[j'].0 == pairs[i].0 && pairs[i].1 == v;
    var key := pairs[i].0;
    GroupByGroups(pairs);
    assert key in Keys(g);
    var a := IndexOf(Keys(g), key);
    assert g[a].1 == Select(pairs, key);
    SelectMember(pairs, key, pairs[i].1);
    SelectMember(pairs, key, pairs[j'].1);
    assert pairs[i] == (key, pairs[i].1);
    assert pairs[j'] == (key, pairs[j'].1);
    TwoMembers(g[a].1, pairs[i].1, pairs[j'].1);
    CrowdedMember(g, |g|, v);
  }

  /** With distinct values, the values of the entries listing more than one value are exactly
      the values whose key is shared. */
  lemma CrowdedIsShared<K, V>(pairs: seq<(K, V)>)
    requires DistinctValues(pairs)
    ensures Crowded(GroupBy(pairs), |GroupBy(pairs)|) == Shared(pairs)
  {
    forall v | v in Crowded(GroupBy(pairs), |GroupBy(pairs)|) ensures v in Shared(pairs) {
      CrowdedShared(pairs, v);
    }
    forall v | v in Shared(pairs) ensures v in Crowded(GroupBy(pairs), |GroupBy(pairs)|) {
      SharedCrowded(pairs, v);
    }
  }

  /** Every value of a grouping comes from the pairs. */
  lemma GroupedFrom<K, V>(pairs: seq<(K, V)>, a: nat, v: V)
    requires a < |GroupBy(pairs)| && v in GroupBy(pairs)[a].1
    ensures exists i :: 0 <= i < |pairs| && pairs[i].1 == v
  {
    GroupByGroups(pairs);
    SelectMember(pairs, GroupBy(pairs)[a].0, v);
  }

  /** The pairs whose value is not in `gone`, in order: deleting those values' entries from an
      insertion-ordered dict. */
  function Drop<K, V>(pairs: seq<(K, V)>, gone: set<V>): (r: seq<(K, V)>)
    ensures forall i :: 0 <= i < |r| ==> r[i] in pairs && r[i].1 !in gone
    ensures forall i :: 0 <= i < |pairs| && pairs[i].1 !in gone ==> pairs[i] in r
    decreases |pairs|
  {
    if pairs == [] then []
    else Drop(pairs[..|pairs| - 1], gone) + (if pairs[|pairs| - 1].1 in gone then [] else [pairs[|pairs| - 1]])
  }

  /** Dropping values keeps the remaining values distinct. */
  lemma {:induction false} DropDistinct<K, V>(pairs: seq<(K, V)>, gone: set<V>)
    requires DistinctValues(pairs)
    ensures DistinctValues(Drop(pairs, gone))
    decreases |pairs|
  {
    if pairs != [] {
      var init := pairs[..|pairs| - 1];
      DropDistinct(init, gone);
      var last := pairs[|pairs| - 1];
      forall i | 0 <= i < |Drop(init, gone)| ensures Drop(init, gone)[i].1 != last.1 {
        var j :| 0 <= j < |init| && init[j] == Drop(init, gone)[i];
        assert pairs[j] == init[j];
      }
    }
  }

  /** Dropping nothing keeps every pair. */
  lemma {:induction false} DropNothing<K, V>(pairs: seq<(K, V)>)
    ensures Drop(pairs, {}) == pairs
    decreases |pairs|
  {
    if pairs != [] {
      DropNothing(pairs[..|pairs| - 1]);
      assert pairs[..|pairs| - 1] + [pairs[|pairs| - 1]] == pairs;
    }
  }

  /** Dropping in two rounds is dropping both sets at once. */
  lemma {:induction false} DropDrop<K, V>(pairs: seq<(K, V)>, a: set<V>, b: set<V>)
    ensures Drop(Drop(pairs, a), b) == Drop(pairs, a + b)
    decreases |pairs|
  {
    if pairs != [] {
      var init := pairs[..|pairs| - 1];
      var last := pairs[|pairs| - 1];
      DropDrop(init, a, b);
      var d := Drop(init, a);
      if last.1 !in a {
        assert Drop(pairs, a) == d + [last];
        assert (d + [last])[..|d|] == d;
      } else {
        assert Drop(pairs, a) == d;
      }
    }
  }

  /** Dropping distributes over concatenation. */
  lemma {:induction false} DropAppend<K, V>(p: seq<(K, V)>, q: seq<(K, V)>, gone: set<V>)
    ensures Drop(p + q, gone) == Drop(p, gone) + Drop(q, gone)
    decreases |q|
  {
    if q == [] {
      assert p + q == p;
    } else {
      var init := q[..|q| - 1];
      DropAppend(p, init, gone);
      assert (p + q)[..|p + q| - 1] == p + init && (p + q)[|p + q| - 1] == q[|q| - 1];
    }
  }

  /** Dropping preserves order: of two pairs that stay, the earlier one stays earlier. */
  lemma DropOrder<K, V>(pairs: seq<(K, V)>, gone: set<V>, i: nat, j: nat)
    requires i < j < |pairs| && pairs[i].1 !in gone && pairs[j].1 !in gone
    ensures var r := Drop(pairs, gone); exists k, l :: 0 <= k < l < |r| && r[k] == pairs[i] && r[l] == pairs[j]
  {
    var front, back := pairs[..j], pairs[j..];
    assert pairs == front + back;
    DropAppend(front, back, gone);
    var df, db := Drop(front, gone), Drop(back, gone);
    assert front[i] == pairs[i] && back[0] == pairs[j];
    var k :| 0 <= k < |df| && df[k] == pairs[i];
    var l :| 0 <= l < |db| && db[l] == pairs[j];
    var r := df + db;
    assert r[k] == df[k] && r[|df| + l] == db[l];
  }

  /** A value of one of two lists survives keeping in both exactly when it is not gone. */
  lemma KeepSplit<T>(s1: seq<T>, s2: seq<T>, gone: set<T>, x: T)
    requires x in s1 + s2
    ensures x in Keep(s1, gone) + Keep(s2, gone) <==> x !in gone
  {
    KeepMembers(s1, gone);
    KeepMembers(s2, gone);
    if x in s1 {
      var i :| 0 <= i < |s1| && s1[i] == x;
    } else {
      var i :| 0 <= i < |s2| && s2[i] == x;
    }
  }
}

/** Filling a dictionary in a loop that refuses a repeated key. */
module Dicts {
  import opened Text

  type Items<V> = seq<(string, V)>

  /** The dictionary built from the items read so far, or None once a
      key repeats. */
  function PairsDict<V>(items: Items<V>): Option<map<string, V>> {
    if items == [] then Some(map[]) else
      var before := PairsDict(items[..|items| - 1]);
      var (k, v) := items[|items| - 1];
      if before.None? || k in before.value then None else Some(before.value[k := v])
  }

  predicate DistinctKeys<V>(items: Items<V>) {
    forall i, j :: 0 <= i < j < |items| ==> items[i].0 != items[j].0
  }

  predicate HasKey<V>(items: Items<V>, k: string) {
    exists i :: 0 <= i < |items| && items[i].0 == k
  }

  /** The entries of m are exactly the items. */
  ghost predicate Entries<V>(items: Items<V>, m: map<string, V>) {
    && (forall i :: 0 <= i < |items| ==> items[i].0 in m && m[items[i].0] == items[i].1)
    && (forall k :: k in m ==> HasKey(items, k))
  }

  lemma EntriesSnoc<V>(items: Items<V>, m: map<string, V>, k: string, v: V)
    requires Entries(items, m) && k !in m
    ensures Entries(items + [(k, v)], m[k := v])
  {
    var all := items + [(k, v)];
    forall x | x in m[k := v] ensures HasKey(all, x) {
      if x == k {
        assert all[|items|].0 == k;
      } else {
        var i :| 0 <= i < |items| && items[i].0 == x;
        assert all[i].0 == x;
      }
    }
  }

  lemma DistinctSnoc<V>(items: Items<V>, x: (string, V))
    ensures DistinctKeys(items + [x]) <==> DistinctKeys(items) && !HasKey(items, x.0)
  {
    var all := items + [x];
    assert forall i :: 0 <= i < |items| ==> all[i] == items[i];
    if HasKey(items, x.0) {
      var i :| 0 <= i < |items| && items[i].0 == x.0;
      assert all[i].0 == all[|items|].0;
    }
  }

  /** Building is fixed by the items: it fails exactly on a repeated key, and
      otherwise its entries are exactly the items. */
  lemma {:induction false} PairsExact<V>(items: Items<V>)
    ensures PairsDict(items).Some? <==> DistinctKeys(items)
    ensures PairsDict(items).Some? ==> Entries(items, PairsDict(items).value)
  {
    if items != [] {
      var front := items[..|items| - 1];
      var x := items[|items| - 1];
      assert items == front + [x];
      PairsExact(front);
      DistinctSnoc(front, x);
      if PairsDict(front).Some? {
        var m := PairsDict(front).value;
        assert x.0 in m <==> HasKey(front, x.0);
        if x.0 !in m {
          EntriesSnoc(front, m, x.0, x.1);
        }
      }
    }
  }

  /** Entries determine the dictionary. */
  lemma EntriesUnique<V>(items: Items<V>, m: map<string, V>, n: map<string, V>)
    requires Entries(items, m) && Entries(items, n)
    ensures m == n
  {
    forall k ensures k in m <==> k in n {
      if HasKey(items, k) {
        var i :| 0 <= i < |items| && items[i].0 == k;
      }
    }
    forall k | k in m ensures m[k] == n[k] {
      var i :| 0 <= i < |items| && items[i].0 == k;
    }
  }

  /** The dictionary does not depend on the order in which it was filled. */
  lemma InsertionOrderIrrelevant<V>(a: Items<V>, b: Items<V>)
    requires multiset(a) == multiset(b) && DistinctKeys(a)
    ensures PairsDict(a).Some? && PairsDict(b) == PairsDict(a)
  {
    PairsExact(a);
    PairsExact(b);
    PermutedDistinct(a, b);
    var m := PairsDict(a).value;
    forall i | 0 <= i < |b| ensures b[i].0 in m && m[b[i].0] == b[i].1 {
      assert b[i] in multiset(b);
      assert b[i] in a;
    }
    forall k | k in m ensures HasKey(b, k) {
      var i :| 0 <= i < |a| && a[i].0 == k;
      assert a[i] in multiset(a);
      assert a[i] in b;
    }
    EntriesUnique(b, PairsDict(b).value, m);
  }

  lemma PermutedDistinct<V>(a: Items<V>, b: Items<V>)
    requires multiset(a) == multiset(b) && DistinctKeys(a)
    ensures DistinctKeys(b)
  {
    forall i, j | 0 <= i < j < |b| && b[i].0 == b[j].0 ensures false {
      assert b[i] in multiset(b) && b[j] in multiset(b);
      assert b[i] in a && b[j] in a;
      var x := b[i];
      assert b[j] == x;
      assert b == b[..i] + [x] + b[i + 1..j] + [x] + b[j + 1..];
      assert multiset(b)[x] >= 2;
      OnceInDistinct(a, x);
    }
  }

  lemma OnceInDistinct<V>(a: Items<V>, x: (string, V))
    requires DistinctKeys(a) && x in a
    ensures multiset(a)[x] == 1
  {
    var i :| 0 <= i < |a| && a[i] == x;
    assert a == a[..i] + [x] + a[i + 1..];
    assert x !in a[..i] && x !in a[i + 1..];
  }
}

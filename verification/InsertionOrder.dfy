/** Python dictionaries keep the order in which they were filled, and
    json.dumps(sort_keys=True) sorts their items at every depth.  This module
    encodes values with that order and shows what sorting forgets. */
module InsertionOrder {
  import opened Text
  import opened Dicts
  import opened CanonicalJson
  import J = Json

  datatype Py =
    | PyNull
    | PyBool(b: bool)
    | PyInt(n: int)
    | PyFloat(text: J.FloatText)
    | PyStr(s: string)
    | PyList(elems: seq<Py>)
    | PyDict(items: seq<Item>)

  datatype Item = Item(key: string, value: Py)

  /** No dictionary at any depth holds a key twice. */
  predicate WellKeyed(v: Py) {
    match v
    case PyList(es) => forall i :: 0 <= i < |es| ==> WellKeyed(es[i])
    case PyDict(items) =>
      && (forall i, j :: 0 <= i < j < |items| ==> items[i].key != items[j].key)
      && (forall i :: 0 <= i < |items| ==> WellKeyed(items[i].value))
    case _ => true
  }

  // ------------------------------------------------------------------- dumps

  /** One insertion into members sorted by key. */
  function Insert(m: J.Member, ms: seq<J.Member>): seq<J.Member> {
    if ms == [] || Less(m.key, ms[0].key) then [m] + ms else [ms[0]] + Insert(m, ms[1..])
  }

  function SortMembers(ms: seq<J.Member>): seq<J.Member> {
    if ms == [] then [] else Insert(ms[0], SortMembers(ms[1..]))
  }

  function DumpDoc(v: Py): J.Doc
    decreases v, 1
  {
    match v
    case PyNull => J.Null
    case PyBool(b) => J.Bool(b)
    case PyInt(n) => J.Int(n)
    case PyFloat(t) => J.Float(t)
    case PyStr(s) => J.Str(s)
    case PyList(es) => J.Arr(DumpElems(es))
    case PyDict(items) => J.Obj(SortMembers(DumpItems(items)))
  }

  function DumpElems(es: seq<Py>): (r: seq<J.Doc>)
    ensures |r| == |es|
    decreases es, 0
  {
    if es == [] then [] else [DumpDoc(es[0])] + DumpElems(es[1..])
  }

  /** The members in insertion order, before sorting. */
  function DumpItems(items: seq<Item>): (r: seq<J.Member>)
    ensures |r| == |items|
    decreases items, 0
  {
    if items == [] then [] else [J.Member(items[0].key, DumpDoc(items[0].value))] + DumpItems(items[1..])
  }

  function Dumps(v: Py): string {
    J.Print(DumpDoc(v))
  }

  // --------------------------------------------------- forgetting the order

  /** Filling a dictionary; a later item replaces an earlier one. */
  function DictOf<V>(items: Items<V>): map<string, V> {
    if items == [] then map[] else
      var (k, v) := items[|items| - 1];
      DictOf(items[..|items| - 1])[k := v]
  }

  function Forget(v: Py): Value
    decreases v, 1
  {
    match v
    case PyNull => Null
    case PyBool(b) => Bool(b)
    case PyInt(n) => Int(n)
    case PyFloat(t) => Float(t)
    case PyStr(s) => Str(s)
    case PyList(es) => List(ForgetElems(es))
    case PyDict(items) => Dict(DictOf(ForgetItems(items)))
  }

  function ForgetElems(es: seq<Py>): (r: seq<Value>)
    ensures |r| == |es|
    decreases es, 0
  {
    if es == [] then [] else [Forget(es[0])] + ForgetElems(es[1..])
  }

  function ForgetItems(items: seq<Item>): (r: Items<Value>)
    ensures |r| == |items|
    decreases items, 0
  {
    if items == [] then [] else [(items[0].key, Forget(items[0].value))] + ForgetItems(items[1..])
  }

  lemma {:induction false} ForgetElemsAt(es: seq<Py>, i: nat)
    requires i < |es|
    ensures ForgetElems(es)[i] == Forget(es[i])
  {
    hide Forget;
    if i > 0 { ForgetElemsAt(es[1..], i - 1); }
  }

  lemma {:induction false} ForgetItemsAt(items: seq<Item>, i: nat)
    requires i < |items|
    ensures ForgetItems(items)[i] == (items[i].key, Forget(items[i].value))
  {
    hide Forget;
    if i > 0 { ForgetItemsAt(items[1..], i - 1); }
  }

  lemma {:induction false} DumpElemsAt(es: seq<Py>, i: nat)
    requires i < |es|
    ensures DumpElems(es)[i] == DumpDoc(es[i])
  {
    hide DumpDoc;
    if i > 0 { DumpElemsAt(es[1..], i - 1); }
  }

  lemma {:induction false} DumpItemsAt(items: seq<Item>, i: nat)
    requires i < |items|
    ensures DumpItems(items)[i] == J.Member(items[i].key, DumpDoc(items[i].value))
  {
    hide DumpDoc;
    if i > 0 { DumpItemsAt(items[1..], i - 1); }
  }

  /** Without a repeated key, the entries are exactly the items. */
  lemma {:induction false} DictOfEntries<V>(items: Items<V>)
    requires DistinctKeys(items)
    ensures Entries(items, DictOf(items)) && |DictOf(items)| == |items|
  {
    if items != [] {
      var front, x := items[..|items| - 1], items[|items| - 1];
      assert items == front + [x];
      DistinctSnoc(front, x);
      DictOfEntries(front);
      assert x.0 !in DictOf(front);
      EntriesSnoc(front, DictOf(front), x.0, x.1);
    }
  }

  /** The entries of m are exactly the items, without their order. */
  ghost predicate Filled(items: seq<Item>, m: map<string, Value>) {
    && |m| == |items|
    && (forall i :: 0 <= i < |items| ==> items[i].key in m && m[items[i].key] == Forget(items[i].value))
    && (forall k :: k in m ==> HasItem(items, k))
  }

  lemma ForgottenDict(items: seq<Item>)
    requires WellKeyed(PyDict(items))
    ensures Filled(items, DictOf(ForgetItems(items)))
  {
    hide Forget;
    var its := ForgetItems(items);
    forall i | 0 <= i < |items| ensures its[i] == (items[i].key, Forget(items[i].value)) { ForgetItemsAt(items, i); }
    assert DistinctKeys(its);
    DictOfEntries(its);
    hide DictOf;
    var m := DictOf(its);
    forall i | 0 <= i < |items| ensures items[i].key in m && m[items[i].key] == Forget(items[i].value) {
      assert its[i].0 in m && m[its[i].0] == its[i].1;
    }
    forall k | k in m ensures HasItem(items, k) {
      assert HasKey(its, k);
      var i :| 0 <= i < |its| && its[i].0 == k;
      assert items[i].key == k;
    }
  }

  // ------------------------------------------------------- what sorting does

  predicate HasMember(ms: seq<J.Member>, k: string) {
    exists i :: 0 <= i < |ms| && ms[i].key == k
  }

  predicate HasItem(items: seq<Item>, k: string) {
    exists i :: 0 <= i < |items| && items[i].key == k
  }

  function Keys(ms: seq<J.Member>): (r: seq<string>)
    ensures |r| == |ms| && forall i :: 0 <= i < |ms| ==> r[i] == ms[i].key
  {
    seq(|ms|, i requires 0 <= i < |ms| => ms[i].key)
  }

  lemma {:induction false} InsertMembers(m: J.Member, ms: seq<J.Member>)
    ensures |Insert(m, ms)| == |ms| + 1
    ensures forall x :: x in Insert(m, ms) <==> x == m || x in ms
  {
    if ms != [] && !Less(m.key, ms[0].key) {
      InsertMembers(m, ms[1..]);
      assert ms == [ms[0]] + ms[1..];
    }
  }

  /** Each key is less than all later ones. */
  predicate KeysAscend(ms: seq<J.Member>) {
    ms == [] || ((forall x :: x in ms[1..] ==> Less(ms[0].key, x.key)) && KeysAscend(ms[1..]))
  }

  lemma {:induction false} InsertAscending(m: J.Member, ms: seq<J.Member>)
    requires KeysAscend(ms) && forall x :: x in ms ==> x.key != m.key
    ensures KeysAscend(Insert(m, ms))
  {
    hide Less;
    if ms == [] {
      assert ([m] + ms)[1..] == [];
    } else if Less(m.key, ms[0].key) {
      assert ([m] + ms)[1..] == ms && ms == [ms[0]] + ms[1..];
      forall x | x in ms ensures Less(m.key, x.key) {
        if x != ms[0] { LessTransitive(m.key, ms[0].key, x.key); }
      }
    } else {
      var tail := ms[1..];
      LessTotal(m.key, ms[0].key);
      InsertAscending(m, tail);
      InsertMembers(m, tail);
      assert Insert(m, ms)[1..] == Insert(m, tail);
    }
  }

  lemma {:induction false} AscendingKeys(ms: seq<J.Member>)
    requires KeysAscend(ms)
    ensures Ascending(Keys(ms), Less)
  {
    hide Less;
    if ms != [] {
      var tail := ms[1..];
      AscendingKeys(tail);
      forall i, j | 0 <= i < j < |ms| ensures Less(Keys(ms)[i], Keys(ms)[j]) {
        assert ms[j] == tail[j - 1];
        if i == 0 {
          assert tail[j - 1] in tail;
        } else {
          assert Less(Keys(tail)[i - 1], Keys(tail)[j - 1]);
        }
      }
    }
  }

  /** Sorting keeps the members and puts their keys in code-point order. */
  lemma SortExactly(ms: seq<J.Member>)
    requires forall i, j :: 0 <= i < j < |ms| ==> ms[i].key != ms[j].key
    ensures var s := SortMembers(ms);
            && |s| == |ms| && (forall x :: x in s <==> x in ms) && KeysAscend(s)
            && forall i, j :: 0 <= i < j < |s| ==> Before(s[i].key, s[j].key)
  {
    SortKeeps(ms);
    var s := SortMembers(ms);
    hide SortMembers, KeysAscend, Less, Before;
    AscendingKeys(s);
    forall i, j | 0 <= i < j < |s| ensures Before(s[i].key, s[j].key) {
      assert Less(Keys(s)[i], Keys(s)[j]);
      LessExactly(s[i].key, s[j].key);
    }
  }

  lemma {:induction false} SortKeeps(ms: seq<J.Member>)
    requires forall i, j :: 0 <= i < j < |ms| ==> ms[i].key != ms[j].key
    ensures var s := SortMembers(ms);
            |s| == |ms| && (forall x :: x in s <==> x in ms) && KeysAscend(s)
  {
    if ms != [] {
      hide Insert, KeysAscend;
      var tail := ms[1..];
      SortKeeps(tail);
      var s := SortMembers(tail);
      InsertMembers(ms[0], s);
      forall x | x in s ensures x.key != ms[0].key {
        var n :| 0 <= n < |tail| && tail[n] == x;
        assert ms[n + 1] == tail[n];
      }
      InsertAscending(ms[0], s);
      assert ms == [ms[0]] + tail;
    }
  }

  lemma SortedKeys(m: map<string, Value>, ms: seq<J.Member>, s: seq<J.Member>)
    requires KeysAscend(s) && forall x :: x in s <==> x in ms
    requires forall i :: 0 <= i < |ms| ==> ms[i].key in m
    requires forall k :: k in m ==> HasMember(ms, k)
    ensures Keys(s) == Sorted(m.Keys)
  {
    hide KeysAscend, Less;
    AscendingKeys(s);
    var keys := Sorted(m.Keys);
    forall k ensures k in Elements(Keys(s)) <==> k in Elements(keys) {
      if k in Elements(Keys(s)) {
        var i :| 0 <= i < |s| && Keys(s)[i] == k;
        assert s[i] in ms;
      }
      if k in m {
        var i :| 0 <= i < |ms| && ms[i].key == k;
        assert ms[i] in s;
        var j :| 0 <= j < |s| && s[j] == ms[i];
        assert Keys(s)[j] == k;
      }
    }
    LessStrictTotal();
    AscendingUnique(Keys(s), keys, Less);
  }

  /** Members with these keys in ascending order are the sorted members. */
  lemma SortedMembersUnique(m: map<string, Value>, ms: seq<J.Member>)
    requires forall i, j :: 0 <= i < j < |ms| ==> ms[i].key != ms[j].key
    requires forall i :: 0 <= i < |ms| ==> ms[i].key in m && ms[i].value == ToDoc(m[ms[i].key])
    requires forall k :: k in m ==> HasMember(ms, k)
    ensures J.Obj(SortMembers(ms)) == ToDoc(Dict(m))
  {
    hide HasMember, SortMembers, KeysAscend, Sorted, ToMembers, ToDoc;
    SortExactly(ms);
    var s := SortMembers(ms);
    SortedKeys(m, ms, s);
    forall x | x in s ensures x.key in m && x.value == ToDoc(m[x.key]) {
      var i :| 0 <= i < |ms| && ms[i] == x;
    }
    MembersInOrder(m, s);
  }

  lemma MembersInOrder(m: map<string, Value>, s: seq<J.Member>)
    requires Keys(s) == Sorted(m.Keys) && forall x :: x in s ==> x.key in m && x.value == ToDoc(m[x.key])
    ensures J.Obj(s) == ToDoc(Dict(m))
  {
    var d, keys := Dict(m), Sorted(m.Keys);
    assert forall k :: k in keys ==> k in Elements(keys);
    var r := ToMembers(d, keys);
    assert ToDoc(d) == J.Obj(r);
    hide Sorted, ToMembers, ToDoc;
    forall i | 0 <= i < |s| ensures s[i] == r[i] {
      assert s[i] in s && Keys(s)[i] == keys[i];
      ToMembersAt(d, keys, i);
    }
    assert s == r;
  }

  lemma {:induction false} ToMembersAt(d: Value, keys: seq<string>, i: nat)
    requires d.Dict? && (forall k :: k in keys ==> k in d.members) && i < |keys|
    ensures ToMembers(d, keys)[i] == J.Member(keys[i], ToDoc(d.members[keys[i]]))
    decreases |keys|
  {
    hide ToDoc;
    if i > 0 { ToMembersAt(d, keys[1..], i - 1); }
  }

  // --------------------------------------------------------------- main results

  /** Encoding with sorting is the canonical text of the value without order. */
  lemma {:induction false} DumpForgets(v: Py)
    requires WellKeyed(v)
    ensures DumpDoc(v) == ToDoc(Forget(v))
    decreases v
  {
    match v
    case PyList(es) =>
      forall i | 0 <= i < |es| ensures DumpDoc(es[i]) == ToDoc(Forget(es[i])) { DumpForgets(es[i]); }
      ListForgets(es);
    case PyDict(items) =>
      forall i | 0 <= i < |items| ensures DumpDoc(items[i].value) == ToDoc(Forget(items[i].value)) {
        DumpForgets(items[i].value);
      }
      DictForgets(items);
    case _ =>
  }

  lemma ListForgets(es: seq<Py>)
    requires forall i :: 0 <= i < |es| ==> DumpDoc(es[i]) == ToDoc(Forget(es[i]))
    ensures DumpDoc(PyList(es)) == ToDoc(Forget(PyList(es)))
  {
    var vs := ForgetElems(es);
    var a, b := DumpElems(es), ToElems(vs);
    assert DumpDoc(PyList(es)) == J.Arr(a) && ToDoc(Forget(PyList(es))) == J.Arr(b);
    hide DumpDoc, ToDoc, Forget, DumpElems, ToElems, ForgetElems;
    forall i | 0 <= i < |es| ensures a[i] == b[i] {
      DumpElemsAt(es, i);
      ForgetElemsAt(es, i);
      ToElemsAt(vs, i);
    }
    assert a == b;
  }

  lemma DictForgets(items: seq<Item>)
    requires WellKeyed(PyDict(items))
    requires forall i :: 0 <= i < |items| ==> DumpDoc(items[i].value) == ToDoc(Forget(items[i].value))
    ensures DumpDoc(PyDict(items)) == ToDoc(Forget(PyDict(items)))
  {
    var ms, m := DumpItems(items), DictOf(ForgetItems(items));
    assert DumpDoc(PyDict(items)) == J.Obj(SortMembers(ms)) && Forget(PyDict(items)) == Dict(m);
    assert DistinctItems(items);
    hide *;
    ForgottenDict(items);
    forall i | 0 <= i < |items| ensures ms[i] == J.Member(items[i].key, ToDoc(Forget(items[i].value))) {
      DumpItemsAt(items, i);
    }
    FilledMembers(items, ms, m);
  }

  predicate DistinctItems(items: seq<Item>) {
    forall i, j :: 0 <= i < j < |items| ==> items[i].key != items[j].key
  }

  /** Members of a filled dictionary, sorted, are its canonical members. */
  lemma {:induction false} FilledMembers(items: seq<Item>, ms: seq<J.Member>, m: map<string, Value>)
    requires DistinctItems(items) && Filled(items, m) && |ms| == |items|
    requires forall i :: 0 <= i < |items| ==> ms[i] == J.Member(items[i].key, ToDoc(Forget(items[i].value)))
    ensures J.Obj(SortMembers(ms)) == ToDoc(Dict(m))
  {
    hide ToDoc, Forget, SortMembers;
    forall k | k in m ensures HasMember(ms, k) {
      assert HasItem(items, k);
      var i :| 0 <= i < |items| && items[i].key == k;
      assert ms[i].key == k;
    }
    SortedMembersUnique(m, ms);
  }

  lemma {:induction false} ToElemsAt(es: seq<Value>, i: nat)
    requires i < |es|
    ensures ToElems(es)[i] == ToDoc(es[i])
  {
    hide ToDoc;
    if i > 0 { ToElemsAt(es[1..], i - 1); }
  }

  /** Equal up to the order of items, at every depth. */
  predicate Reordered(a: Py, b: Py)
    decreases a
  {
    if a.PyList? && b.PyList? then
      |a.elems| == |b.elems| && forall i :: 0 <= i < |a.elems| ==> Reordered(a.elems[i], b.elems[i])
    else if a.PyDict? && b.PyDict? then
      |a.items| == |b.items| && forall i :: 0 <= i < |a.items| ==> Matched(a.items[i], b.items)
    else a == b
  }

  /** Some item of b has this key and a value equal up to order. */
  predicate Matched(x: Item, b: seq<Item>)
    decreases x
  {
    exists j :: 0 <= j < |b| && b[j].key == x.key && Reordered(x.value, b[j].value)
  }

  lemma DictReordered(a: seq<Item>, b: seq<Item>)
    ensures Reordered(PyDict(a), PyDict(b)) <==>
            |a| == |b| && forall i :: 0 <= i < |a| ==> Matched(a[i], b)
  {
    hide Matched;
  }

  lemma {:induction false} ForgetEqual(a: Py, b: Py)
    requires WellKeyed(a) && WellKeyed(b)
    ensures Forget(a) == Forget(b) <==> Reordered(a, b)
    decreases a
  {
    if a.PyList? && b.PyList? {
      var x, y := ForgetElems(a.elems), ForgetElems(b.elems);
      forall i | 0 <= i < |a.elems| && i < |b.elems| ensures x[i] == y[i] <==> Reordered(a.elems[i], b.elems[i]) {
        ForgetEqual(a.elems[i], b.elems[i]);
        ForgetElemsAt(a.elems, i);
        ForgetElemsAt(b.elems, i);
      }
      if Reordered(a, b) { assert x == y; }
    } else if a.PyDict? && b.PyDict? {
      forall i, j | 0 <= i < |a.items| && 0 <= j < |b.items|
        ensures Forget(a.items[i].value) == Forget(b.items[j].value) <==> Reordered(a.items[i].value, b.items[j].value)
      {
        ForgetEqual(a.items[i].value, b.items[j].value);
      }
      ForgetDictEqual(a.items, b.items);
    }
  }

  /** The values of the two dictionaries compare as claimed. */
  ghost predicate ValuesCompare(a: seq<Item>, b: seq<Item>) {
    forall i, j :: 0 <= i < |a| && 0 <= j < |b| ==>
      (Forget(a[i].value) == Forget(b[j].value) <==> Reordered(a[i].value, b[j].value))
  }

  lemma ForgetDictEqual(a: seq<Item>, b: seq<Item>)
    requires WellKeyed(PyDict(a)) && WellKeyed(PyDict(b)) && ValuesCompare(a, b)
    ensures Forget(PyDict(a)) == Forget(PyDict(b)) <==> Reordered(PyDict(a), PyDict(b))
  {
    ForgottenDict(a);
    ForgottenDict(b);
    DictReordered(a, b);
    var m, n := DictOf(ForgetItems(a)), DictOf(ForgetItems(b));
    assert Forget(PyDict(a)) == Dict(m) && Forget(PyDict(b)) == Dict(n);
    hide *;
    if m == n {
      assert |a| == |b| by { FilledSize(a, m); FilledSize(b, n); }
      forall i | 0 <= i < |a| ensures Matched(a[i], b) { MatchByKey(a, b, m, i); }
    }
    if |a| == |b| && forall i :: 0 <= i < |a| ==> Matched(a[i], b) {
      forall k | k in m ensures k in n && m[k] == n[k] { KeyByMatch(a, b, m, n, k); }
      FilledSize(a, m);
      FilledSize(b, n);
      SameSize(m, n);
    }
  }

  lemma FilledSize(items: seq<Item>, m: map<string, Value>)
    requires Filled(items, m)
    ensures |m| == |items|
  {
  }

  lemma MatchByKey(a: seq<Item>, b: seq<Item>, m: map<string, Value>, i: nat)
    requires Filled(a, m) && Filled(b, m) && ValuesCompare(a, b) && i < |a|
    ensures Matched(a[i], b)
  {
    hide Forget, Reordered;
    assert HasItem(b, a[i].key);
    var j :| 0 <= j < |b| && b[j].key == a[i].key;
    assert Forget(a[i].value) == Forget(b[j].value);
  }

  lemma KeyByMatch(a: seq<Item>, b: seq<Item>, m: map<string, Value>, n: map<string, Value>, k: string)
    requires Filled(a, m) && Filled(b, n) && ValuesCompare(a, b) && k in m
    requires forall i :: 0 <= i < |a| ==> Matched(a[i], b)
    ensures k in n && m[k] == n[k]
  {
    hide Forget, Reordered;
    assert HasItem(a, k);
    var i :| 0 <= i < |a| && a[i].key == k;
    assert Matched(a[i], b);
    var j :| 0 <= j < |b| && b[j].key == a[i].key && Reordered(a[i].value, b[j].value);
    assert Forget(a[i].value) == Forget(b[j].value);
  }

  lemma SameSize<V>(m: map<string, V>, n: map<string, V>)
    requires |m| == |n| && forall k :: k in m ==> k in n && m[k] == n[k]
    ensures m == n
  {
    assert |m.Keys| == |n.Keys| && m.Keys <= n.Keys;
    var rest := n.Keys - m.Keys;
    assert n.Keys == m.Keys + rest && |n.Keys| == |m.Keys| + |rest|;
    assert m.Keys == n.Keys;
  }

  /** The canonical texts of two values are equal if and only if the values are
      equal up to the order in which their dictionaries were filled, at every
      depth. */
  lemma CanonicalIgnoresInsertionOrder(a: Py, b: Py)
    requires WellKeyed(a) && WellKeyed(b)
    ensures Dumps(a) == Dumps(b) <==> Reordered(a, b)
  {
    DumpForgets(a);
    DumpForgets(b);
    ForgetEqual(a, b);
    hide DumpDoc, Forget, ToDoc, J.Print, Reordered;
    assert Dumps(a) == Canonical(Forget(a)) && Dumps(b) == Canonical(Forget(b));
    CanonicalInjective(Forget(a), Forget(b));
  }

  /** Permuting the items of a dictionary is such a reordering. */
  lemma PermutationReorders(a: seq<Item>, b: seq<Item>)
    requires multiset(a) == multiset(b)
    ensures Reordered(PyDict(a), PyDict(b))
  {
    assert |a| == |multiset(a)| == |multiset(b)| == |b|;
    DictReordered(a, b);
    hide Reordered;
    forall i | 0 <= i < |a| ensures Matched(a[i], b) {
      assert a[i] in multiset(b);
      assert a[i] in b;
      var j :| 0 <= j < |b| && b[j] == a[i];
      ReorderedSelf(a[i].value);
    }
  }

  lemma {:induction false} ReorderedSelf(a: Py)
    ensures Reordered(a, a)
    decreases a
  {
    match a
    case PyList(es) =>
      forall i | 0 <= i < |es| ensures Reordered(es[i], es[i]) { ReorderedSelf(es[i]); }
    case PyDict(items) =>
      DictReordered(items, items);
      hide Reordered;
      forall i | 0 <= i < |items| ensures Matched(items[i], items) { ReorderedSelf(items[i].value); }
    case _ =>
  }
}

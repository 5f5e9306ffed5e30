/** Canonical JSON of a Python value, and the duplicate-rejecting reader:
    `canonical` and `_pairs` with json.loads(object_pairs_hook=_pairs). */
module CanonicalJson {
  import opened Text
  import opened Dicts
  import J = Json
  import JsonRoundTrip

  /** A Python value with string keys.  Dictionaries are maps: Python compares
      them without regard to insertion order, and InsertionOrder shows that their
      canonical texts do not depend on it either. */
  datatype Value =
    | Null
    | Bool(b: bool)
    | Int(n: int)
    | Float(text: J.FloatText)
    | Str(s: string)
    | List(elems: seq<Value>)
    | Dict(members: map<string, Value>)

  // ---------------------------------------------------------------- writing

  /** Keys sorted at every depth, as json.dumps(sort_keys=True) does. */
  function ToDoc(v: Value): J.Doc
    decreases v, 1
  {
    match v
    case Null => J.Null
    case Bool(b) => J.Bool(b)
    case Int(n) => J.Int(n)
    case Float(t) => J.Float(t)
    case Str(s) => J.Str(s)
    case List(es) => J.Arr(ToElems(es))
    case Dict(m) => J.Obj(ToMembers(v, Sorted(m.Keys)))
  }

  function ToElems(es: seq<Value>): (r: seq<J.Doc>)
    ensures |r| == |es|
    decreases es, 0
  {
    if es == [] then [] else [ToDoc(es[0])] + ToElems(es[1..])
  }

  function ToMembers(d: Value, keys: seq<string>): (r: seq<J.Member>)
    requires d.Dict? && forall k :: k in keys ==> k in d.members
    ensures |r| == |keys|
    decreases d, 0, |keys|
  {
    if keys == [] then [] else
      [J.Member(keys[0], ToDoc(d.members[keys[0]]))] + ToMembers(d, keys[1..])
  }

  function Canonical(v: Value): string {
    J.Print(ToDoc(v))
  }

  // ---------------------------------------------------------------- reading

  /** The loop of `_pairs`. */
  method Pairs(items: Items<Value>) returns (r: Option<map<string, Value>>)
    ensures r == PairsDict(items)
    ensures r.Some? <==> DistinctKeys(items)
  {
    var result := map[];
    for n := 0 to |items|
      invariant PairsDict(items[..n]) == Some(result)
    {
      var (key, value) := items[n];
      assert items[..n + 1][..n] == items[..n];
      if key in result {
        PairsExact(items[..n + 1]);
        assert !DistinctKeys(items);
        PairsExact(items);
        return None;
      }
      result := result[key := value];
    }
    assert items[..|items|] == items;
    PairsExact(items);
    r := Some(result);
  }

  function FromDoc(d: J.Doc): Option<Value>
    decreases d, 1
  {
    match d
    case Null => Some(Null)
    case Bool(b) => Some(Bool(b))
    case Int(n) => Some(Int(n))
    case Float(t) => Some(Float(t))
    case Str(s) => Some(Str(s))
    case Arr(es) =>
      var vs := FromElems(es);
      if vs.None? then None else Some(List(vs.value))
    case Obj(ms) =>
      var items := FromMembers(ms);
      if items.None? then None else
        var m := PairsDict(items.value);
        if m.None? then None else Some(Dict(m.value))
  }

  function FromElems(es: seq<J.Doc>): (r: Option<seq<Value>>)
    ensures r.Some? ==> |r.value| == |es|
    decreases es, 0
  {
    if es == [] then Some([]) else
      var v := FromDoc(es[0]);
      var vs := FromElems(es[1..]);
      if v.None? || vs.None? then None else Some([v.value] + vs.value)
  }

  function FromMembers(ms: seq<J.Member>): (r: Option<Items<Value>>)
    ensures r.Some? ==> |r.value| == |ms| && forall i :: 0 <= i < |ms| ==> r.value[i].0 == ms[i].key
    decreases ms, 0
  {
    if ms == [] then Some([]) else
      var v := FromDoc(ms[0].value);
      var rest := FromMembers(ms[1..]);
      if v.None? || rest.None? then None else Some([(ms[0].key, v.value)] + rest.value)
  }

  /** json.loads(text, object_pairs_hook=_pairs). */
  function Loads(t: string): Option<Value> {
    var d := J.Parse(t);
    if d.None? then None else FromDoc(d.value)
  }

  // ------------------------------------------------------------- properties

  lemma {:induction false} DocRoundTrip(v: Value)
    ensures FromDoc(ToDoc(v)) == Some(v)
    decreases v, 1
  {
    hide ToMembers, FromMembers, ToElems, FromElems, PairsDict, Sorted, Ascending;
    match v
    case List(es) => ElemsRoundTrip(es);
    case Dict(m) =>
      var keys := Sorted(m.Keys);
      assert forall k :: k in keys ==> k in Elements(keys);
      MembersRoundTrip(v, keys);
      DictRoundTrip(m, keys, FromMembers(ToMembers(v, keys)).value);
    case _ =>
  }

  lemma DictRoundTrip(m: map<string, Value>, keys: seq<string>, items: Items<Value>)
    requires Elements(keys) == m.Keys && Ascending(keys, Less)
    requires |items| == |keys| && forall i :: 0 <= i < |keys| ==> keys[i] in m && items[i] == (keys[i], m[keys[i]])
    ensures PairsDict(items) == Some(m)
  {
    AscendingDistinct(keys);
    PairsExact(items);
    forall k | k in m ensures HasKey(items, k) {
      assert k in Elements(keys);
      var i :| 0 <= i < |keys| && keys[i] == k;
      assert items[i].0 == k;
    }
    EntriesUnique(items, PairsDict(items).value, m);
  }

  lemma AscendingDistinct(keys: seq<string>)
    requires Ascending(keys, Less)
    ensures forall i, j :: 0 <= i < j < |keys| ==> keys[i] != keys[j]
  {
    forall i, j | 0 <= i < j < |keys| ensures keys[i] != keys[j] {
      LessIrreflexive(keys[i]);
    }
  }

  lemma {:induction false} ElemsRoundTrip(es: seq<Value>)
    ensures FromElems(ToElems(es)) == Some(es)
    decreases es, 0
  {
    if es != [] {
      DocRoundTrip(es[0]);
      ElemsRoundTrip(es[1..]);
      assert ToElems(es)[1..] == ToElems(es[1..]);
      assert es == [es[0]] + es[1..];
    }
  }

  lemma {:induction false} MembersRoundTrip(d: Value, keys: seq<string>)
    requires d.Dict? && forall k :: k in keys ==> k in d.members
    ensures var r := FromMembers(ToMembers(d, keys));
            && r.Some? && |r.value| == |keys|
            && forall i :: 0 <= i < |keys| ==> r.value[i] == (keys[i], d.members[keys[i]])
    decreases d, 0, |keys|
  {
    hide ToDoc, FromDoc, PairsDict;
    if keys != [] {
      DocRoundTrip(d.members[keys[0]]);
      MembersRoundTrip(d, keys[1..]);
      assert ToMembers(d, keys)[1..] == ToMembers(d, keys[1..]);
      assert keys == [keys[0]] + keys[1..];
    }
  }

  /** The reader returns exactly the encoded value. */
  lemma LoadsCanonical(v: Value, tail: string)
    requires JsonRoundTrip.Blank(tail)
    ensures Loads(Canonical(v) + tail) == Some(v)
  {
    JsonRoundTrip.ParsePrint(ToDoc(v), tail);
    DocRoundTrip(v);
  }

  /** Canonical texts agree exactly when the values do; True, 1 and "1" are
      different values. */
  lemma CanonicalInjective(a: Value, b: Value)
    ensures Canonical(a) == Canonical(b) <==> a == b
  {
    LoadsCanonical(a, "");
    LoadsCanonical(b, "");
  }

  /** The keys of a canonical object are the keys of the dictionary, each once, in
      code-point order. */
  lemma CanonicalKeys(m: map<string, Value>)
    ensures ToDoc(Dict(m)).Obj? && |ToDoc(Dict(m)).members| == |Sorted(m.Keys)|
    ensures var ms := ToDoc(Dict(m)).members;
            && (forall k :: k in m <==> exists i :: 0 <= i < |ms| && ms[i].key == k)
            && forall i, j :: 0 <= i < j < |ms| ==> Before(ms[i].key, ms[j].key)
  {
    var d, keys := Dict(m), Sorted(m.Keys);
    var ms := ToMembers(d, keys);
    SortedExactly(m.Keys);
    hide Sorted, Before, ToDoc;
    assert forall k :: k in keys <==> k in Elements(keys);
    forall i | 0 <= i < |keys| ensures ms[i].key == keys[i] { MemberKey(d, keys, i); }
    forall k | k in m ensures exists i :: 0 <= i < |ms| && ms[i].key == k {
      var i :| 0 <= i < |keys| && keys[i] == k;
      assert ms[i].key == k;
    }
  }

  lemma {:induction false} MemberKey(d: Value, keys: seq<string>, i: nat)
    requires d.Dict? && (forall k :: k in keys ==> k in d.members) && i < |keys|
    ensures ToMembers(d, keys)[i].key == keys[i]
    decreases |keys|
  {
    hide ToDoc;
    if i > 0 { MemberKey(d, keys[1..], i - 1); }
  }

  /** A canonical object cut before its end is rejected; with or without the
      final line feed it reads back whole. */
  lemma CutFile(v: Value, n: nat)
    requires v.Dict? && n <= |Canonical(v)| + 1
    ensures var data := Canonical(v) + "\n";
            Loads(data[..n]) == (if n < |Canonical(v)| then None else Some(v))
  {
    var c := Canonical(v);
    var data := c + "\n";
    if n < |c| {
      assert data[..n] == c[..n];
      JsonRoundTrip.ProperPrefixRejected(ToDoc(v), n);
    } else {
      assert data[..n] == c + "\n"[..n - |c|];
      LoadsCanonical(v, "\n"[..n - |c|]);
    }
  }

  /** No object at any depth repeats a key. */
  predicate NoDuplicates(d: J.Doc)
    decreases d
  {
    match d
    case Arr(es) => forall i :: 0 <= i < |es| ==> NoDuplicates(es[i])
    case Obj(ms) =>
      && (forall i, j :: 0 <= i < j < |ms| ==> ms[i].key != ms[j].key)
      && (forall i :: 0 <= i < |ms| ==> NoDuplicates(ms[i].value))
    case _ => true
  }

  /** The hook rejects a document exactly when some object repeats a key. */
  lemma {:induction false} HookRejectsDuplicates(d: J.Doc)
    ensures FromDoc(d).Some? <==> NoDuplicates(d)
    decreases d, 1
  {
    match d
    case Arr(es) => ElemsDuplicates(es);
    case Obj(ms) =>
      MembersDuplicates(ms);
      if FromMembers(ms).Some? {
        PairsExact(FromMembers(ms).value);
      }
    case _ =>
  }

  lemma {:induction false} ElemsDuplicates(es: seq<J.Doc>)
    ensures FromElems(es).Some? <==> forall i :: 0 <= i < |es| ==> NoDuplicates(es[i])
    decreases es, 0
  {
    if es != [] {
      HookRejectsDuplicates(es[0]);
      ElemsDuplicates(es[1..]);
      assert forall i :: 0 < i < |es| ==> es[i] == es[1..][i - 1];
    }
  }

  lemma {:induction false} MembersDuplicates(ms: seq<J.Member>)
    ensures FromMembers(ms).Some? <==> forall i :: 0 <= i < |ms| ==> NoDuplicates(ms[i].value)
    decreases ms, 0
  {
    if ms != [] {
      HookRejectsDuplicates(ms[0].value);
      MembersDuplicates(ms[1..]);
      assert forall i :: 0 < i < |ms| ==> ms[i] == ms[1..][i - 1];
    }
  }
}

/** Alias declarations and the conflict check of
    roles/common/library/platform_host_aliases_guard.py. */
module HostsGuard {
  import opened Text
  import opened Patterns
  import opened Dicts
  import opened H = HostsFile

  /** The canonical form of an address; equal addresses have equal forms. */
  type Addr = string

  /** ipaddress.ip_address; None when it raises ValueError. */
  type IpParser = string -> Option<Addr>

  /** address(): a literal, unscoped IP address. */
  function Address(ip: IpParser, value: string): Option<Addr> {
    if '%' in value then None else ip(value)
  }

  function LowerChar(c: char): char {
    if 'A' <= c <= 'Z' then (c as int + 32) as char else if c as int >= 128 then '\U{FFFD}' else c
  }

  /** field.decode("ascii", errors="replace").lower() */
  function Lower(s: string): (r: string)
    ensures |r| == |s|
  {
    if s == "" then "" else [LowerChar(s[0])] + Lower(s[1..])
  }

  // ------------------------------------------------------------ declarations

  datatype Alias = Alias(address: string, names: seq<string>)

  predicate LabelChar(c: char) {
    Letter(c) || IsDigit(c) || c == '-'
  }

  /** [A-Za-z0-9](?:[A-Za-z0-9-]{0,61}[A-Za-z0-9])? */
  predicate IsLabel(s: string) {
    && 1 <= |s| <= 63 && s[0] != '-' && s[|s| - 1] != '-'
    && forall i :: 0 <= i < |s| ==> LabelChar(s[i])
  }

  predicate IsHostname(ip: IpParser, name: string) {
    && |name| <= 253 && ip(name).None?
    && forall i :: 0 <= i < |Split(name, '.')| ==> IsLabel(Split(name, '.')[i])
  }

  predicate ValidAlias(ip: IpParser, a: Alias) {
    Address(ip, a.address).Some? && a.names != [] && forall i :: 0 <= i < |a.names| ==> IsHostname(ip, a.names[i])
  }

  /** The entries one alias asks for, and those of all aliases in order. */
  function AliasItems(ip: IpParser, a: Alias): (r: Items<Addr>)
    requires Address(ip, a.address).Some?
    ensures |r| == |a.names|
  {
    seq(|a.names|, i requires 0 <= i < |a.names| => (Lower(a.names[i]), Address(ip, a.address).value))
  }

  predicate AllValid(ip: IpParser, aliases: seq<Alias>) {
    forall i :: 0 <= i < |aliases| ==> ValidAlias(ip, aliases[i])
  }

  function AllItems(ip: IpParser, aliases: seq<Alias>): Items<Addr>
    requires AllValid(ip, aliases)
  {
    if aliases == [] then [] else
      AllItems(ip, aliases[..|aliases| - 1]) + AliasItems(ip, aliases[|aliases| - 1])
  }

  function Declared(ip: IpParser, aliases: seq<Alias>): Option<map<string, Addr>> {
    if aliases == [] || !AllValid(ip, aliases) then None else PairsDict(AllItems(ip, aliases))
  }

  lemma PrefixFails(items: Items<Addr>, rest: Items<Addr>)
    requires PairsDict(items).None?
    ensures PairsDict(items + rest).None?
  {
    PairsExact(items);
    PairsExact(items + rest);
    var i, j :| 0 <= i < j < |items| && items[i].0 == items[j].0;
    assert (items + rest)[i].0 == (items + rest)[j].0;
  }

  lemma {:induction false} ItemsOfPrefix(ip: IpParser, aliases: seq<Alias>, n: nat) returns (rest: Items<Addr>)
    requires AllValid(ip, aliases) && n <= |aliases|
    ensures AllItems(ip, aliases) == AllItems(ip, aliases[..n]) + rest
  {
    if n == |aliases| {
      assert aliases[..n] == aliases;
      rest := [];
    } else {
      var m := |aliases| - 1;
      var r := ItemsOfPrefix(ip, aliases[..m], n);
      assert aliases[..m][..n] == aliases[..n];
      rest := r + AliasItems(ip, aliases[m]);
    }
  }

  predicate NamesValid(ip: IpParser, a: Alias) {
    forall i :: 0 <= i < |a.names| ==> IsHostname(ip, a.names[i])
  }

  lemma ItemIs(ip: IpParser, a: Alias, k: nat)
    requires Address(ip, a.address).Some? && k < |a.names|
    ensures AliasItems(ip, a)[k] == (Lower(a.names[k]), Address(ip, a.address).value)
  {
  }

  lemma PairsSnoc(items: Items<Addr>, x: (string, Addr))
    requires PairsDict(items).Some?
    ensures PairsDict(items + [x]) ==
            if x.0 in PairsDict(items).value then None else Some(PairsDict(items).value[x.0 := x.1])
  {
    assert (items + [x])[..|items|] == items;
  }

  /** The inner loop of declarations(): the names of one alias. */
  method AddNames(ip: IpParser, alias: Alias, expected: Addr, desired: map<string, Addr>, ghost before: Items<Addr>)
    returns (r: Option<map<string, Addr>>)
    requires Address(ip, alias.address) == Some(expected) && PairsDict(before) == Some(desired)
    ensures r == if NamesValid(ip, alias) then PairsDict(before + AliasItems(ip, alias)) else None
  {
    hide IsHostname, PairsDict, AliasItems;
    var table := desired;
    ghost var items := AliasItems(ip, alias);
    assert before + items[..0] == before;
    for k := 0 to |alias.names|
      invariant PairsDict(before + items[..k]) == Some(table)
      invariant forall i :: 0 <= i < k ==> IsHostname(ip, alias.names[i])
    {
      var name := alias.names[k];
      if !IsHostname(ip, name) {
        return None;
      }
      var key := Lower(name);
      ItemIs(ip, alias, k);
      assert before + items[..k + 1] == (before + items[..k]) + [items[k]];
      PairsSnoc(before + items[..k], items[k]);
      if key in table {
        PrefixFails(before + items[..k + 1], items[k + 1..]);
        assert (before + items[..k + 1]) + items[k + 1..] == before + items;
        return None;
      }
      table := table[key := expected];
    }
    assert items[..|items|] == items;
    r := Some(table);
  }

  lemma ItemsSnoc(ip: IpParser, aliases: seq<Alias>, n: nat)
    requires n < |aliases| && AllValid(ip, aliases[..n + 1])
    ensures AllValid(ip, aliases[..n])
    ensures AllItems(ip, aliases[..n + 1]) == AllItems(ip, aliases[..n]) + AliasItems(ip, aliases[n])
  {
    hide ValidAlias, AliasItems;
    assert aliases[..n + 1][..n] == aliases[..n];
    assert forall i :: 0 <= i < n ==> aliases[..n][i] == aliases[..n + 1][i];
  }

  lemma FailsForAll(ip: IpParser, aliases: seq<Alias>, n: nat)
    requires AllValid(ip, aliases) && n <= |aliases| && PairsDict(AllItems(ip, aliases[..n])).None?
    ensures PairsDict(AllItems(ip, aliases)).None?
  {
    var rest := ItemsOfPrefix(ip, aliases, n);
    PrefixFails(AllItems(ip, aliases[..n]), rest);
  }

  /** The outer loop of declarations(). */
  method Declarations(ip: IpParser, aliases: seq<Alias>) returns (r: Option<map<string, Addr>>)
    ensures r == Declared(ip, aliases)
  {
    if aliases == [] {
      return None;
    }
    hide IsHostname, PairsDict, AliasItems, Lower;
    var desired: map<string, Addr> := map[];
    EmptyDict();
    assert aliases[..0] == [];
    for n := 0 to |aliases|
      invariant AllValid(ip, aliases[..n]) && PairsDict(AllItems(ip, aliases[..n])) == Some(desired)
    {
      var alias := aliases[n];
      var expected := Address(ip, alias.address);
      if expected.None? || alias.names == [] {
        assert !ValidAlias(ip, aliases[n]);
        return None;
      }
      var next := AddNames(ip, alias, expected.value, desired, AllItems(ip, aliases[..n]));
      if next.None? {
        NextFails(ip, aliases, n);
        return None;
      }
      assert ValidAlias(ip, alias);
      assert aliases[..n + 1] == aliases[..n] + [alias];
      ItemsSnoc(ip, aliases, n);
      desired := next.value;
    }
    assert aliases[..|aliases|] == aliases;
    r := Some(desired);
  }

  /** Names that cannot be added make the whole declaration fail. */
  lemma NextFails(ip: IpParser, aliases: seq<Alias>, n: nat)
    requires n < |aliases| && AllValid(ip, aliases[..n]) && Address(ip, aliases[n].address).Some?
    requires !NamesValid(ip, aliases[n]) ||
             PairsDict(AllItems(ip, aliases[..n]) + AliasItems(ip, aliases[n])).None?
    ensures Declared(ip, aliases).None?
  {
    hide IsHostname, PairsDict, AliasItems;
    if AllValid(ip, aliases) {
      assert ValidAlias(ip, aliases[n]);
      ItemsSnoc(ip, aliases, n);
      FailsForAll(ip, aliases, n + 1);
    }
  }

  lemma EmptyDict()
    ensures PairsDict<Addr>([]) == Some(map[])
  {
  }

  // Order of the declarations.

  lemma {:induction false} ItemsRemove(ip: IpParser, aliases: seq<Alias>, i: nat)
    requires AllValid(ip, aliases) && i < |aliases|
    ensures AllValid(ip, aliases[..i] + aliases[i + 1..])
    ensures multiset(AllItems(ip, aliases)) ==
            multiset(AllItems(ip, aliases[..i] + aliases[i + 1..])) + multiset(AliasItems(ip, aliases[i]))
  {
    hide ValidAlias, AliasItems, AllItems;
    var m := |aliases| - 1;
    var less := aliases[..i] + aliases[i + 1..];
    assert forall k :: 0 <= k < |less| ==> less[k] in aliases;
    ItemsLast(ip, aliases);
    if i == m {
      assert less == aliases[..m];
    } else {
      ItemsRemove(ip, aliases[..m], i);
      assert less[..|less| - 1] == aliases[..m][..i] + aliases[..m][i + 1..];
      assert less[|less| - 1] == aliases[m];
      ItemsLast(ip, less);
    }
  }

  lemma ItemsLast(ip: IpParser, aliases: seq<Alias>)
    requires AllValid(ip, aliases) && aliases != []
    ensures multiset(AllItems(ip, aliases)) ==
            multiset(AllItems(ip, aliases[..|aliases| - 1])) + multiset(AliasItems(ip, aliases[|aliases| - 1]))
  {
    hide AliasItems, ValidAlias;
  }

  lemma RemoveFromBoth<T>(a: seq<T>, b: seq<T>, i: nat)
    requires multiset(a) == multiset(b) && a != [] && i < |b| && b[i] == a[|a| - 1]
    ensures multiset(a[..|a| - 1]) == multiset(b[..i] + b[i + 1..])
  {
    var m := |a| - 1;
    assert a == a[..m] + [a[m]];
    assert multiset(a[..m]) == multiset(a) - multiset{a[m]};
    assert b == b[..i] + ([b[i]] + b[i + 1..]);
    assert multiset(b[..i] + b[i + 1..]) == multiset(b) - multiset{b[i]};
  }

  lemma {:induction false} ItemsPermuted(ip: IpParser, a: seq<Alias>, b: seq<Alias>)
    requires AllValid(ip, a) && AllValid(ip, b) && multiset(a) == multiset(b)
    ensures multiset(AllItems(ip, a)) == multiset(AllItems(ip, b))
    decreases |a|
  {
    hide ValidAlias, AliasItems;
    if a == [] {
      assert |b| == |multiset(b)| == 0;
    } else {
      var m := |a| - 1;
      var x := a[m];
      assert x in multiset(a);
      var i :| 0 <= i < |b| && b[i] == x;
      var less := b[..i] + b[i + 1..];
      RemoveFromBoth(a, b, i);
      ItemsRemove(ip, b, i);
      ItemsPermuted(ip, a[..m], less);
    }
  }

  lemma SameItemsSameDict(x: Items<Addr>, y: Items<Addr>)
    requires multiset(x) == multiset(y)
    ensures PairsDict(x) == PairsDict(y)
  {
    PairsExact(x);
    PairsExact(y);
    hide PairsDict;
    if DistinctKeys(x) {
      InsertionOrderIrrelevant(x, y);
    } else if DistinctKeys(y) {
      InsertionOrderIrrelevant(y, x);
    }
  }

  lemma AliasesPermuted(ip: IpParser, a: seq<Alias>, b: seq<Alias>)
    requires multiset(a) == multiset(b)
    ensures Declared(ip, a) == Declared(ip, b)
  {
    hide ValidAlias, PairsDict;
    assert |a| == |multiset(a)| == |multiset(b)| == |b|;
    assert AllValid(ip, a) <==> forall x :: x in multiset(a) ==> ValidAlias(ip, x);
    assert AllValid(ip, b) <==> forall x :: x in multiset(b) ==> ValidAlias(ip, x);
    if AllValid(ip, a) {
      ItemsPermuted(ip, a, b);
      SameItemsSameDict(AllItems(ip, a), AllItems(ip, b));
    }
  }

  /** The same address with the same names in any order. */
  predicate SameAlias(a: Alias, b: Alias) {
    a.address == b.address && multiset(a.names) == multiset(b.names)
  }

  lemma SameAliasValid(ip: IpParser, a: Alias, b: Alias)
    requires SameAlias(a, b) && ValidAlias(ip, a)
    ensures ValidAlias(ip, b)
  {
    hide IsHostname;
    assert |a.names| == |multiset(a.names)| == |multiset(b.names)| == |b.names|;
    forall i | 0 <= i < |b.names| ensures IsHostname(ip, b.names[i]) {
      assert b.names[i] in multiset(a.names);
      assert b.names[i] in a.names;
    }
  }

  function NameItems(names: seq<string>, addr: Addr): (r: Items<Addr>)
    ensures |r| == |names|
  {
    seq(|names|, i requires 0 <= i < |names| => (Lower(names[i]), addr))
  }

  lemma NameItemsAppend(x: seq<string>, y: seq<string>, addr: Addr)
    ensures NameItems(x + y, addr) == NameItems(x, addr) + NameItems(y, addr)
  {
  }

  lemma MiddleMoved<T>(p: seq<T>, e: seq<T>, q: seq<T>)
    ensures multiset(p + (e + q)) == multiset(p + q) + multiset(e)
  {
  }

  lemma {:induction false} NamesPermuted(x: seq<string>, y: seq<string>, addr: Addr)
    requires multiset(x) == multiset(y)
    ensures multiset(NameItems(x, addr)) == multiset(NameItems(y, addr))
    decreases |x|
  {
    hide NameItems;
    if x == [] {
      assert |y| == |multiset(y)| == 0;
    } else {
      var m := |x| - 1;
      assert x[m] in multiset(x);
      var i :| 0 <= i < |y| && y[i] == x[m];
      var p, q := y[..i], y[i + 1..];
      RemoveFromBoth(x, y, i);
      NamesPermuted(x[..m], p + q, addr);
      assert x == x[..m] + [x[m]] && y == p + ([y[i]] + q);
      NameItemsAppend(x[..m], [x[m]], addr);
      NameItemsAppend(p, q, addr);
      NameItemsAppend(p, [y[i]] + q, addr);
      NameItemsAppend([y[i]], q, addr);
      MiddleMoved(NameItems(p, addr), NameItems([y[i]], addr), NameItems(q, addr));
    }
  }

  lemma {:induction false} ItemsPointwise(ip: IpParser, a: seq<Alias>, b: seq<Alias>)
    requires AllValid(ip, a) && AllValid(ip, b) && |a| == |b|
    requires forall i :: 0 <= i < |a| ==> SameAlias(a[i], b[i])
    ensures multiset(AllItems(ip, a)) == multiset(AllItems(ip, b))
    decreases |a|
  {
    hide AllItems;
    if a != [] {
      var m := |a| - 1;
      ItemsPointwise(ip, a[..m], b[..m]);
      ItemsLast(ip, a);
      ItemsLast(ip, b);
      assert SameAlias(a[m], b[m]);
      var addr := Address(ip, a[m].address).value;
      assert AliasItems(ip, a[m]) == NameItems(a[m].names, addr) && AliasItems(ip, b[m]) == NameItems(b[m].names, addr);
      NamesPermuted(a[m].names, b[m].names, addr);
    }
  }

  lemma NamesReordered(ip: IpParser, a: seq<Alias>, b: seq<Alias>)
    requires |a| == |b| && forall i :: 0 <= i < |a| ==> SameAlias(a[i], b[i])
    ensures Declared(ip, a) == Declared(ip, b)
  {
    hide ValidAlias, PairsDict, AllItems;
    assert AllValid(ip, a) <==> AllValid(ip, b) by {
      forall i | 0 <= i < |a| ensures ValidAlias(ip, a[i]) <==> ValidAlias(ip, b[i]) {
        if ValidAlias(ip, a[i]) { SameAliasValid(ip, a[i], b[i]); }
        if ValidAlias(ip, b[i]) { SameAliasValid(ip, b[i], a[i]); }
      }
    }
    if AllValid(ip, a) {
      ItemsPointwise(ip, a, b);
      SameItemsSameDict(AllItems(ip, a), AllItems(ip, b));
    }
  }

  /** The declaration table, or the refusal, depends neither on the order of the
      aliases (a against c) nor on that of the names of each (c against b). */
  lemma DeclaredIgnoresOrder(ip: IpParser, a: seq<Alias>, c: seq<Alias>, b: seq<Alias>)
    requires multiset(a) == multiset(c)
    requires |c| == |b| && forall i :: 0 <= i < |c| ==> SameAlias(c[i], b[i])
    ensures Declared(ip, a) == Declared(ip, b)
  {
    hide Declared, SameAlias;
    AliasesPermuted(ip, a, c);
    NamesReordered(ip, c, b);
  }

  function NameCount(aliases: seq<Alias>): nat {
    if aliases == [] then 0 else NameCount(aliases[..|aliases| - 1]) + |aliases[|aliases| - 1].names|
  }

  lemma {:induction false} ItemCount(ip: IpParser, aliases: seq<Alias>)
    requires AllValid(ip, aliases)
    ensures |AllItems(ip, aliases)| == NameCount(aliases)
  {
    if aliases != [] { ItemCount(ip, aliases[..|aliases| - 1]); }
  }

  lemma {:induction false} DictSize<V>(items: Items<V>)
    requires PairsDict(items).Some?
    ensures |PairsDict(items).value| == |items|
  {
    if items != [] { DictSize(items[..|items| - 1]); }
  }

  lemma {:induction false} ItemAt(ip: IpParser, aliases: seq<Alias>, i: nat, k: nat)
    requires AllValid(ip, aliases) && i < |aliases| && k < |aliases[i].names|
    ensures (Lower(aliases[i].names[k]), Address(ip, aliases[i].address).value) in AllItems(ip, aliases)
  {
    var m := |aliases| - 1;
    if i == m {
      assert AliasItems(ip, aliases[m])[k] in AliasItems(ip, aliases[m]);
    } else {
      ItemAt(ip, aliases[..m], i, k);
    }
  }

  /** One entry per listed name: every name, in lower case, is declared with
      the address of its own alias, and nothing else is. */
  lemma DeclaredEntries(ip: IpParser, aliases: seq<Alias>)
    requires Declared(ip, aliases).Some?
    ensures |Declared(ip, aliases).value| == NameCount(aliases)
    ensures forall i, k :: 0 <= i < |aliases| && 0 <= k < |aliases[i].names| ==>
              var key := Lower(aliases[i].names[k]);
              key in Declared(ip, aliases).value &&
              Some(Declared(ip, aliases).value[key]) == Address(ip, aliases[i].address)
  {
    var items := AllItems(ip, aliases);
    PairsExact(items);
    DictSize(items);
    ItemCount(ip, aliases);
    forall i, k | 0 <= i < |aliases| && 0 <= k < |aliases[i].names|
      ensures var key := Lower(aliases[i].names[k]);
              key in Declared(ip, aliases).value &&
              Some(Declared(ip, aliases).value[key]) == Address(ip, aliases[i].address)
    {
      ItemAt(ip, aliases, i, k);
      assert ValidAlias(ip, aliases[i]);
    }
  }

  // ------------------------------------------- declarations, spelled out

  /** 1 to 63 letters, digits and dashes, no dash at either end. */
  predicate Label(s: string) {
    && 1 <= |s| <= 63 && s[0] in ALPHANUMERIC && s[|s| - 1] in ALPHANUMERIC
    && Over(s, ALPHANUMERIC + {'-'})
  }

  lemma LabelExactly(s: string)
    ensures IsLabel(s) <==> Label(s)
  {
    assert '-' !in ALPHANUMERIC by { NameCharExactly('-'); }
    hide ALPHANUMERIC;
    forall i | 0 <= i < |s| ensures LabelChar(s[i]) <==> s[i] in ALPHANUMERIC + {'-'} { NameCharExactly(s[i]); }
    hide LabelChar;
  }

  /** At most 253 characters, labels between the dots, and no IP address. */
  ghost predicate Hostname(ip: IpParser, name: string) {
    && |name| <= 253 && ip(name) == None
    && forall p, x, q :: StandsIn(name, x, '.', p, q) ==> Label(x)
  }

  lemma HostnameExactly(ip: IpParser, name: string)
    ensures IsHostname(ip, name) <==> Hostname(ip, name)
  {
    hide Split, StandsIn, IsLabel, Label;
    var parts := Split(name, '.');
    if IsHostname(ip, name) {
      forall p, x, q | StandsIn(name, x, '.', p, q) ensures Label(x) {
        SplitExactly(name, '.', x);
        var i :| 0 <= i < |parts| && parts[i] == x;
        LabelExactly(x);
      }
    }
    if Hostname(ip, name) {
      forall i | 0 <= i < |parts| ensures IsLabel(parts[i]) {
        SplitExactly(name, '.', parts[i]);
        LabelExactly(parts[i]);
      }
    }
  }

  /** A literal unscoped address and at least one name, all of them host names. */
  ghost predicate AliasFacts(ip: IpParser, a: Alias) {
    && '%' !in a.address && ip(a.address).Some? && |a.names| >= 1
    && forall k :: 0 <= k < |a.names| ==> Hostname(ip, a.names[k])
  }

  lemma AliasExactly(ip: IpParser, a: Alias)
    ensures ValidAlias(ip, a) <==> AliasFacts(ip, a)
  {
    hide IsHostname, Hostname;
    forall k | 0 <= k < |a.names| ensures IsHostname(ip, a.names[k]) <==> Hostname(ip, a.names[k]) {
      HostnameExactly(ip, a.names[k]);
    }
  }

  /** Where the items of alias i start. */
  function Start(aliases: seq<Alias>, i: nat): nat
    requires i <= |aliases|
  {
    NameCount(aliases[..i])
  }

  lemma StartStep(aliases: seq<Alias>, i: nat)
    requires i < |aliases|
    ensures Start(aliases, i + 1) == Start(aliases, i) + |aliases[i].names|
  {
    assert aliases[..i + 1][..i] == aliases[..i];
  }

  lemma {:induction false} StartBound(aliases: seq<Alias>, i: nat, j: nat)
    requires i < j <= |aliases|
    ensures Start(aliases, i) + |aliases[i].names| <= Start(aliases, j)
    decreases j
  {
    hide Start;
    StartStep(aliases, j - 1);
    if i < j - 1 { StartBound(aliases, i, j - 1); }
  }

  lemma {:induction false} ItemOfName(ip: IpParser, aliases: seq<Alias>, n: nat, i: nat, k: nat)
    requires AllValid(ip, aliases) && i < n <= |aliases| && k < |aliases[i].names|
    ensures AllValid(ip, aliases[..n])
    ensures Start(aliases, i) + k < |AllItems(ip, aliases[..n])|
    ensures AllItems(ip, aliases[..n])[Start(aliases, i) + k] ==
            (Lower(aliases[i].names[k]), Address(ip, aliases[i].address).value)
    decreases n
  {
    assert aliases[..n][..n - 1] == aliases[..n - 1];
    ItemCount(ip, aliases[..n - 1]);
    assert ValidAlias(ip, aliases[i]) && ValidAlias(ip, aliases[n - 1]);
    if i < n - 1 {
      ItemOfName(ip, aliases, n - 1, i, k);
    }
  }

  lemma {:induction false} NameOfItem(aliases: seq<Alias>, n: nat, x: nat) returns (i: nat, k: nat)
    requires n <= |aliases| && x < Start(aliases, n)
    ensures i < n && k < |aliases[i].names| && x == Start(aliases, i) + k
    decreases n
  {
    hide Start;
    assert n > 0 by { StartZero(aliases); }
    StartStep(aliases, n - 1);
    if x < Start(aliases, n - 1) {
      i, k := NameOfItem(aliases, n - 1, x);
    } else {
      i, k := n - 1, x - Start(aliases, n - 1);
    }
  }

  lemma StartZero(aliases: seq<Alias>)
    ensures Start(aliases, 0) == 0
  {
  }

  /** No name is listed twice, ignoring case, in one alias or in two. */
  predicate NamesOnce(aliases: seq<Alias>) {
    forall i, k, j, l ::
      0 <= i < |aliases| && 0 <= k < |aliases[i].names| && 0 <= j < |aliases| && 0 <= l < |aliases[j].names| &&
      Lower(aliases[i].names[k]) == Lower(aliases[j].names[l]) ==>
      i == j && k == l
  }

  lemma DistinctExactly(ip: IpParser, aliases: seq<Alias>)
    requires AllValid(ip, aliases)
    ensures DistinctKeys(AllItems(ip, aliases)) <==> NamesOnce(aliases)
  {
    hide AllValid, AllItems, Start, Lower, Address;
    var items := AllItems(ip, aliases);
    var n := |aliases|;
    assert aliases[..n] == aliases;
    ItemCountStart(ip, aliases);
    if NamesOnce(aliases) {
      forall x, y | 0 <= x < y < |items| ensures items[x].0 != items[y].0 {
        var i, k := NameOfItem(aliases, n, x);
        var j, l := NameOfItem(aliases, n, y);
        ItemOfName(ip, aliases, n, i, k);
        ItemOfName(ip, aliases, n, j, l);
      }
    }
    if DistinctKeys(items) {
      forall i, k, j, l |
        0 <= i < |aliases| && 0 <= k < |aliases[i].names| && 0 <= j < |aliases| && 0 <= l < |aliases[j].names| &&
        Lower(aliases[i].names[k]) == Lower(aliases[j].names[l])
        ensures i == j && k == l
      {
        ItemOfName(ip, aliases, n, i, k);
        ItemOfName(ip, aliases, n, j, l);
        if i < j { StartBound(aliases, i, j); } else if j < i { StartBound(aliases, j, i); }
      }
    }
  }

  lemma ItemCountStart(ip: IpParser, aliases: seq<Alias>)
    requires AllValid(ip, aliases)
    ensures |AllItems(ip, aliases)| == Start(aliases, |aliases|)
  {
    assert aliases[..|aliases|] == aliases;
    ItemCount(ip, aliases);
  }

  /** Which declarations are accepted: at least one alias, each of them proper,
      and no name twice. */
  lemma DeclaredExactly(ip: IpParser, aliases: seq<Alias>)
    ensures Declared(ip, aliases).Some? <==>
            |aliases| >= 1 && (forall i :: 0 <= i < |aliases| ==> AliasFacts(ip, aliases[i])) && NamesOnce(aliases)
  {
    hide ValidAlias, AliasFacts, NamesOnce, AllItems, PairsDict;
    forall i | 0 <= i < |aliases| ensures ValidAlias(ip, aliases[i]) <==> AliasFacts(ip, aliases[i]) {
      AliasExactly(ip, aliases[i]);
    }
    if AllValid(ip, aliases) {
      DistinctExactly(ip, aliases);
      PairsExact(AllItems(ip, aliases));
    }
  }

  // ------------------------------------------------------------- the check

  predicate IsBlank(c: char) {
    c == ' ' || c == '\t' || c == '\n' || c == '\r' || c as int == 11 || c as int == 12
  }

  /** line.split(b"#", 1)[0] */
  function BeforeComment(line: string): string {
    if line == "" || line[0] == '#' then "" else [line[0]] + BeforeComment(line[1..])
  }

  /** bytes.split(): maximal runs without white space. */
  function Words(s: string): (r: seq<string>)
    decreases |s|
  {
    if s == "" then []
    else if IsBlank(s[0]) then Words(s[1..])
    else
      var n := WordLen(s);
      [s[..n]] + Words(s[n..])
  }

  function WordLen(s: string): (n: nat)
    requires s != "" && !IsBlank(s[0])
    ensures 1 <= n <= |s|
  {
    if |s| == 1 || IsBlank(s[1]) then 1 else 1 + WordLen(s[1..])
  }

  function Fields(line: string): seq<string> {
    Words(BeforeComment(line))
  }

  /** The line gives this name, ignoring case, an address field. */
  predicate Names(line: string, name: string) {
    |Fields(line)| >= 2 && exists i :: 1 <= i < |Fields(line)| && Lower(Fields(line)[i]) == name
  }

  /** What the address field of a line denotes. */
  function LineAddress(ip: IpParser, line: string): Option<Addr> {
    if |Fields(line)| < 2 then None else Address(ip, Lossy(Fields(line)[0]))
  }

  /** decode("ascii", errors="replace") */
  function Lossy(s: string): string {
    if s == "" then "" else [if s[0] as int >= 128 then '\U{FFFD}' else s[0]] + Lossy(s[1..])
  }

  /** Every line that names a desired alias gives it the declared address. */
  predicate Consistent(ip: IpParser, desired: map<string, Addr>, ls: seq<string>) {
    forall i, name :: 0 <= i < |ls| && name in desired && Names(ls[i], name) ==>
      LineAddress(ip, ls[i]) == Some(desired[name])
  }

  // ------------------------------------------------- lines, spelled out

  /** The bytes bytes.split() splits at: tab, LF, VT, FF, CR and space. */
  const WHITE: set<int> := {9, 10, 11, 12, 13, 32}

  predicate AllWhite(s: string) {
    forall i :: 0 <= i < |s| ==> s[i] as int in WHITE
  }

  predicate NoWhite(s: string) {
    forall i :: 0 <= i < |s| ==> s[i] as int !in WHITE
  }

  /** Gaps of white space around and between words; only the outer two may be
      empty. */
  predicate Spaced(gaps: seq<string>, words: seq<string>) {
    && |gaps| == |words| + 1 && (forall i :: 0 <= i < |gaps| ==> AllWhite(gaps[i]))
    && (forall i :: 0 < i < |words| ==> gaps[i] != "")
    && forall i :: 0 <= i < |words| ==> words[i] != "" && NoWhite(words[i])
  }

  function Interleaved(gaps: seq<string>, words: seq<string>): string
    requires |gaps| == |words| + 1
  {
    if words == [] then gaps[0] else gaps[0] + words[0] + Interleaved(gaps[1..], words[1..])
  }

  lemma BlankExactly(c: char)
    ensures IsBlank(c) <==> c as int in WHITE
  {
  }

  lemma {:induction false} WordsSkip(gap: string, rest: string)
    requires AllWhite(gap)
    ensures Words(gap + rest) == Words(rest)
  {
    if gap == "" {
      assert gap + rest == rest;
    } else {
      BlankExactly(gap[0]);
      assert (gap + rest)[1..] == gap[1..] + rest;
      WordsSkip(gap[1..], rest);
    }
  }

  lemma {:induction false} WordLenIs(w: string, rest: string)
    requires w != "" && NoWhite(w) && (rest == "" || rest[0] as int in WHITE)
    ensures !IsBlank((w + rest)[0]) && WordLen(w + rest) == |w|
  {
    BlankExactly(w[0]);
    if rest != "" { BlankExactly(rest[0]); }
    if |w| == 1 {
      assert w + rest == [w[0]] + rest;
    } else {
      BlankExactly(w[1]);
      assert (w + rest)[1..] == w[1..] + rest;
      WordLenIs(w[1..], rest);
    }
  }

  lemma WordsTake(w: string, rest: string)
    requires w != "" && NoWhite(w) && (rest == "" || rest[0] as int in WHITE)
    ensures Words(w + rest) == [w] + Words(rest)
  {
    WordLenIs(w, rest);
    hide IsBlank, WordLen;
    var t := w + rest;
    assert t[..|w|] == w && t[|w|..] == rest;
  }

  /** For every interleaving of words with gaps of white space, the words of the
      text are exactly these words in order. */
  lemma {:induction false} WordsOfSpaced(gaps: seq<string>, words: seq<string>)
    requires Spaced(gaps, words)
    ensures Words(Interleaved(gaps, words)) == words
    decreases |words|
  {
    hide Words;
    if words == [] {
      WordsSkip(gaps[0], "");
      assert gaps[0] + "" == gaps[0];
      NoWords();
    } else {
      var rest := Interleaved(gaps[1..], words[1..]);
      SpacedTail(gaps, words);
      WordsOfSpaced(gaps[1..], words[1..]);
      assert Interleaved(gaps, words) == gaps[0] + (words[0] + rest);
      WordsSkip(gaps[0], words[0] + rest);
      InterleavedStart(gaps[1..], words[1..]);
      WordsTake(words[0], rest);
      assert words == [words[0]] + words[1..];
    }
  }

  lemma NoWords()
    ensures Words("") == []
  {
  }

  lemma SpacedTail(gaps: seq<string>, words: seq<string>)
    requires Spaced(gaps, words) && words != []
    ensures Spaced(gaps[1..], words[1..]) && (|words| > 1 ==> gaps[1..][0] != "")
  {
    hide AllWhite, NoWhite;
  }

  lemma InterleavedStart(gaps: seq<string>, words: seq<string>)
    requires Spaced(gaps, words) && (words != [] ==> gaps[0] != "")
    ensures var t := Interleaved(gaps, words); t == "" || t[0] as int in WHITE
  {
  }

  /** Every text is such an interleaving of its words. */
  lemma {:induction false} WordsAreSpaced(s: string) returns (gaps: seq<string>)
    ensures Spaced(gaps, Words(s)) && Interleaved(gaps, Words(s)) == s
    ensures s != "" && s[0] as int !in WHITE ==> gaps[0] == ""
    ensures s != "" && s[0] as int in WHITE ==> gaps[0] != ""
    decreases |s|
  {
    if s == "" {
      gaps := [""];
    } else {
      BlankExactly(s[0]);
      if IsBlank(s[0]) {
        var g := WordsAreSpaced(s[1..]);
        gaps := [[s[0]] + g[0]] + g[1..];
        GapBefore(s[0], g, Words(s[1..]));
        assert s == [s[0]] + s[1..];
      } else {
        var n := WordLen(s);
        WordLenStops(s);
        var g := WordsAreSpaced(s[n..]);
        gaps := [""] + g;
        WordBefore(s[..n], g, Words(s[n..]));
        assert Words(s) == [s[..n]] + Words(s[n..]);
        assert s == s[..n] + s[n..];
      }
    }
  }

  lemma GapBefore(c: char, g: seq<string>, words: seq<string>)
    requires c as int in WHITE && Spaced(g, words)
    ensures var gaps := [[c] + g[0]] + g[1..];
            Spaced(gaps, words) && Interleaved(gaps, words) == [c] + Interleaved(g, words)
  {
    hide NoWhite;
    var gaps := [[c] + g[0]] + g[1..];
    assert AllWhite(g[0]) && AllWhite([c] + g[0]);
    hide AllWhite;
    assert gaps[1..] == g[1..];
    assert forall i :: 0 < i < |gaps| ==> gaps[i] == g[i];
  }

  lemma WordBefore(w: string, g: seq<string>, words: seq<string>)
    requires w != "" && NoWhite(w) && Spaced(g, words) && (words != [] ==> g[0] != "")
    ensures Spaced([""] + g, [w] + words) && Interleaved([""] + g, [w] + words) == w + Interleaved(g, words)
  {
    var gaps, all := [""] + g, [w] + words;
    assert gaps[1..] == g && all[1..] == words;
    assert AllWhite("");
    hide NoWhite, AllWhite;
    assert "" + w == w;
    forall i | 0 < i < |all| ensures gaps[i] != "" {
      assert gaps[i] == g[i - 1];
    }
  }

  lemma {:induction false} WordLenStops(s: string)
    requires s != "" && !IsBlank(s[0])
    ensures NoWhite(s[..WordLen(s)]) && (WordLen(s) < |s| ==> s[WordLen(s)] as int in WHITE)
    ensures Words(s[WordLen(s)..]) != [] ==> WordLen(s) < |s|
  {
    BlankExactly(s[0]);
    if |s| > 1 {
      BlankExactly(s[1]);
      if !IsBlank(s[1]) {
        WordLenStops(s[1..]);
        var n := WordLen(s[1..]);
        assert s[..n + 1] == [s[0]] + s[1..][..n];
        assert s[n + 1..] == s[1..][n..];
      }
    }
  }

  /** Text from the first "#" on adds no field, and text before it loses none. */
  lemma {:induction false} CommentCut(before: string, comment: string)
    requires '#' !in before && (comment == "" || comment[0] == '#')
    ensures BeforeComment(before + comment) == before
  {
    if before == "" {
      assert before + comment == comment;
    } else {
      assert (before + comment)[1..] == before[1..] + comment;
      CommentCut(before[1..], comment);
      assert before == [before[0]] + before[1..];
    }
  }

  /** A hosts line: words with white space around them, then an optional comment. */
  predicate HostsLine(line: string, gaps: seq<string>, words: seq<string>, comment: string) {
    && Spaced(gaps, words) && '#' !in Interleaved(gaps, words) && (comment == "" || comment[0] == '#')
    && line == Interleaved(gaps, words) + comment
  }

  /** The fields of a line are the words before its comment. */
  lemma FieldsExactly(line: string, gaps: seq<string>, words: seq<string>, comment: string)
    requires HostsLine(line, gaps, words, comment)
    ensures Fields(line) == words
  {
    hide AllWhite, NoWhite, Words;
    CommentCut(Interleaved(gaps, words), comment);
    WordsOfSpaced(gaps, words);
  }

  lemma {:induction false} CommentSplits(line: string) returns (comment: string)
    ensures line == BeforeComment(line) + comment && '#' !in BeforeComment(line)
    ensures comment == "" || comment[0] == '#'
  {
    if line == "" || line[0] == '#' {
      comment := line;
    } else {
      comment := CommentSplits(line[1..]);
      var tail := BeforeComment(line[1..]);
      assert BeforeComment(line) == [line[0]] + tail;
      hide BeforeComment;
      assert line == [line[0]] + line[1..];
      assert [line[0]] + (tail + comment) == ([line[0]] + tail) + comment;
    }
  }

  lemma LineIsHostsLine(line: string) returns (gaps: seq<string>, comment: string)
    ensures HostsLine(line, gaps, Fields(line), comment)
  {
    comment := CommentSplits(line);
    gaps := WordsAreSpaced(BeforeComment(line));
  }

  /** Characters above ASCII read as U+FFFD, capitals as small letters. */
  const SMALL_OF: map<char, char> :=
    map['A' := 'a', 'B' := 'b', 'C' := 'c', 'D' := 'd', 'E' := 'e', 'F' := 'f', 'G' := 'g', 'H' := 'h', 'I' := 'i',
        'J' := 'j', 'K' := 'k', 'L' := 'l', 'M' := 'm', 'N' := 'n', 'O' := 'o', 'P' := 'p', 'Q' := 'q', 'R' := 'r',
        'S' := 's', 'T' := 't', 'U' := 'u', 'V' := 'v', 'W' := 'w', 'X' := 'x', 'Y' := 'y', 'Z' := 'z']

  lemma LowerCharExactly(c: char)
    ensures c in SMALL_OF <==> c in CAPITALS
    ensures LowerChar(c) == if c in SMALL_OF then SMALL_OF[c] else if c as int > 127 then '\U{FFFD}' else c
  {
    CapitalExactly(c);
  }

  lemma {:induction false} LossyExactly(s: string)
    ensures |Lossy(s)| == |s|
    ensures forall i :: 0 <= i < |s| ==> Lossy(s)[i] == if s[i] as int > 127 then '\U{FFFD}' else s[i]
  {
    if s != "" {
      LossyExactly(s[1..]);
      assert Lossy(s)[1..] == Lossy(s[1..]);
    }
  }

  lemma {:induction false} LowerAt(s: string, i: nat)
    requires i < |s|
    ensures Lower(s)[i] == LowerChar(s[i])
  {
    hide LowerChar;
    if i > 0 {
      LowerAt(s[1..], i - 1);
    }
  }

  lemma LowerExactly(s: string)
    ensures |Lower(s)| == |s|
    ensures forall i :: 0 <= i < |s| ==>
              Lower(s)[i] == if s[i] in SMALL_OF then SMALL_OF[s[i]] else if s[i] as int > 127 then '\U{FFFD}' else s[i]
  {
    hide SMALL_OF, LowerChar, Lower;
    forall i | 0 <= i < |s|
      ensures Lower(s)[i] == if s[i] in SMALL_OF then SMALL_OF[s[i]] else if s[i] as int > 127 then '\U{FFFD}' else s[i]
    {
      LowerAt(s, i);
      LowerCharExactly(s[i]);
    }
  }

  /** The address field is a literal unscoped address with this value. */
  predicate Denotes(ip: IpParser, field: string, a: Addr) {
    '%' !in field && ip(Lossy(field)) == Some(a)
  }

  lemma {:induction false} LossyPercent(s: string)
    ensures '%' in Lossy(s) <==> '%' in s
  {
    if s != "" {
      LossyPercent(s[1..]);
      assert s == [s[0]] + s[1..];
    }
  }

  /** Word k of the line, after the first, is this name, ignoring case. */
  predicate Gives(line: string, name: string, gaps: seq<string>, words: seq<string>, comment: string, k: nat) {
    HostsLine(line, gaps, words, comment) && 1 <= k < |words| && Lower(words[k]) == name
  }

  ghost predicate Mentions(line: string, name: string) {
    exists gaps, words, comment, k :: Gives(line, name, gaps, words, comment, k)
  }

  /** Wherever the line gives the name, its first word denotes this address. */
  ghost predicate MapsOnlyTo(ip: IpParser, line: string, name: string, a: Addr) {
    forall gaps, words, comment, k :: Gives(line, name, gaps, words, comment, k) ==> Denotes(ip, words[0], a)
  }

  lemma NamesExactly(ip: IpParser, line: string, name: string, a: Addr)
    ensures Names(line, name) <==> Mentions(line, name)
    ensures (Names(line, name) ==> LineAddress(ip, line) == Some(a)) <==> MapsOnlyTo(ip, line, name, a)
  {
    hide HostsLine, Fields, Lower, Lossy;
    var gaps, comment := LineIsHostsLine(line);
    var fields := Fields(line);
    forall gaps, words, comment, k | Gives(line, name, gaps, words, comment, k) ensures words == fields {
      FieldsExactly(line, gaps, words, comment);
    }
    if Names(line, name) {
      var k :| 1 <= k < |fields| && Lower(fields[k]) == name;
      assert Gives(line, name, gaps, fields, comment, k);
      LossyPercent(fields[0]);
      assert LineAddress(ip, line) == Some(a) <==> Denotes(ip, fields[0], a);
    }
  }

  /** The conflict test on the shape of lines: on every line made of words, white
      space and an optional comment, each word after the first that is a declared
      name, ignoring case, has its declared address as the first word. */
  ghost predicate NoConflict(ip: IpParser, desired: map<string, Addr>, ls: seq<string>) {
    forall i, name :: 0 <= i < |ls| && name in desired ==> MapsOnlyTo(ip, ls[i], name, desired[name])
  }

  lemma ConsistentExactly(ip: IpParser, desired: map<string, Addr>, ls: seq<string>)
    ensures Consistent(ip, desired, ls) <==> NoConflict(ip, desired, ls)
  {
    hide Names, LineAddress, MapsOnlyTo, Mentions;
    forall i, name | 0 <= i < |ls| && name in desired
      ensures (Names(ls[i], name) ==> LineAddress(ip, ls[i]) == Some(desired[name])) <==>
              MapsOnlyTo(ip, ls[i], name, desired[name])
    {
      NamesExactly(ip, ls[i], name, desired[name]);
    }
  }

  /** The line gives no declared name another address. */
  predicate LineConsistent(ip: IpParser, desired: map<string, Addr>, line: string) {
    forall name :: name in desired && Names(line, name) ==> LineAddress(ip, line) == Some(desired[name])
  }

  /** The inner loop of check_hosts(): the names of one line. */
  method CheckLine(ip: IpParser, desired: map<string, Addr>, line: string) returns (ok: bool)
    ensures ok <==> LineConsistent(ip, desired, line)
  {
    var fields := Fields(line);
    if |fields| < 2 {
      return true;
    }
    hide Fields, Lower, Lossy;
    var address := Address(ip, Lossy(fields[0]));
    for k := 1 to |fields|
      invariant forall i :: 1 <= i < k && Lower(fields[i]) in desired ==> address == Some(desired[Lower(fields[i])])
    {
      var name := Lower(fields[k]);
      if name in desired && address != Some(desired[name]) {
        assert Names(line, name);
        return false;
      }
    }
    ok := true;
  }

  /** The loops of check_hosts() over the unmanaged lines. */
  method CheckHosts(ip: IpParser, desired: map<string, Addr>, data: string) returns (ok: bool)
    ensures ok <==> Outside(data).Some? && NoConflict(ip, desired, Lines(Outside(data).value))
  {
    hide NoConflict, Names, LineAddress, Outside, Lines;
    var outside := OutsideBlock(data);
    if outside.None? {
      return false;
    }
    var lines := Lines(outside.value);
    ConsistentExactly(ip, desired, lines);
    for n := 0 to |lines|
      invariant forall i :: 0 <= i < n ==> LineConsistent(ip, desired, lines[i])
    {
      var fine := CheckLine(ip, desired, lines[n]);
      if !fine {
        return false;
      }
    }
    ok := true;
  }

  /** A block states exactly the declared pairs: every declared name is given,
      and never with another address. */
  ghost predicate StatesExactly(ip: IpParser, desired: map<string, Addr>, body: string) {
    && NoConflict(ip, desired, Lines(body))
    && forall name :: name in desired ==> exists i :: 0 <= i < |Lines(body)| && Mentions(Lines(body)[i], name)
  }

  /** A file resolves a name to exactly one address. */
  ghost predicate Resolves(ip: IpParser, file: string, name: string, a: Addr) {
    var ls := Lines(file);
    && (exists i :: 0 <= i < |ls| && Mentions(ls[i], name))
    && forall i :: 0 <= i < |ls| ==> MapsOnlyTo(ip, ls[i], name, a)
  }

  lemma CommentHasNoFields(line: string)
    requires line != "" && line[0] == '#'
    ensures Fields(line) == []
  {
  }

  /** If the check accepts a file, then any file made of its unmanaged lines and,
      at a line boundary, a block stating exactly the declared pairs resolves
      every declared name, ignoring case, to exactly its declared address. */
  lemma AcceptedMerges(ip: IpParser, desired: map<string, Addr>, data: string, p: nat, body: string, name: string)
    requires Outside(data).Some? && NoConflict(ip, desired, Lines(Outside(data).value))
    requires p <= |Outside(data).value| && SafeJoin(Outside(data).value[..p], Outside(data).value[p..])
    requires Terminated(body) && StatesExactly(ip, desired, body) && name in desired
    ensures var o := Outside(data).value;
            Resolves(ip, o[..p] + BlockText(body) + o[p..], name, desired[name])
  {
    hide Outside, Lines, BEGIN, END, Names, LineAddress, BlockText, Mentions, MapsOnlyTo;
    var o := Outside(data).value;
    var a, c := o[..p], o[p..];
    assert o == a + c;
    LinesAppend(a, c);
    InsertedLines(a, body, c);
    MarkerComments();
    ConsistentExactly(ip, desired, Lines(o));
    ConsistentExactly(ip, desired, Lines(body));
    MergedConsistent(ip, desired, Lines(a), Lines(body), Lines(c));
    var i :| 0 <= i < |Lines(body)| && Mentions(Lines(body)[i], name);
    var ls := Lines(a) + ([BEGIN + "\n"] + (Lines(body) + [END + "\n"])) + Lines(c);
    ConsistentExactly(ip, desired, ls);
    assert ls[|Lines(a)| + 1 + i] == Lines(body)[i];
  }

  lemma MarkerComments()
    ensures forall name :: !Names(BEGIN + "\n", name) && !Names(END + "\n", name)
  {
    assert (BEGIN + "\n")[0] == '#' && (END + "\n")[0] == '#';
    hide BEGIN, END, Words, BeforeComment;
    CommentHasNoFields(BEGIN + "\n");
    CommentHasNoFields(END + "\n");
  }

  lemma MergedConsistent(ip: IpParser, desired: map<string, Addr>, a: seq<string>, b: seq<string>, c: seq<string>)
    requires Consistent(ip, desired, a + c) && Consistent(ip, desired, b)
    requires forall name :: !Names(BEGIN + "\n", name) && !Names(END + "\n", name)
    ensures Consistent(ip, desired, a + ([BEGIN + "\n"] + (b + [END + "\n"])) + c)
  {
    hide BEGIN, END, Names, LineAddress;
    var ls := a + ([BEGIN + "\n"] + (b + [END + "\n"])) + c;
    assert ls[|a|] == BEGIN + "\n" && ls[|a| + 1 + |b|] == END + "\n";
    forall i, name | 0 <= i < |ls| && name in desired && Names(ls[i], name)
      ensures LineAddress(ip, ls[i]) == Some(desired[name])
    {
      if i < |a| {
        assert ls[i] == (a + c)[i];
      } else if |a| < i <= |a| + |b| {
        assert ls[i] == b[i - |a| - 1];
      } else if i > |a| + 1 + |b| {
        assert ls[i] == (a + c)[i - |b| - 2];
      }
    }
  }
}

/** Path separation and the directory list of
    roles/grafana_alloy/filter_plugins/initial_activation.py. */
module AlloyPaths {
  import opened Text
  import opened Patterns

  // --------------------------------------------------------------- components

  predicate IsComponent(c: string) {
    c != "" && c != "." && c != ".." && NameChars(c)
  }

  predicate AllComponents(cs: seq<string>) {
    forall i :: 0 <= i < |cs| ==> IsComponent(cs[i])
  }

  /** The names between the slashes of an absolute path. */
  function Components(path: string): seq<string> {
    if path == "" then [] else Split(path[1..], '/')
  }

  /** safe_path(): allowed characters, not "/", and already normal. */
  predicate SafePath(path: string) {
    |path| > 1 && path[0] == '/' && AllComponents(Components(path))
  }

  function PathOf(cs: seq<string>): string {
    "/" + JoinWith(cs, "/")
  }

  lemma ComponentNoSlash(c: string)
    requires IsComponent(c)
    ensures '/' !in c
  {
    assert forall i :: 0 <= i < |c| ==> NameChar(c[i]);
  }

  lemma ComponentsNoSlash(cs: seq<string>)
    requires AllComponents(cs)
    ensures forall i :: 0 <= i < |cs| ==> '/' !in cs[i]
  {
    forall i | 0 <= i < |cs| ensures '/' !in cs[i] { ComponentNoSlash(cs[i]); }
  }

  lemma {:induction false} JoinSplit(s: string, sep: char)
    ensures JoinWith(Split(s, sep), [sep]) == s
  {
    if s != "" {
      var rest := Split(s[1..], sep);
      JoinSplit(s[1..], sep);
      var all := Split(s, sep);
      if s[0] == sep {
        assert all[1..] == rest;
        assert s == [sep] + s[1..];
      } else {
        assert s == [s[0]] + s[1..];
        assert all[1..] == rest[1..];
        if |rest| > 1 {
          assert JoinWith(all, [sep]) == [s[0]] + rest[0] + [sep] + JoinWith(rest[1..], [sep]);
        }
      }
    }
  }

  lemma {:induction false} JoinAppend(a: seq<string>, b: seq<string>, sep: string)
    requires a != [] && b != []
    ensures JoinWith(a + b, sep) == JoinWith(a, sep) + sep + JoinWith(b, sep)
  {
    if |a| == 1 {
      assert (a + b)[1..] == b;
    } else {
      assert (a + b)[1..] == a[1..] + b;
      JoinAppend(a[1..], b, sep);
    }
  }

  /** A path is its components. */
  lemma PathOfComponents(path: string)
    requires SafePath(path)
    ensures PathOf(Components(path)) == path
  {
    JoinSplit(path[1..], '/');
    assert path == ['/'] + path[1..];
  }

  lemma ComponentsOfPath(cs: seq<string>)
    requires cs != [] && AllComponents(cs)
    ensures SafePath(PathOf(cs)) && Components(PathOf(cs)) == cs
  {
    ComponentsNoSlash(cs);
    SplitJoin(cs, '/');
    assert PathOf(cs)[1..] == JoinWith(cs, "/");
    hide Split;
    JoinNonempty(cs);
  }

  lemma JoinNonempty(cs: seq<string>)
    requires cs != [] && cs[0] != ""
    ensures JoinWith(cs, "/") != ""
  {
  }

  // ------------------------------------------------- the checks of safe_path()

  /** The component loop of os.path.normpath for an absolute path. */
  function NormalComponents(cs: seq<string>, acc: seq<string>): seq<string>
    decreases |cs|
  {
    if cs == [] then acc
    else if cs[0] == "" || cs[0] == "." then NormalComponents(cs[1..], acc)
    else if cs[0] == ".." then NormalComponents(cs[1..], if acc == [] then [] else acc[..|acc| - 1])
    else NormalComponents(cs[1..], acc + [cs[0]])
  }

  /** os.path.normpath of an absolute path; exactly two leading slashes stay. */
  function NormPath(path: string): string {
    (if StartsWith(path, "//") && !StartsWith(path, "///") then "//" else "/") +
    JoinWith(NormalComponents(Split(path, '/'), []), "/")
  }

  predicate DoubleSlash(path: string) {
    exists i :: 0 <= i < |path| - 1 && path[i] == '/' && path[i + 1] == '/'
  }

  /** The text of safe_path(): the pattern /[A-Za-z0-9_./-]+ and the three tests. */
  predicate SafePathText(path: string) {
    && |path| > 1 && path[0] == '/' && (forall i :: 0 <= i < |path| ==> NameChar(path[i]) || path[i] == '/')
    && path != "/" && NormPath(path) == path && !DoubleSlash(path)
  }

  predicate Ordinary(c: string) {
    c != "" && c != "." && c != ".." && '/' !in c
  }

  lemma {:induction false} NormalIsOrdinary(cs: seq<string>, acc: seq<string>)
    requires (forall i :: 0 <= i < |acc| ==> Ordinary(acc[i])) && forall i :: 0 <= i < |cs| ==> '/' !in cs[i]
    ensures forall i :: 0 <= i < |NormalComponents(cs, acc)| ==> Ordinary(NormalComponents(cs, acc)[i])
    decreases |cs|
  {
    if cs != [] {
      var next := if cs[0] == "" || cs[0] == "." then acc
                  else if cs[0] == ".." then (if acc == [] then [] else acc[..|acc| - 1])
                  else acc + [cs[0]];
      NormalIsOrdinary(cs[1..], next);
    }
  }

  lemma {:induction false} OrdinaryIsNormal(cs: seq<string>, acc: seq<string>)
    requires forall i :: 0 <= i < |cs| ==> Ordinary(cs[i])
    ensures NormalComponents(cs, acc) == acc + cs
    decreases |cs|
  {
    if cs != [] {
      OrdinaryIsNormal(cs[1..], acc + [cs[0]]);
      assert acc + [cs[0]] + cs[1..] == acc + cs;
    }
  }

  lemma {:induction false} SplitChars(s: string, i: nat, k: nat)
    requires i < |Split(s, '/')| && k < |Split(s, '/')[i]|
    ensures Split(s, '/')[i][k] in s
  {
    if s[0] == '/' {
      SplitChars(s[1..], i - 1, k);
    } else if i > 0 {
      SplitChars(s[1..], i, k);
    } else if k > 0 {
      SplitChars(s[1..], 0, k - 1);
    }
  }

  lemma {:induction false} CharsSplit(s: string, j: nat)
    requires j < |s| && s[j] != '/'
    ensures exists i, k :: 0 <= i < |Split(s, '/')| && 0 <= k < |Split(s, '/')[i]| && Split(s, '/')[i][k] == s[j]
  {
    var all := Split(s, '/');
    var rest := Split(s[1..], '/');
    if s[0] == '/' {
      CharsSplit(s[1..], j - 1);
      var i, k :| 0 <= i < |rest| && 0 <= k < |rest[i]| && rest[i][k] == s[j];
      assert all[i + 1][k] == s[j];
    } else if j == 0 {
      assert all[0][0] == s[0];
    } else {
      CharsSplit(s[1..], j - 1);
      var i, k :| 0 <= i < |rest| && 0 <= k < |rest[i]| && rest[i][k] == s[j];
      assert i == 0 ==> all[0][k + 1] == s[j];
      assert i > 0 ==> all[i][k] == s[j];
    }
  }

  lemma AbsoluteSplit(path: string)
    requires path != "" && path[0] == '/'
    ensures Split(path, '/') == [""] + Components(path)
  {
  }

  /** The component view is exactly what safe_path() accepts. */
  lemma SafePathExactly(path: string)
    ensures SafePathText(path) <==> SafePath(path)
  {
    if SafePathText(path) {
      TextGivesComponents(path);
    }
    if SafePath(path) {
      ComponentsGiveText(path);
    }
  }

  lemma TextGivesComponents(path: string)
    requires SafePathText(path)
    ensures SafePath(path)
  {
    var cs := Components(path);
    var norm := NormalComponents(Split(path, '/'), []);
    AbsoluteSplit(path);
    NormalIsOrdinary(Split(path, '/'), []);
    hide NormalComponents, Split;
    if StartsWith(path, "//") { DoubleStart(path); }
    assert JoinWith([], "/") == "" && path[1..] == JoinWith(norm, "/");
    SplitJoin(norm, '/');
    assert cs == norm;
    forall i | 0 <= i < |cs| ensures IsComponent(cs[i]) {
      forall k | 0 <= k < |cs[i]| ensures NameChar(cs[i][k]) {
        SplitChars(path[1..], i, k);
        assert cs[i][k] != '/';
      }
    }
  }

  lemma ComponentsGiveText(path: string)
    requires SafePath(path)
    ensures SafePathText(path)
  {
    var cs := Components(path);
    AbsoluteSplit(path);
    ComponentsNoSlash(cs);
    OrdinaryIsNormal(cs, []);
    assert ([""] + cs)[1..] == cs && NormalComponents([""] + cs, []) == cs;
    PathOfComponents(path);
    NoDoubleSlash(path);
    hide NormalComponents, Split, JoinWith;
    if StartsWith(path, "//") { DoubleStart(path); }
    forall j | 0 <= j < |path| ensures NameChar(path[j]) || path[j] == '/' {
      if path[j] != '/' {
        CharsSplit(path[1..], j - 1);
        var i, k :| 0 <= i < |cs| && 0 <= k < |cs[i]| && cs[i][k] == path[1..][j - 1];
        assert IsComponent(cs[i]);
      }
    }
  }

  lemma DoubleStart(path: string)
    requires StartsWith(path, "//")
    ensures DoubleSlash(path)
  {
    assert path[0] == path[..2][0] && path[1] == path[..2][1];
  }

  lemma NoDoubleSlash(path: string)
    requires SafePath(path)
    ensures !DoubleSlash(path)
  {
    hide Split;
    if DoubleSlash(path) {
      var i := EmptyComponent(path);
    }
  }

  lemma EmptyComponent(path: string) returns (n: nat)
    requires path != "" && path[0] == '/' && DoubleSlash(path)
    ensures n < |Components(path)| && Components(path)[n] == ""
  {
    var i :| 0 <= i < |path| - 1 && path[i] == '/' && path[i + 1] == '/';
    var t := path[1..];
    if i == 0 {
      assert t[0] == '/';
      n := 0;
    } else {
      var a, b := t[..i - 1], t[i..];
      assert t == a + ['/'] + b && b[0] == '/';
      SplitAppend(a, b, '/');
      assert Split(b, '/')[0] == "";
      n := |Split(a, '/')|;
    }
  }

  // --------------------------------------------------------------- separation

  /** path.startswith(p + "/") */
  predicate Inside(path: string, p: string) {
    StartsWith(path, p + "/")
  }

  predicate ProperPrefix(a: seq<string>, b: seq<string>) {
    |a| < |b| && b[..|a|] == a
  }

  /** The string tests coincide with the order of components. */
  lemma InsideIsProperPrefix(path: string, p: string)
    requires SafePath(path) && SafePath(p)
    ensures Inside(path, p) <==> ProperPrefix(Components(p), Components(path))
    ensures path == p <==> Components(path) == Components(p)
  {
    hide Split, AllComponents, JoinWith;
    var a, b := Components(p), Components(path);
    PathOfComponents(path);
    PathOfComponents(p);
    if Inside(path, p) {
      InsideGivesPrefix(path, p);
    }
    if ProperPrefix(a, b) {
      PrefixGivesInside(a, b);
    }
  }

  lemma InsideGivesPrefix(path: string, p: string)
    requires p != "" && Inside(path, p)
    ensures ProperPrefix(Components(p), Components(path))
  {
    hide Split;
    var t := path[|p| + 1..];
    assert path == path[..|p| + 1] + t;
    assert path[1..] == p[1..] + ['/'] + t;
    SplitAppend(p[1..], t, '/');
  }

  lemma PrefixGivesInside(a: seq<string>, b: seq<string>)
    requires a != [] && ProperPrefix(a, b)
    ensures Inside(PathOf(b), PathOf(a))
  {
    hide JoinWith;
    var rest := b[|a|..];
    assert b == a + rest;
    JoinAppend(a, rest, "/");
    assert PathOf(b) == (PathOf(a) + "/") + JoinWith(rest, "/");
  }

  /** Components of the two control inputs, initial-activation.json and
      inventory.yml, and of both writers' lifecycle trees. */
  const RESERVED: seq<seq<string>> := [
    ["etc", "alloy", "pki", "initial-activation.json"], ["etc", "alloy", "pki", "inventory.yml"],
    ["etc", "alloy", "pki", "loki", "tls-pending"], ["etc", "alloy", "pki", "loki", "tls-versions"],
    ["etc", "alloy", "pki", "mimir", "tls-pending"], ["etc", "alloy", "pki", "mimir", "tls-versions"]]

  lemma ReservedComponents(i: nat)
    requires i < |RESERVED|
    ensures RESERVED[i] != [] && AllComponents(RESERVED[i])
  {
    ReservedNames();
    hide IsComponent;
  }

  lemma ReservedNames()
    ensures IsComponent("etc") && IsComponent("alloy") && IsComponent("pki")
    ensures IsComponent("loki") && IsComponent("mimir")
    ensures IsComponent("initial-activation.json") && IsComponent("inventory.yml")
    ensures IsComponent("tls-pending") && IsComponent("tls-versions")
  {
  }

  lemma ReservedSafe(i: nat)
    requires i < |RESERVED|
    ensures SafePath(PathOf(RESERVED[i])) && Components(PathOf(RESERVED[i])) == RESERVED[i]
  {
    ReservedComponents(i);
    hide RESERVED;
    ComponentsOfPath(RESERVED[i]);
  }

  /** /etc/alloy/pki/<name> */
  function PkiPath(name: string): string {
    "/" + ("etc" + "/" + ("alloy" + "/" + ("pki" + "/" + name)))
  }

  /** The string tests against one reserved path. */
  predicate Clear(ca: string, p: string) {
    ca != p && !StartsWith(ca, p + "/") && !StartsWith(p, ca + "/")
  }

  /** A CA file clear of both control inputs and of both trees of both writers. */
  predicate ClearOfReserved(ca: string) {
    && Clear(ca, PkiPath("initial-activation.json")) && Clear(ca, PkiPath("inventory.yml"))
    && Clear(ca, PkiPath("loki" + "/" + "tls-pending")) && Clear(ca, PkiPath("loki" + "/" + "tls-versions"))
    && Clear(ca, PkiPath("mimir" + "/" + "tls-pending")) && Clear(ca, PkiPath("mimir" + "/" + "tls-versions"))
  }

  lemma JoinCons(x: string, rest: seq<string>)
    requires rest != []
    ensures JoinWith([x] + rest, "/") == x + "/" + JoinWith(rest, "/")
  {
    assert ([x] + rest)[1..] == rest;
  }

  lemma JoinOne(x: string)
    ensures JoinWith([x], "/") == x
  {
  }

  lemma PathOfFour(name: string)
    ensures PathOf(["etc", "alloy", "pki", name]) == PkiPath(name)
  {
    hide JoinWith;
    JoinOne(name);
    JoinPki([name], name);
    assert ["etc", "alloy", "pki"] + [name] == ["etc", "alloy", "pki", name];
  }

  lemma PathOfFive(writer: string, tree: string)
    ensures PathOf(["etc", "alloy", "pki", writer, tree]) == PkiPath(writer + "/" + tree)
  {
    hide JoinWith;
    JoinOne(tree);
    JoinCons(writer, [tree]);
    assert [writer] + [tree] == [writer, tree];
    JoinPki([writer, tree], writer + "/" + tree);
    assert ["etc", "alloy", "pki"] + [writer, tree] == ["etc", "alloy", "pki", writer, tree];
  }

  lemma JoinPki(rest: seq<string>, text: string)
    requires rest != [] && JoinWith(rest, "/") == text
    ensures PathOf(["etc", "alloy", "pki"] + rest) == PkiPath(text)
  {
    hide JoinWith;
    JoinCons("pki", rest);
    JoinCons("alloy", ["pki"] + rest);
    JoinCons("etc", ["alloy"] + (["pki"] + rest));
    assert ["etc", "alloy", "pki"] + rest == ["etc"] + (["alloy"] + (["pki"] + rest));
  }

  lemma ReservedExactly(ca: string)
    requires SafePath(ca)
    ensures ClearOfReserved(ca) <==> forall k :: 0 <= k < |RESERVED| ==> Separate(ca, k)
  {
    PathOfFour("initial-activation.json");
    PathOfFour("inventory.yml");
    PathOfFive("loki", "tls-pending");
    PathOfFive("loki", "tls-versions");
    PathOfFive("mimir", "tls-pending");
    PathOfFive("mimir", "tls-versions");
    hide PathOf, PkiPath, Clear, SafePath, Components, ProperPrefix, Separate;
    assert |RESERVED| == 6;
    forall k | 0 <= k < |RESERVED| ensures Clear(ca, PathOf(RESERVED[k])) <==> Separate(ca, k) { ClearSeparate(ca, k); }
    assert Separate(ca, 0) <==> Clear(ca, PathOf(RESERVED[0]));
    assert Separate(ca, 1) <==> Clear(ca, PathOf(RESERVED[1]));
    assert Separate(ca, 2) <==> Clear(ca, PathOf(RESERVED[2]));
    assert Separate(ca, 3) <==> Clear(ca, PathOf(RESERVED[3]));
    assert Separate(ca, 4) <==> Clear(ca, PathOf(RESERVED[4]));
    assert Separate(ca, 5) <==> Clear(ca, PathOf(RESERVED[5]));
  }

  lemma ClearSeparate(ca: string, k: nat)
    requires SafePath(ca) && k < |RESERVED|
    ensures Clear(ca, PathOf(RESERVED[k])) <==> Separate(ca, k)
  {
    hide RESERVED, SafePath, Components, ProperPrefix, PathOf;
    var p := PathOf(RESERVED[k]);
    ReservedSafe(k);
    InsideIsProperPrefix(ca, p);
    InsideIsProperPrefix(p, ca);
  }

  /** The loops of validate() over the writers' CA files and the reserved paths:
      every CA file is clear of them, as strings and by components. */
  method CheckCaFiles(caFiles: seq<string>) returns (ok: bool)
    requires forall i :: 0 <= i < |caFiles| ==> SafePath(caFiles[i])
    ensures ok <==> forall i :: 0 <= i < |caFiles| ==> ClearOfReserved(caFiles[i])
    ensures ok <==> forall i, k :: 0 <= i < |caFiles| && 0 <= k < |RESERVED| ==> Separate(caFiles[i], k)
  {
    hide RESERVED, SafePath, Components, ProperPrefix, PathOf, ClearOfReserved;
    forall i | 0 <= i < |caFiles|
      ensures ClearOfReserved(caFiles[i]) <==> forall k :: 0 <= k < |RESERVED| ==> Separate(caFiles[i], k)
    {
      ReservedExactly(caFiles[i]);
    }
    for i := 0 to |caFiles|
      invariant forall i', k :: 0 <= i' < i && 0 <= k < |RESERVED| ==> Separate(caFiles[i'], k)
    {
      var ca := caFiles[i];
      for k := 0 to |RESERVED|
        invariant forall k' :: 0 <= k' < k ==> Separate(ca, k')
      {
        var p := PathOf(RESERVED[k]);
        ReservedSafe(k);
        InsideIsProperPrefix(ca, p);
        InsideIsProperPrefix(p, ca);
        if ca == p || StartsWith(ca, p + "/") || StartsWith(p, ca + "/") {
          assert !Separate(ca, k);
          return false;
        }
      }
    }
    ok := true;
  }

  /** The CA file neither is, contains, nor lies inside reserved path k. */
  predicate Separate(ca: string, k: nat)
    requires k < |RESERVED|
  {
    var a, b := Components(ca), RESERVED[k];
    a != b && !ProperPrefix(a, b) && !ProperPrefix(b, a)
  }

  /** Nothing at or below a reserved path is a separated CA file; in particular
      no client certificate or key of either writer's versions is. */
  lemma SeparateFromTree(ca: string, k: nat, below: seq<string>)
    requires SafePath(ca) && k < |RESERVED| && Separate(ca, k) && AllComponents(below)
    ensures ca != PathOf(RESERVED[k] + below)
  {
    ReservedComponents(k);
    hide RESERVED;
    var cs := RESERVED[k] + below;
    ComponentsOfPath(cs);
    assert cs[..|RESERVED[k]|] == RESERVED[k];
    assert below == [] ==> cs == RESERVED[k];
  }

  function VersionFile(writer: string, version: string, name: string): string {
    PathOf(["etc", "alloy", "pki", writer, "tls-versions"] + [version, name])
  }

  lemma NeverClientFile(ca: string, writer: string, version: string, name: string)
    requires SafePath(ca) && forall k :: 0 <= k < |RESERVED| ==> Separate(ca, k)
    requires writer == "loki" || writer == "mimir"
    requires IsHex(version, 32) && (name == "fullchain.crt" || name == "tls.key")
    ensures ca != VersionFile(writer, version, name)
  {
    var k := if writer == "loki" then 3 else 5;
    assert RESERVED[k] == ["etc", "alloy", "pki", writer, "tls-versions"];
    assert Separate(ca, k);
    HexComponent(version, 32);
    assert IsComponent(name);
    hide RESERVED, IsComponent;
    assert AllComponents([version, name]);
    SeparateFromTree(ca, k, [version, name]);
  }

  lemma HexComponent(s: string, n: nat)
    requires IsHex(s, n) && n > 2
    ensures IsComponent(s)
  {
    assert HexDigit(s[0]);
  }

  // -------------------------------------------------------------- directories

  /** The directory k components below the root on the way to a path. */
  function Ancestor(path: string, k: nat): string
    requires SafePath(path) && k <= |Components(path)|
  {
    PathOf(Components(path)[..k])
  }

  /** str(p) for p in Path(path).parents */
  function Parents(path: string): set<string>
    requires SafePath(path)
  {
    set k: nat | k < |Components(path)| :: Ancestor(path, k)
  }

  function Slashes(s: string): nat {
    if s == "" then 0 else (if s[0] == '/' then 1 else 0) + Slashes(s[1..])
  }

  /** key=lambda p: (p.count("/"), p) */
  predicate DirLess(a: string, b: string) {
    Slashes(a) < Slashes(b) || (Slashes(a) == Slashes(b) && Less(a, b))
  }

  lemma DirLessStrictTotal()
    ensures StrictTotal(DirLess)
  {
    LessStrictTotal();
    hide Slashes;
    hide Less;
  }

  predicate AllSafe(files: seq<string>) {
    forall i :: 0 <= i < |files| ==> SafePath(files[i])
  }

  function AllParents(files: seq<string>): set<string>
    requires AllSafe(files)
  {
    if files == [] then {} else AllParents(files[..|files| - 1]) + Parents(files[|files| - 1])
  }

  function Directories(files: seq<string>): seq<string>
    requires AllSafe(files)
  {
    DirLessStrictTotal();
    SortedBy(AllParents(files), DirLess)
  }

  /** The loop of build() that collects parents, and its sort. */
  method BuildDirectories(files: seq<string>) returns (r: seq<string>)
    requires AllSafe(files)
    ensures r == Directories(files)
  {
    var parents := {};
    for n := 0 to |files|
      invariant parents == AllParents(files[..n])
    {
      assert files[..n + 1][..n] == files[..n];
      parents := parents + Parents(files[n]);
    }
    assert files[..|files|] == files;
    DirLessStrictTotal();
    r := SortedBy(parents, DirLess);
  }

  lemma {:induction false} SlashesAppend(a: string, b: string)
    ensures Slashes(a + b) == Slashes(a) + Slashes(b)
  {
    if a == "" {
      assert a + b == b;
    } else {
      assert (a + b)[1..] == a[1..] + b;
      SlashesAppend(a[1..], b);
    }
  }

  /** How many slashes a text holds. */
  function SlashCount(s: string): nat {
    |set i | 0 <= i < |s| && s[i] == '/'|
  }

  lemma {:induction false} SlashesExactly(s: string)
    ensures Slashes(s) == SlashCount(s)
  {
    var all := set i | 0 <= i < |s| && s[i] == '/';
    if s == "" {
      assert all == {};
    } else {
      var m := |s| - 1;
      var front := s[..m];
      SlashesExactly(front);
      SlashesAppend(front, [s[m]]);
      assert s == front + [s[m]] && [s[m]][1..] == "";
      assert Slashes([s[m]]) == if s[m] == '/' then 1 else 0;
      var before := set i | 0 <= i < |front| && front[i] == '/';
      assert all == if s[m] == '/' then before + {m} else before;
    }
  }

  lemma {:induction false} NoSlashes(s: string)
    requires '/' !in s
    ensures Slashes(s) == 0
  {
    if s != "" { NoSlashes(s[1..]); }
  }

  lemma {:induction false} JoinSlashes(cs: seq<string>)
    requires cs != [] && forall i :: 0 <= i < |cs| ==> '/' !in cs[i]
    ensures Slashes(JoinWith(cs, "/")) == |cs| - 1
  {
    NoSlashes(cs[0]);
    if |cs| > 1 {
      JoinSlashes(cs[1..]);
      SlashesAppend(cs[0] + "/", JoinWith(cs[1..], "/"));
      SlashesAppend(cs[0], "/");
      assert Slashes("/") == 1 by { assert "/"[1..] == ""; }
    }
  }

  /** "/" and "/x" both have one slash. */
  lemma PathSlashes(cs: seq<string>)
    requires AllComponents(cs)
    ensures Slashes(PathOf(cs)) == if cs == [] then 1 else |cs|
  {
    ComponentsNoSlash(cs);
    assert "/"[1..] == "";
    SlashesAppend("/", JoinWith(cs, "/"));
    if cs != [] { JoinSlashes(cs); }
  }

  /** A proper ancestor comes first in the order, also for that tie. */
  lemma AncestorLess(cs: seq<string>, k: nat)
    requires AllComponents(cs) && k < |cs|
    ensures DirLess(PathOf(cs[..k]), PathOf(cs))
  {
    PathSlashes(cs);
    PathSlashes(cs[..k]);
    hide Slashes;
    if k == 0 {
      assert PathOf(cs[..k]) == "/";
      JoinNonempty(cs);
      assert PathOf(cs)[1..] != "" && "/"[1..] == "";
    }
  }

  lemma {:induction false} InAllParents(files: seq<string>, d: string)
    requires AllSafe(files)
    ensures d in AllParents(files) <==> exists i :: 0 <= i < |files| && d in Parents(files[i])
  {
    hide Parents, SafePath;
    if files != [] {
      var m := |files| - 1;
      InAllParents(files[..m], d);
      assert forall i :: 0 <= i < m ==> files[..m][i] == files[i];
      if exists i :: 0 <= i < |files| && d in Parents(files[i]) {
        var i :| 0 <= i < |files| && d in Parents(files[i]);
        assert i < m ==> d in Parents(files[..m][i]);
      }
    }
  }

  /** The components of a directory in the list. */
  lemma DirectoryComponents(files: seq<string>, d: string) returns (i: nat, k: nat)
    requires AllSafe(files) && d in AllParents(files)
    ensures i < |files| && k < |Components(files[i])| && d == Ancestor(files[i], k)
  {
    InAllParents(files, d);
    i :| 0 <= i < |files| && d in Parents(files[i]);
    k :| 0 <= k < |Components(files[i])| && Ancestor(files[i], k) == d;
  }

  /** The directory list holds exactly the proper ancestors of the files, each
      once, in the order of slash count and text. */
  lemma DirectoriesParentFirst(files: seq<string>)
    requires AllSafe(files)
    ensures Elements(Directories(files)) == AllParents(files)
    ensures Ascending(Directories(files), DirLess)
    ensures forall n, m :: 0 <= n < m < |Directories(files)| ==> Directories(files)[n] != Directories(files)[m]
    ensures forall n, m :: 0 <= n < m < |Directories(files)| ==> Shallower(Directories(files)[n], Directories(files)[m])
  {
    DirLessStrictTotal();
    var r := Directories(files);
    hide Slashes, Less, Directories, DirLess, Shallower;
    forall n, m | 0 <= n < m < |r| ensures r[n] != r[m] && Shallower(r[n], r[m]) {
      assert DirLess(r[n], r[m]);
      assert !DirLess(r[n], r[n]);
      ShallowerExactly(r[n], r[m]);
    }
  }

  /** Fewer slashes, or as many and before in code-point order. */
  ghost predicate Shallower(a: string, b: string) {
    SlashCount(a) < SlashCount(b) || (SlashCount(a) == SlashCount(b) && Before(a, b))
  }

  lemma ShallowerExactly(a: string, b: string)
    ensures DirLess(a, b) <==> Shallower(a, b)
  {
    hide Slashes, Less, Before, SlashCount;
    SlashesExactly(a);
    SlashesExactly(b);
    LessExactly(a, b);
  }

  /** Which directories are listed: the root, and every safe path that some file
      lies below. */
  lemma DirectoriesExactly(files: seq<string>, d: string)
    requires AllSafe(files)
    ensures d in Directories(files) <==>
            exists i :: 0 <= i < |files| && (d == "/" || (SafePath(d) && StartsWith(files[i], d + "/")))
  {
    DirectoriesParentFirst(files);
    hide Directories, DirLess, SafePath;
    assert d in Directories(files) <==> d in Elements(Directories(files));
    InAllParents(files, d);
    forall i | 0 <= i < |files|
      ensures d in Parents(files[i]) <==> d == "/" || (SafePath(d) && StartsWith(files[i], d + "/"))
    {
      ParentsExactly(files[i], d);
    }
  }

  lemma ParentsExactly(path: string, d: string)
    requires SafePath(path)
    ensures d in Parents(path) <==> d == "/" || (SafePath(d) && StartsWith(path, d + "/"))
  {
    var cs := Components(path);
    assert |cs| >= 1 && PathOf([]) == "/";
    if d in Parents(path) {
      var k: nat :| k < |cs| && Ancestor(path, k) == d;
      ParentInside(path, k);
    }
    if d == "/" {
      assert cs[..0] == [] && Ancestor(path, 0) == d;
    } else if SafePath(d) && StartsWith(path, d + "/") {
      InsideIsProperPrefix(path, d);
      PathOfComponents(d);
      assert Ancestor(path, |Components(d)|) == d;
    }
  }

  lemma ParentInside(path: string, k: nat)
    requires SafePath(path) && k < |Components(path)|
    ensures var d := Ancestor(path, k); d == "/" || (SafePath(d) && StartsWith(path, d + "/"))
  {
    var cs := Components(path);
    if k == 0 {
      assert cs[..0] == [] && PathOf([]) == "/";
    } else {
      assert AllComponents(cs[..k]);
      hide IsComponent;
      ComponentsOfPath(cs[..k]);
      InsideIsProperPrefix(path, Ancestor(path, k));
    }
  }

  /** Directory n of the list has the components cs; then each ancestor of it is
      in the list before n. */
  lemma AncestorsBefore(files: seq<string>, n: nat, cs: seq<string>, k: nat)
    requires AllSafe(files) && n < |Directories(files)|
    requires AllComponents(cs) && Directories(files)[n] == PathOf(cs) && k < |cs|
    ensures exists m :: 0 <= m < n && Directories(files)[m] == PathOf(cs[..k])
  {
    hide Directories, SafePath, DirLess, AllParents, PathOf, IsComponent;
    var r := Directories(files);
    DirectoriesParentFirst(files);
    DirLessStrictTotal();
    var d, e := PathOf(cs), PathOf(cs[..k]);
    assert d in Elements(r);
    AncestorListed(files, cs, k);
    assert e in Elements(r);
    var m :| 0 <= m < |r| && r[m] == e;
    AncestorLess(cs, k);
    assert !DirLess(d, e) && d != e;
    assert forall j :: n < j < |r| ==> DirLess(r[n], r[j]);
  }

  lemma AncestorListed(files: seq<string>, cs: seq<string>, k: nat)
    requires AllSafe(files) && AllComponents(cs) && k < |cs| && PathOf(cs) in AllParents(files)
    ensures PathOf(cs[..k]) in AllParents(files)
  {
    var i, j := DirectoryComponents(files, PathOf(cs));
    var all := Components(files[i]);
    assert AllComponents(all[..j]);
    PathOfInjective(cs, all[..j]);
    assert all[..j][..k] == all[..k];
    assert Ancestor(files[i], k) == PathOf(cs[..k]);
    assert PathOf(cs[..k]) in Parents(files[i]);
    InAllParents(files, PathOf(cs[..k]));
  }

  lemma PathOfInjective(a: seq<string>, b: seq<string>)
    requires AllComponents(a) && AllComponents(b) && PathOf(a) == PathOf(b)
    ensures a == b
  {
    hide Split;
    if a != [] { JoinNonempty(a); }
    if b != [] { JoinNonempty(b); }
    assert JoinWith([], "/") == "" && PathOf(a)[1..] == JoinWith(a, "/") && PathOf(b)[1..] == JoinWith(b, "/");
    if a != [] && b != [] {
      ComponentsOfPath(a);
      ComponentsOfPath(b);
    }
  }
}

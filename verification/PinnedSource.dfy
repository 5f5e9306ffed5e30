/** Descriptor-pinned controller sources: pin, recheck, close
    (plugins/module_utils/platform_pki_secure_source.py) and the bounded direct
    read of roles/grafana_alloy/filter_plugins/initial_activation.py. */
module PinnedSource {
  import opened Text
  import opened Filesystem

  // --------------------------------------------------------- descriptor table

  type Table = map<int, Key>

  predicate Distinct(fds: seq<int>) {
    forall i, j :: 0 <= i < j < |fds| ==> fds[i] != fds[j]
  }

  /** `now` is `before` plus exactly the descriptors fds, all of them new. */
  predicate Grown(before: Table, now: Table, fds: seq<int>) {
    && Distinct(fds) && Elements(fds) !! before.Keys
    && now.Keys == before.Keys + Elements(fds)
    && forall fd :: fd in before ==> now[fd] == before[fd]
  }

  lemma GrownByOne(before: Table, now: Table, fds: seq<int>, fd: int, key: Key)
    requires Grown(before, now, fds) && fd !in now
    ensures Grown(before, now[fd := key], fds + [fd])
  {
    var all := fds + [fd];
    assert Elements(all) == Elements(fds) + {fd};
    assert forall i :: 0 <= i < |fds| ==> fds[i] in Elements(fds);
  }

  lemma GrownShrinks(before: Table, now: Table, fds: seq<int>)
    requires Grown(before, now, fds)
    ensures now - Elements(fds) == before
  {
    var rest := now - Elements(fds);
    assert rest.Keys == before.Keys;
    assert forall fd :: fd in rest ==> rest[fd] == before[fd];
  }

  lemma GrownOpen(before: Table, now: Table, fds: seq<int>)
    requires Grown(before, now, fds)
    ensures forall i :: 0 <= i < |fds| ==> fds[i] in now
  {
    assert forall i :: 0 <= i < |fds| ==> fds[i] in Elements(fds);
  }

  /** What a list of descriptors refers to. */
  function KeysOf(now: Table, fds: seq<int>): (r: seq<Key>)
    requires forall i :: 0 <= i < |fds| ==> fds[i] in now
    ensures |r| == |fds|
  {
    seq(|fds|, i requires 0 <= i < |fds| => now[fds[i]])
  }

  // ------------------------------------------------------------------ recheck

  /** A pinned source: one descriptor per path component (the first for "/"),
      one for the file, and the snapshot and bytes taken at pinning. */
  datatype Pinned = Pinned(dirs: seq<int>, components: seq<string>, file: int, snapshot: Meta, data: string)

  predicate Held(now: Table, p: Pinned) {
    && p.components != [] && |p.dirs| == |p.components|
    && (forall i :: 0 <= i < |p.dirs| ==> p.dirs[i] in now)
    && p.file in now && now[p.file] == p.snapshot.key
    && Distinct(p.dirs + [p.file])
  }

  /** The check of one ancestor at time t: the entry is the pinned directory,
      with one identity by name and by descriptor. */
  ghost predicate LinkPasses(env: Env, faults: Faults, t: nat, dir: Key, name: string, child: Key) {
    && !faults(t) && !faults(t + 1)
    && Lookup(env(t), dir, name) == Some(child)
    && child in env(t) && env(t)[child].Dir?
    && child in env(t + 1) && env(t + 1)[child].meta == env(t)[child].meta
  }

  /** The check of the file at time t: by name and by descriptor it has the
      identity taken at pinning. */
  ghost predicate FilePasses(env: Env, faults: Faults, t: nat, dir: Key, name: string, snapshot: Meta) {
    && !faults(t) && !faults(t + 1)
    && Lookup(env(t), dir, name) == Some(snapshot.key)
    && snapshot.key in env(t) && env(t)[snapshot.key].meta == snapshot
    && snapshot.key in env(t + 1) && env(t + 1)[snapshot.key].meta == snapshot
  }

  ghost predicate Linked(env: Env, faults: Faults, t: nat, keys: seq<Key>, names: seq<string>, i: nat)
    requires i + 1 < |keys| && i < |names|
  {
    LinkPasses(env, faults, t + 2 * i, keys[i], names[i], keys[i + 1])
  }

  /** What a successful recheck starting at time t has observed: every link of
      the chain at its own time, then the file.  `keys` are the directories and
      the file. */
  ghost predicate Observed(env: Env, faults: Faults, t: nat, keys: seq<Key>, names: seq<string>, snapshot: Meta) {
    && names != [] && |keys| == |names| + 1 && keys[|names|] == snapshot.key
    && (forall i :: 0 <= i < |names| - 1 ==> Linked(env, faults, t, keys, names, i))
    && FilePasses(env, faults, t + 2 * (|names| - 1), keys[|names| - 1], names[|names| - 1], snapshot)
  }

  /** The same for a filesystem that does not change. */
  ghost predicate StaticLink(fs: FS, dir: Key, name: string, child: Key) {
    Lookup(fs, dir, name) == Some(child) && child in fs && fs[child].Dir?
  }

  ghost predicate StaticFile(fs: FS, dir: Key, name: string, snapshot: Meta) {
    Lookup(fs, dir, name) == Some(snapshot.key) && snapshot.key in fs && fs[snapshot.key].meta == snapshot
  }

  ghost predicate StaticChain(fs: FS, keys: seq<Key>, names: seq<string>, snapshot: Meta) {
    && names != [] && |keys| == |names| + 1 && keys[|names|] == snapshot.key
    && (forall i :: 0 <= i < |names| - 1 ==> StaticLink(fs, keys[i], names[i], keys[i + 1]))
    && StaticFile(fs, keys[|names| - 1], names[|names| - 1], snapshot)
  }

  ghost function ChainKeys(now: Table, p: Pinned): (keys: seq<Key>)
    requires Held(now, p)
    ensures |keys| == |p.components| + 1 && keys[|p.components|] == p.snapshot.key
  {
    KeysOf(now, p.dirs) + [p.snapshot.key]
  }

  /** One component: stat by name against fstat of the pinned descriptor. */
  method CheckLink(k: Kernel, dir: int, name: string, child: int) returns (ok: bool)
    requires k.Valid() && dir in k.open && child in k.open
    modifies k`clock
    ensures k.Valid() && old(k.clock) < k.clock <= old(k.clock) + 2 && (ok ==> k.clock == old(k.clock) + 2)
    ensures ok <==> LinkPasses(k.env, k.faults, old(k.clock), k.open[dir], name, k.open[child])
    ensures Quiet(k.env, k.faults, old(k.clock), k.clock) ==>
              (ok <==> StaticLink(k.env(old(k.clock)), k.open[dir], name, k.open[child]))
  {
    hide Lawful, Lookup;
    ghost var now := k.clock;
    ghost var entry := Lookup(k.env(now), k.open[dir], name);
    var actual := k.StatAt(dir, name);
    if actual.None? || !actual.value.Dir? {
      return false;
    }
    OwnKey(k.env, now, entry.value);
    OwnKey(k.env, now + 1, k.open[child]);
    var pinned := k.Fstat(child);
    ok := pinned.Some? && actual.value.meta == pinned.value.meta;
  }

  /** The last component: name and descriptor both still have the snapshot. */
  method CheckFile(k: Kernel, dir: int, name: string, file: int, snapshot: Meta) returns (ok: bool)
    requires k.Valid() && dir in k.open && file in k.open && k.open[file] == snapshot.key
    modifies k`clock
    ensures k.Valid() && old(k.clock) < k.clock <= old(k.clock) + 2 && (ok ==> k.clock == old(k.clock) + 2)
    ensures ok <==> FilePasses(k.env, k.faults, old(k.clock), k.open[dir], name, snapshot)
    ensures Quiet(k.env, k.faults, old(k.clock), k.clock) ==>
              (ok <==> StaticFile(k.env(old(k.clock)), k.open[dir], name, snapshot))
  {
    hide Lawful, Lookup;
    ghost var now := k.clock;
    ghost var entry := Lookup(k.env(now), k.open[dir], name);
    var actual := k.StatAt(dir, name);
    if actual.None? || actual.value.meta != snapshot {
      return false;
    }
    OwnKey(k.env, now, entry.value);
    var pinned := k.Fstat(file);
    ok := pinned.Some? && pinned.value.meta == snapshot;
  }

  /** PinnedSource.recheck(): succeeds exactly when every check passes at its
      own time; in a quiet filesystem, exactly when the chain is in place. */
  method Recheck(k: Kernel, p: Pinned) returns (ok: bool)
    requires k.Valid() && Held(k.open, p)
    modifies k`clock
    ensures k.Valid() && k.clock > old(k.clock) && (ok ==> k.clock == old(k.clock) + 2 * |p.components|)
    ensures ok <==> Observed(k.env, k.faults, old(k.clock), ChainKeys(k.open, p), p.components, p.snapshot)
    ensures Quiet(k.env, k.faults, old(k.clock), k.clock) ==>
              (ok <==> StaticChain(k.env(old(k.clock)), ChainKeys(k.open, p), p.components, p.snapshot))
  {
    hide Distinct, Lookup, Lawful, LinkPasses, FilePasses, StaticLink, StaticFile;
    var t := k.clock;
    ghost var keys := ChainKeys(k.open, p);
    assert forall i :: 0 <= i < |p.dirs| ==> keys[i] == k.open[p.dirs[i]];
    var last := |p.components| - 1;
    for i := 0 to last
      invariant k.Valid() && k.clock == t + 2 * i
      invariant forall j :: 0 <= j < i ==> Linked(k.env, k.faults, t, keys, p.components, j)
      invariant Quiet(k.env, k.faults, t, k.clock) ==>
                  forall j :: 0 <= j < i ==> StaticLink(k.env(t), keys[j], p.components[j], keys[j + 1])
    {
      ghost var now := k.clock;
      var linked := CheckLink(k, p.dirs[i], p.components[i], p.dirs[i + 1]);
      QuietSplit(k.env, k.faults, t, now, k.clock);
      assert linked <==> Linked(k.env, k.faults, t, keys, p.components, i);
      if !linked {
        return false;
      }
    }
    ghost var now := k.clock;
    ok := CheckFile(k, p.dirs[last], p.components[last], p.file, p.snapshot);
    QuietSplit(k.env, k.faults, t, now, k.clock);
  }

  lemma QuietSplit(env: Env, faults: Faults, from: nat, mid: nat, to: nat)
    requires from <= mid <= to
    ensures Quiet(env, faults, from, to) ==> Quiet(env, faults, from, mid) && Quiet(env, faults, mid, to)
    ensures Quiet(env, faults, from, to) && mid < to ==> env(mid) == env(from)
  {
  }

  /** PinnedSource.close() */
  method ClosePinned(k: Kernel, p: Pinned)
    requires k.Valid() && Held(k.open, p)
    modifies k`open
    ensures k.Valid() && k.open == old(k.open) - Elements(p.dirs + [p.file])
  {
    var fds := p.dirs + [p.file];
    assert forall i :: 0 <= i < |fds| ==> fds[i] in k.open;
    k.CloseAll(fds);
  }

  // --------------------------------------------------- meaning of a recheck

  /** Every link present at one instant makes the path walk to the file. */
  lemma {:induction false} LinksWalk(fs: FS, keys: seq<Key>, names: seq<string>)
    requires |keys| == |names| + 1
    requires forall i :: 0 <= i < |names| ==> Lookup(fs, keys[i], names[i]) == Some(keys[i + 1])
    ensures Walk(fs, keys[0], names) == Some(keys[|names|])
    decreases |names|
  {
    if names != [] {
      forall i | 0 <= i < |names| - 1
        ensures Lookup(fs, keys[1..][i], names[1..][i]) == Some(keys[1..][i + 1])
      {
        assert Lookup(fs, keys[i + 1], names[i + 1]) == Some(keys[i + 2]);
      }
      LinksWalk(fs, keys[1..], names[1..]);
    }
  }

  /** The link that a recheck starting at time t saw at component i. */
  lemma ObservedLink(env: Env, faults: Faults, t: nat, keys: seq<Key>, names: seq<string>, snapshot: Meta, i: nat)
    requires Observed(env, faults, t, keys, names, snapshot) && i < |names|
    ensures Lookup(env(t + 2 * i), keys[i], names[i]) == Some(keys[i + 1])
  {
    if i < |names| - 1 { assert Linked(env, faults, t, keys, names, i); }
  }

  /** The inodes met when walking by name. */
  ghost function Trail(fs: FS, from: Key, names: seq<string>): (r: seq<Key>)
    ensures 0 < |r| <= |names| + 1 && r[0] == from
    decreases |names|
  {
    if names == [] || Lookup(fs, from, names[0]).None? then [from]
    else [from] + Trail(fs, Lookup(fs, from, names[0]).value, names[1..])
  }

  lemma {:induction false} LinksTrail(fs: FS, keys: seq<Key>, names: seq<string>)
    requires |keys| == |names| + 1
    requires forall i :: 0 <= i < |names| ==> Lookup(fs, keys[i], names[i]) == Some(keys[i + 1])
    ensures Trail(fs, keys[0], names) == keys
    decreases |names|
  {
    hide Lookup;
    if names == [] {
      assert keys == [keys[0]];
    } else {
      var rest, tail := keys[1..], names[1..];
      forall i | 0 <= i < |tail| ensures Lookup(fs, rest[i], tail[i]) == Some(rest[i + 1]) {
        assert Lookup(fs, keys[i + 1], names[i + 1]) == Some(keys[i + 2]);
      }
      LinksTrail(fs, rest, tail);
      assert keys == [keys[0]] + rest;
    }
  }

  lemma {:induction false} TrailEntry(fs: FS, keys: seq<Key>, names: seq<string>, i: nat)
    requires |keys| == |names| + 1 && Trail(fs, keys[0], names) == keys && i < |names|
    ensures Lookup(fs, keys[i], names[i]) == Some(keys[i + 1])
    decreases |names|
  {
    hide Lookup;
    var next := Lookup(fs, keys[0], names[0]);
    assert next.Some?;
    var rest := Trail(fs, next.value, names[1..]);
    assert keys == [keys[0]] + rest && keys[1..] == rest;
    if i > 0 {
      TrailEntry(fs, rest, names[1..], i - 1);
    }
  }

  lemma TrailExactly(fs: FS, keys: seq<Key>, names: seq<string>)
    requires |keys| == |names| + 1
    ensures Trail(fs, keys[0], names) == keys <==>
            forall i :: 0 <= i < |names| ==> Lookup(fs, keys[i], names[i]) == Some(keys[i + 1])
  {
    hide Lookup, Trail;
    if Trail(fs, keys[0], names) == keys {
      forall i | 0 <= i < |names| ensures Lookup(fs, keys[i], names[i]) == Some(keys[i + 1]) {
        TrailEntry(fs, keys, names, i);
      }
    } else if forall i :: 0 <= i < |names| ==> Lookup(fs, keys[i], names[i]) == Some(keys[i + 1]) {
      LinksTrail(fs, keys, names);
    }
  }

  /** Each directory of the path has at time v the change time it had when the
      recheck starting at time t looked up its entry. */
  ghost predicate SameChangeTimes(env: Env, t: nat, v: nat, keys: seq<Key>, names: seq<string>)
    requires |keys| == |names| + 1
  {
    forall i :: 0 <= i < |names| ==>
      && keys[i] in env(t + 2 * i) && keys[i] in env(v)
      && env(v)[keys[i]].meta.ctime == env(t + 2 * i)[keys[i]].meta.ctime
  }

  lemma UnchangedDirectory(env: Env, t: nat, v: nat, dir: Key, name: string)
    requires Lawful(env) && t <= v && dir in env(t) && dir in env(v)
    requires env(v)[dir].meta.ctime == env(t)[dir].meta.ctime
    ensures Lookup(env(v), dir, name) == Lookup(env(t), dir, name)
  {
    hide Lawful;
    Forward(env, dir, t, v);
  }

  /** After a successful recheck, walking the path by name from the root without
      following symbolic links meets exactly the pinned directories and then the
      pinned inode, at every later time at which the directories of the path
      still have the change times they had at their own checks. */
  lemma RecheckedPathReachesFile(env: Env, faults: Faults, t: nat, keys: seq<Key>, names: seq<string>, snapshot: Meta,
                                 v: nat)
    requires Lawful(env) && Observed(env, faults, t, keys, names, snapshot) && v >= t + 2 * (|names| - 1)
    requires SameChangeTimes(env, t, v, keys, names)
    ensures Trail(env(v), keys[0], names) == keys
    ensures Walk(env(v), keys[0], names) == Some(snapshot.key)
  {
    ObservedShape(env, faults, t, keys, names, snapshot);
    hide Lawful, Observed, Trail, Lookup;
    forall i | 0 <= i < |names| ensures Lookup(env(v), keys[i], names[i]) == Some(keys[i + 1]) {
      ObservedLink(env, faults, t, keys, names, snapshot, i);
      UnchangedDirectory(env, t + 2 * i, v, keys[i], names[i]);
    }
    TrailExactly(env(v), keys, names);
    LinksWalk(env(v), keys, names);
  }

  /** A foreign step at time u changes what the directory entry names. */
  ghost predicate Renamed(env: Env, u: nat, dir: Key, name: string) {
    Lookup(env(u + 1), dir, name) != Lookup(env(u), dir, name)
  }

  /** No step from `from` up to `to` touches an entry of the path. */
  ghost predicate EntriesLeftAlone(env: Env, from: nat, to: nat, keys: seq<Key>, names: seq<string>)
    requires |keys| == |names| + 1
  {
    forall i, u: nat :: 0 <= i < |names| && from <= u < to ==> !Renamed(env, u, keys[i], names[i])
  }

  lemma {:induction false} EntryStays(env: Env, from: nat, until: nat, dir: Key, name: string)
    requires from <= until && forall u: nat :: from <= u < until ==> !Renamed(env, u, dir, name)
    ensures Lookup(env(until), dir, name) == Lookup(env(from), dir, name)
    decreases until - from
  {
    hide Lookup;
    if from < until {
      EntryStays(env, from, until - 1, dir, name);
      assert !Renamed(env, until - 1, dir, name);
    }
  }

  /** Only foreign steps on the path's own entries matter.  If none falls into a
      recheck that starts at t, the path leads to the pinned file at its end; and
      from then on it does so at all times up to v if and only if no such step
      happens before v. */
  lemma RecheckedPathHolds(env: Env, faults: Faults, t: nat, end: nat, keys: seq<Key>, names: seq<string>,
                           snapshot: Meta, v: nat)
    requires Observed(env, faults, t, keys, names, snapshot) && end == t + 2 * |names| - 1 && v >= end
    requires EntriesLeftAlone(env, t, end, keys, names)
    ensures Trail(env(end), keys[0], names) == keys
    ensures (forall w: nat :: end <= w <= v ==> Trail(env(w), keys[0], names) == keys) <==>
            EntriesLeftAlone(env, end, v, keys, names)
  {
    hide Linked, FilePasses, Trail, EntriesLeftAlone;
    TrailAtEnd(env, faults, t, end, keys, names, snapshot);
    if EntriesLeftAlone(env, end, v, keys, names) {
      forall w: nat | end <= w <= v ensures Trail(env(w), keys[0], names) == keys {
        TrailStays(env, end, w, v, keys, names);
      }
    } else if forall w: nat :: end <= w <= v ==> Trail(env(w), keys[0], names) == keys {
      TrailMeansLeftAlone(env, end, v, keys, names);
    }
  }

  lemma TrailAtEnd(env: Env, faults: Faults, t: nat, end: nat, keys: seq<Key>, names: seq<string>, snapshot: Meta)
    requires Observed(env, faults, t, keys, names, snapshot) && end == t + 2 * |names| - 1
    requires EntriesLeftAlone(env, t, end, keys, names)
    ensures Trail(env(end), keys[0], names) == keys
  {
    ObservedShape(env, faults, t, keys, names, snapshot);
    hide Lookup, Trail, Observed;
    forall i | 0 <= i < |names| ensures Lookup(env(end), keys[i], names[i]) == Some(keys[i + 1]) {
      ObservedLink(env, faults, t, keys, names, snapshot, i);
      assert forall u: nat :: t + 2 * i <= u < end ==> !Renamed(env, u, keys[i], names[i]);
      EntryStays(env, t + 2 * i, end, keys[i], names[i]);
    }
    TrailExactly(env(end), keys, names);
  }

  lemma TrailMeansLeftAlone(env: Env, from: nat, v: nat, keys: seq<Key>, names: seq<string>)
    requires |keys| == |names| + 1
    requires forall w: nat :: from <= w <= v ==> Trail(env(w), keys[0], names) == keys
    ensures EntriesLeftAlone(env, from, v, keys, names)
  {
    hide Lookup, Trail;
    forall i, u: nat | 0 <= i < |names| && from <= u < v ensures !Renamed(env, u, keys[i], names[i]) {
      TrailEntry(env(u), keys, names, i);
      TrailEntry(env(u + 1), keys, names, i);
    }
  }

  lemma TrailStays(env: Env, from: nat, to: nat, v: nat, keys: seq<Key>, names: seq<string>)
    requires |keys| == |names| + 1 && from <= to <= v && Trail(env(from), keys[0], names) == keys
    requires EntriesLeftAlone(env, from, v, keys, names)
    ensures Trail(env(to), keys[0], names) == keys
  {
    hide Lookup, Trail;
    TrailExactly(env(from), keys, names);
    forall i | 0 <= i < |names| ensures Lookup(env(to), keys[i], names[i]) == Some(keys[i + 1]) {
      assert forall u: nat :: from <= u < to ==> !Renamed(env, u, keys[i], names[i]);
      EntryStays(env, from, to, keys[i], names[i]);
    }
    TrailExactly(env(to), keys, names);
  }

  lemma ObservedShape(env: Env, faults: Faults, t: nat, keys: seq<Key>, names: seq<string>, snapshot: Meta)
    requires Observed(env, faults, t, keys, names, snapshot)
    ensures names != [] && |keys| == |names| + 1 && keys[|names|] == snapshot.key
  {
  }

  /** Without foreign steps during the recheck the walk succeeds at its end. */
  lemma QuietRecheckReachesFile(env: Env, faults: Faults, t: nat, keys: seq<Key>, names: seq<string>, snapshot: Meta)
    requires Lawful(env) && Observed(env, faults, t, keys, names, snapshot)
    requires Quiet(env, faults, t, t + 2 * |names|)
    ensures Walk(env(t + 2 * |names| - 1), keys[0], names) == Some(snapshot.key)
  {
    var v := t + 2 * |names| - 1;
    forall i | 0 <= i < |names| ensures keys[i] in env(t + 2 * i) && env(v) == env(t + 2 * i) {
      ObservedLink(env, faults, t, keys, names, snapshot, i);
      assert env(t + 2 * i) == env(t) == env(v);
    }
    RecheckedPathReachesFile(env, faults, t, keys, names, snapshot, v);
  }

  /** The file still holds the pinned bytes whenever a recheck succeeds. */
  lemma RecheckedBytes(env: Env, faults: Faults, t0: nat, data: string, t: nat, keys: seq<Key>, names: seq<string>,
                       snapshot: Meta)
    requires Lawful(env) && Observed(env, faults, t, keys, names, snapshot) && t0 <= t
    requires snapshot.key in env(t0) && env(t0)[snapshot.key] == File(snapshot, data)
    ensures var u := t + 2 * |names| - 1;
            snapshot.key in env(u) && env(u)[snapshot.key] == File(snapshot, data)
  {
    var u := t + 2 * |names| - 1;
    Steady(env, snapshot.key, t0, t, u);
  }

  // ------------------------------------------------------------ bounded reads

  function Bounded(bytes: string, maximum: nat): string {
    if |bytes| > maximum + 1 then bytes[..maximum + 1] else bytes
  }

  /** The bytes read so far are the file's, unless it changed meanwhile. */
  ghost predicate ReadSoFar(env: Env, file: Key, t0: nat, now: nat, data: string) {
    && t0 <= now && file in env(t0) && file in env(now)
    && (env(now)[file] == env(t0)[file] && env(t0)[file].File? ==>
          |data| <= |env(t0)[file].bytes| && data == env(t0)[file].bytes[..|data|])
  }

  lemma ReadMore(env: Env, file: Key, t0: nat, now: nat, data: string, chunk: string)
    requires Lawful(env) && ReadSoFar(env, file, t0, now, data) && env(now)[file].File?
    requires var bytes := env(now)[file].bytes;
             if |data| >= |bytes| then chunk == ""
             else |chunk| <= |bytes| - |data| && chunk == bytes[|data|..|data| + |chunk|]
    ensures ReadSoFar(env, file, t0, now + 1, data + chunk)
  {
    Forward(env, file, t0, now);
    Forward(env, file, now, now + 1);
    if env(now)[file] == env(t0)[file] {
      var bytes := env(now)[file].bytes;
      assert bytes[..|data|] + bytes[|data|..|data| + |chunk|] == bytes[..|data| + |chunk|];
    }
  }

  /** Some read in between failed or met something that is not a file. */
  ghost predicate Disturbed(env: Env, faults: Faults, file: Key, from: nat, to: nat) {
    exists u: nat :: from <= u < to && (faults(u) || file !in env(u) || !env(u)[file].File?)
  }

  /** The read loop of pin_controller_source: `while len(data) <= maximum`. */
  method ReadPinned(k: Kernel, fd: int, maximum: nat) returns (data: Option<string>)
    requires k.Valid() && fd in k.open
    modifies k`clock
    ensures k.Valid() && k.clock >= old(k.clock)
    ensures data.None? ==> Disturbed(k.env, k.faults, k.open[fd], old(k.clock), k.clock)
    ensures data.Some? ==> |data.value| <= maximum + 1
    ensures data.Some? ==> forall now: nat :: Unchanged(k.env, k.open[fd], old(k.clock), now) && now >= k.clock ==>
              data.value == Bounded(k.env(old(k.clock))[k.open[fd]].bytes, maximum)
  {
    var t0 := k.clock;
    ghost var file := k.open[fd];
    var buffer := "";
    while |buffer| <= maximum
      invariant k.Valid() && t0 <= k.clock && |buffer| <= maximum + 1
      invariant ReadSoFar(k.env, file, t0, k.clock, buffer)
      decreases maximum + 1 - |buffer|
    {
      var n := maximum + 1 - |buffer|;
      n := if n > 65536 then 65536 else n;
      ghost var now := k.clock;
      var chunk := k.Read(fd, |buffer|, n);
      if chunk.None? {
        return None;
      }
      ReadMore(k.env, file, t0, now, buffer, chunk.value);
      if chunk.value == "" {
        EndOfFile(k.env, file, t0, now, k.clock, buffer, maximum);
        return Some(buffer);
      }
      buffer := buffer + chunk.value;
    }
    BufferFull(k.env, file, t0, k.clock, buffer, maximum);
    data := Some(buffer);
  }

  /** The read loop of source_bytes: `while remaining`. */
  method ReadSource(k: Kernel, fd: int, maximum: nat) returns (data: Option<string>)
    requires k.Valid() && fd in k.open
    modifies k`clock
    ensures k.Valid() && k.clock >= old(k.clock)
    ensures data.None? ==> Disturbed(k.env, k.faults, k.open[fd], old(k.clock), k.clock)
    ensures data.Some? ==> |data.value| <= maximum + 1
    ensures data.Some? ==> forall now: nat :: Unchanged(k.env, k.open[fd], old(k.clock), now) && now >= k.clock ==>
              data.value == Bounded(k.env(old(k.clock))[k.open[fd]].bytes, maximum)
  {
    var t0 := k.clock;
    ghost var file := k.open[fd];
    var chunks := "";
    var remaining := maximum + 1;
    while remaining > 0
      invariant k.Valid() && t0 <= k.clock && remaining >= 0 && |chunks| + remaining == maximum + 1
      invariant ReadSoFar(k.env, file, t0, k.clock, chunks)
    {
      var n := if remaining > 65536 then 65536 else remaining;
      ghost var now := k.clock;
      var chunk := k.Read(fd, |chunks|, n);
      if chunk.None? {
        return None;
      }
      ReadMore(k.env, file, t0, now, chunks, chunk.value);
      if chunk.value == "" {
        EndOfFile(k.env, file, t0, now, k.clock, chunks, maximum);
        return Some(chunks);
      }
      chunks := chunks + chunk.value;
      remaining := remaining - |chunk.value|;
    }
    BufferFull(k.env, file, t0, k.clock, chunks, maximum);
    data := Some(chunks);
  }

  /** The node has the same metadata at both times, and is a file. */
  ghost predicate Unchanged(env: Env, file: Key, t0: nat, now: nat) {
    t0 <= now && file in env(t0) && file in env(now) && env(t0)[file].File? && env(now)[file].meta == env(t0)[file].meta
  }

  lemma EndOfFile(env: Env, file: Key, t0: nat, at: nat, now: nat, data: string, maximum: nat)
    requires Lawful(env) && t0 <= at <= now && file in env(at) && env(at)[file].File?
    requires ReadSoFar(env, file, t0, at, data) && |data| <= maximum + 1
    requires |data| >= |env(at)[file].bytes|
    ensures forall later: nat :: Unchanged(env, file, t0, later) && later >= now ==>
              data == Bounded(env(t0)[file].bytes, maximum)
  {
    forall later: nat | Unchanged(env, file, t0, later) && later >= now
      ensures data == Bounded(env(t0)[file].bytes, maximum)
    {
      Steady(env, file, t0, at, later);
    }
  }

  lemma BufferFull(env: Env, file: Key, t0: nat, now: nat, data: string, maximum: nat)
    requires Lawful(env) && ReadSoFar(env, file, t0, now, data) && |data| == maximum + 1
    ensures forall later: nat :: Unchanged(env, file, t0, later) && later >= now ==>
              data == Bounded(env(t0)[file].bytes, maximum)
  {
    forall later: nat | Unchanged(env, file, t0, later) && later >= now
      ensures data == Bounded(env(t0)[file].bytes, maximum)
    {
      Steady(env, file, t0, now, later);
    }
  }
}

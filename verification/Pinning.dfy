/** Pinning a controller source, and the direct bounded read, with every
    descriptor accounted for on every path. */
module Pinning {
  import opened Text
  import opened Filesystem
  import opened PinnedSource

  datatype Policy = Policy(euid: nat, owners: set<nat>, hash: string -> string)

  predicate Bit(n: nat, b: nat)
    requires b > 0
  {
    n / b % 2 == 1
  }

  /** require_safe_ancestor: a directory of a trusted owner, not writable by
      group or others unless sticky. */
  predicate SafeAncestor(node: Node, owners: set<nat>) {
    && node.Dir? && node.meta.uid in owners
    && !((Bit(node.meta.perm, 0x10) || Bit(node.meta.perm, 0x2)) && !Bit(node.meta.perm, 0x200))
  }

  /** The metadata test of pin_controller_source: mode 0600, one link, bounded. */
  predicate SafeFile(node: Node, euid: nat, maximum: nat) {
    && node.File? && node.meta.uid == euid && node.meta.nlink == 1 && node.meta.perm == 0x180
    && 0 < node.meta.size <= maximum
  }

  // -------------------------------------- the same tests, by octal digits

  /** A directory of a trusted owner whose digits for group and others have no
      write bit, or whose first digit has the sticky bit. */
  predicate SafeDirectory(node: Node, owners: set<nat>) {
    && node.Dir? && node.meta.uid in owners
    && ((node.meta.perm / 8 % 8 in {0, 1, 4, 5} && node.meta.perm % 8 in {0, 1, 4, 5}) ||
        node.meta.perm / 512 % 8 in {1, 3, 5, 7})
  }

  /** A file of the user with digits 0600, one name, and 1 to maximum bytes. */
  predicate PrivateFile(node: Node, euid: nat, maximum: nat) {
    && node.File? && node.meta.uid == euid && node.meta.nlink == 1
    && node.meta.perm / 64 == 6 && node.meta.perm % 64 == 0
    && 1 <= |node.bytes| <= maximum
  }

  /** A file with one name and 1 to maximum bytes. */
  predicate SmallFile(node: Node, maximum: nat) {
    node.File? && node.meta.nlink == 1 && 1 <= |node.bytes| <= maximum
  }

  /** A bit of the mode, by the octal digit it belongs to. */
  lemma BitOfDigit(perm: nat, unit: nat)
    requires unit == 1 || unit == 8 || unit == 512
    ensures Bit(perm, unit) <==> perm / unit % 8 in {1, 3, 5, 7}
    ensures Bit(perm, 2 * unit) <==> perm / unit % 8 !in {0, 1, 4, 5}
  {
    var q := perm / unit;
    HalfDigit(perm, unit);
    DigitParity(q);
  }

  lemma HalfDigit(perm: nat, unit: nat)
    requires unit == 1 || unit == 8 || unit == 512
    ensures perm / (2 * unit) == perm / unit / 2
  {
    if unit == 1 {
    } else if unit == 8 {
      assert perm / 16 == perm / 8 / 2;
    } else {
      assert perm / 1024 == perm / 512 / 2;
    }
  }

  lemma DigitParity(q: nat)
    ensures q % 2 == 1 <==> q % 8 in {1, 3, 5, 7}
    ensures q / 2 % 2 == 1 <==> q % 8 !in {0, 1, 4, 5}
  {
    DigitOf(q / 8, q % 8);
  }

  lemma DigitOf(k: nat, d: nat)
    requires d < 8
    ensures (8 * k + d) % 2 == d % 2 && (8 * k + d) / 2 % 2 == d / 2 % 2
  {
    assert 8 * k + d == 2 * (4 * k + d / 2) + d % 2;
    assert (8 * k + d) / 2 == 4 * k + d / 2;
    assert 4 * k + d / 2 == 2 * (2 * k + d / 4) + d / 2 % 2;
  }

  lemma SafeAncestorExactly(node: Node, owners: set<nat>)
    ensures SafeAncestor(node, owners) <==> SafeDirectory(node, owners)
  {
    BitOfDigit(node.meta.perm, 1);
    BitOfDigit(node.meta.perm, 8);
    BitOfDigit(node.meta.perm, 512);
    hide Bit;
  }

  /** Close everything opened since `before`. */
  method Release(k: Kernel, fds: seq<int>, ghost before: Table)
    requires k.Valid() && Grown(before, k.open, fds)
    modifies k`open
    ensures k.Valid() && k.open == before
  {
    GrownOpen(before, k.open, fds);
    GrownShrinks(before, k.open, fds);
    hide Elements;
    k.CloseAll(fds);
  }

  // ------------------------------------------- what pinning asks of a filesystem

  /** Walking these names from the root ends at a safe ancestor. */
  predicate SafeAt(fs: FS, root: Key, names: seq<string>, owners: set<nat>) {
    var d := Walk(fs, root, names);
    d.Some? && d.value in fs && SafeDirectory(fs[d.value], owners)
  }

  /** The path names a safe file with the expected digest. */
  predicate FileAt(fs: FS, root: Key, components: seq<string>, digest: string, maximum: nat, policy: Policy) {
    var f := Walk(fs, root, components);
    && f.Some? && f.value in fs && PrivateFile(fs[f.value], policy.euid, maximum)
    && policy.hash(fs[f.value].bytes) == digest
  }

  /** Every proper prefix of the path is a safe ancestor, and the file is right. */
  predicate Pinnable(fs: FS, root: Key, components: seq<string>, digest: string, maximum: nat, policy: Policy) {
    && (forall j :: 0 <= j < |components| ==> SafeAt(fs, root, components[..j], policy.owners))
    && FileAt(fs, root, components, digest, maximum, policy)
  }

  /** A directory on the way that group or others may write, without the sticky
      bit, or that a foreign user owns, makes the path unpinnable. */
  lemma WritableDirectoryRefused(fs: FS, root: Key, components: seq<string>, digest: string, maximum: nat,
                                 policy: Policy, j: nat, d: Key)
    requires j < |components| && Walk(fs, root, components[..j]) == Some(d) && d in fs
    requires var m := fs[d].meta;
             || m.uid !in policy.owners
             || (&& (m.perm / 8 % 8 in {2, 3, 6, 7} || m.perm % 8 in {2, 3, 6, 7})
                 && m.perm / 512 % 8 in {0, 2, 4, 6})
    ensures !Pinnable(fs, root, components, digest, maximum, policy)
  {
    assert !SafeAt(fs, root, components[..j], policy.owners);
  }

  /** The inode was seen to be a safe ancestor. */
  ghost predicate Inspected(env: Env, owners: set<nat>, key: Key, from: nat, to: nat) {
    exists u: nat :: from <= u < to && key in env(u) && SafeDirectory(env(u)[key], owners)
  }

  /** keys are the directories met when walking the first names from the root. */
  ghost predicate OnWalk(fs: FS, root: Key, names: seq<string>, keys: seq<Key>) {
    && |keys| <= |names| + 1
    && forall j :: 0 <= j < |keys| ==>
         Walk(fs, root, names[..j]) == Some(keys[j]) && keys[j] in fs && fs[keys[j]].Dir?
  }

  lemma NextOnWalk(fs: FS, root: Key, names: seq<string>, keys: seq<Key>)
    requires OnWalk(fs, root, names, keys) && 0 < |keys| <= |names|
    ensures var i := |keys| - 1;
            Walk(fs, root, names[..i + 1]) == Lookup(fs, keys[i], names[i])
  {
    var i := |keys| - 1;
    assert names[..i + 1] == names[..i] + [names[i]];
    WalkSnoc(fs, root, names[..i], names[i]);
  }

  lemma WalkGivesChain(fs: FS, root: Key, names: seq<string>, keys: seq<Key>, snapshot: Meta)
    requires |keys| == |names| > 0 && OnWalk(fs, root, names, keys)
    requires StaticFile(fs, keys[|names| - 1], names[|names| - 1], snapshot)
    ensures StaticChain(fs, keys + [snapshot.key], names, snapshot)
  {
    var all := keys + [snapshot.key];
    forall i | 0 <= i < |names| - 1 ensures StaticLink(fs, all[i], names[i], all[i + 1]) {
      var upTo := keys[..i + 1];
      NextOnWalk(fs, root, names, upTo);
      assert upTo[i] == keys[i] == all[i] && all[i + 1] == keys[i + 1];
      assert Walk(fs, root, names[..i + 1]) == Some(keys[i + 1]);
    }
  }

  /** What the descriptors refer to. */
  predicate Refers(now: Table, fds: seq<int>, keys: seq<Key>) {
    |fds| == |keys| && forall i :: 0 <= i < |fds| ==> fds[i] in now && now[fds[i]] == keys[i]
  }

  lemma RefersAt(now: Table, fds: seq<int>, keys: seq<Key>, i: nat)
    requires Refers(now, fds, keys) && i < |fds|
    ensures |keys| == |fds| && fds[i] in now && now[fds[i]] == keys[i]
  {
  }

  lemma RefersMore(now: Table, fds: seq<int>, keys: seq<Key>, fd: int, key: Key)
    requires Refers(now, fds, keys) && fd !in now
    ensures Refers(now[fd := key], fds, keys) && Refers(now[fd := key], fds + [fd], keys + [key])
  {
  }

  /** The entry is a safe ancestor. */
  predicate ChildSafe(fs: FS, dir: Key, name: string, owners: set<nat>) {
    var c := Lookup(fs, dir, name);
    c.Some? && c.value in fs && SafeDirectory(fs[c.value], owners)
  }

  /** Opening one ancestor and inspecting it. */
  method OpenAncestor(k: Kernel, parent: int, name: string, owners: set<nat>) returns (fd: int, safe: bool)
    requires k.Valid() && parent in k.open
    modifies k
    ensures k.Valid() && k.clock > old(k.clock)
    ensures fd < 0 ==> k.open == old(k.open) && !safe
    ensures fd >= 0 ==> fd !in old(k.open) && fd in k.open && k.open == old(k.open)[fd := k.open[fd]]
    ensures safe ==> Inspected(k.env, owners, k.open[fd], old(k.clock), k.clock)
    ensures Quiet(k.env, k.faults, old(k.clock), k.clock) ==>
              var fs, dir := k.env(old(k.clock)), old(k.open)[parent];
              (safe <==> ChildSafe(fs, dir, name, owners)) && (safe ==> Lookup(fs, dir, name) == Some(k.open[fd]))
  {
    hide Lookup, Lawful;
    ghost var t := k.clock;
    fd := k.OpenAt(parent, name, true);
    if fd < 0 {
      return fd, false;
    }
    var node := k.Fstat(fd);
    if node.Some? { SafeAncestorExactly(node.value, owners); }
    hide SafeAncestor, SafeDirectory;
    safe := node.Some? && SafeAncestor(node.value, owners);
    if safe {
      assert SafeDirectory(k.env(t + 1)[k.open[fd]], owners);
    }
  }

  /** How far the ancestor loop has come, if all was quiet since `from`. */
  ghost predicate Progress(env: Env, faults: Faults, from: nat, now: nat, root: Key, names: seq<string>,
                           keys: seq<Key>, owners: set<nat>)
  {
    && keys != [] && keys[0] == root
    && (forall j :: 0 < j < |keys| ==> Inspected(env, owners, keys[j], from, now))
    && (Quiet(env, faults, from, now) ==>
          && OnWalk(env(from), root, names, keys)
          && forall j :: 0 < j < |keys| ==> SafeAt(env(from), root, names[..j], owners))
  }

  lemma StepProgress(env: Env, faults: Faults, from: nat, now: nat, to: nat, root: Key, names: seq<string>,
                     keys: seq<Key>, owners: set<nat>, safe: bool, key: Key)
    requires from <= now < to && |keys| <= |names| && Progress(env, faults, from, now, root, names, keys, owners)
    requires safe ==> Inspected(env, owners, key, now, to)
    requires Quiet(env, faults, now, to) ==>
               var i := |keys| - 1;
               && (safe <==> ChildSafe(env(now), keys[i], names[i], owners))
               && (safe ==> Lookup(env(now), keys[i], names[i]) == Some(key))
    ensures safe ==> Progress(env, faults, from, to, root, names, keys + [key], owners)
    ensures !safe && Quiet(env, faults, from, to) ==> !SafeAt(env(from), root, names[..|keys|], owners)
  {
    hide Lookup, Walk;
    QuietSplit(env, faults, from, now, to);
    if Quiet(env, faults, from, to) {
      NextOnWalk(env(from), root, names, keys);
    }
    forall j | 0 < j < |keys| ensures Inspected(env, owners, keys[j], from, to) {}
    assert safe ==> Inspected(env, owners, key, from, to);
  }

  datatype Ancestors = AllOpen(dirs: seq<int>) | NotOpened(dirs: seq<int>) | NotSafe(dirs: seq<int>, inspected: int)

  /** The ancestor loop: a descriptor joins the list only after its inspection.
      `keys` are the inodes of the listed descriptors. */
  method OpenAncestors(k: Kernel, root: int, components: seq<string>, owners: set<nat>, ghost before: Table,
                       ghost from: nat)
    returns (r: Ancestors, ghost keys: seq<Key>)
    requires k.Valid() && components != [] && Grown(before, k.open, [root]) && from <= k.clock
    requires root in k.open && k.open[root] == k.root
    modifies k
    ensures k.Valid() && k.clock >= old(k.clock)
    ensures !r.NotSafe? ==> Grown(before, k.open, r.dirs)
    ensures r.NotSafe? ==> Grown(before, k.open, r.dirs + [r.inspected])
    ensures r.AllOpen? ==>
              && |r.dirs| == |components| && Refers(k.open, r.dirs, keys) && keys[0] == k.root
              && forall j :: 0 < j < |components| ==> Inspected(k.env, owners, keys[j], from, k.clock)
    ensures Quiet(k.env, k.faults, from, k.clock) ==>
              && (r.AllOpen? <==>
                    forall j :: 0 < j < |components| ==> SafeAt(k.env(from), k.root, components[..j], owners))
              && (r.AllOpen? ==> OnWalk(k.env(from), k.root, components, keys))
  {
    var dirs := [root];
    keys := [k.root];
    RootProgress(k, components, owners, from);
    assert Refers(k.open, dirs, keys);
    hide SafeAt, Grown, OnWalk, Quiet, Lookup, Walk, ChildSafe, SafeDirectory, Lawful, Opens, Inspected, Refers;
    for i := 0 to |components| - 1
      invariant k.Valid() && k.clock >= old(k.clock) && |dirs| == |keys| == i + 1
      invariant Grown(before, k.open, dirs) && Refers(k.open, dirs, keys)
      invariant Progress(k.env, k.faults, from, k.clock, k.root, components, keys, owners)
    {
      ghost var table, now := k.open, k.clock;
      RefersAt(table, dirs, keys, i);
      var fd, safe := OpenAncestor(k, dirs[i], components[i], owners);
      ghost var key := if fd < 0 then k.root else k.open[fd];
      StepProgress(k.env, k.faults, from, now, k.clock, k.root, components, keys, owners, safe, key);
      if fd < 0 {
        return NotOpened(dirs), keys;
      }
      GrownByOne(before, table, dirs, fd, key);
      if !safe {
        return NotSafe(dirs, fd), keys;
      }
      RefersMore(table, dirs, keys, fd, key);
      dirs := dirs + [fd];
      keys := keys + [key];
    }
    r := AllOpen(dirs);
  }

  lemma RootProgress(k: Kernel, components: seq<string>, owners: set<nat>, from: nat)
    requires k.Valid() && components != []
    ensures Progress(k.env, k.faults, from, k.clock, k.root, components, [k.root], owners)
  {
    assert components[..0] == [];
  }

  datatype Failure =
    | RootNotOpened | RootNotSafe | AncestorNotOpened | AncestorNotSafe | FileNotOpened
    | FileNotSafe | ReadFailed | ChangedDuringRead | DigestMismatch | RecheckFailed

  datatype PinResult = PinOk(pinned: Pinned) | PinFailed(reason: Failure)

  /** What the snapshot step establishes about an open file. */
  ghost predicate Snapshotted(k: Kernel, fd: int, snapshot: Meta, data: string, t: nat)
    reads k
  {
    && fd in k.open && k.open[fd] == snapshot.key && t < k.clock
    && snapshot.key in k.env(t) && k.env(t)[snapshot.key] == File(snapshot, data)
  }

  datatype ReadResult = ReadOk(snapshot: Meta, data: string) | ReadFail(reason: Failure)

  /** fstat, bounded read, fstat: accepted data is exactly the file's bytes. */
  method ReadStable(k: Kernel, fd: int, euid: nat, maximum: nat) returns (r: ReadResult)
    requires k.Valid() && fd in k.open
    modifies k`clock
    ensures k.Valid() && k.clock > old(k.clock)
    ensures r.ReadOk? ==> k.clock > 0
    ensures r.ReadOk? ==> Snapshotted(k, fd, r.snapshot, r.data, k.clock - 1)
    ensures r.ReadOk? ==> |r.data| == r.snapshot.size && PrivateFile(File(r.snapshot, r.data), euid, maximum)
    ensures r.ReadFail? ==> r.reason in {FileNotSafe, ReadFailed, ChangedDuringRead}
    ensures Quiet(k.env, k.faults, old(k.clock), k.clock) ==>
              (r.ReadOk? <==> PrivateFile(k.env(old(k.clock))[k.open[fd]], euid, maximum))
  {
    var t0 := k.clock;
    var before := k.Fstat(fd);
    if before.None? || !SafeFile(before.value, euid, maximum) {
      return ReadFail(FileNotSafe);
    }
    var t1 := k.clock;
    var data := ReadPinned(k, fd, maximum);
    if data.None? {
      return ReadFail(ReadFailed);
    }
    var t2 := k.clock;
    var after := k.Fstat(fd);
    if after.None? || after.value.meta != before.value.meta || |data.value| != before.value.meta.size {
      QuietRead(k.env, k.faults, k.open[fd], t0, t1, t2, data.value, maximum);
      return ReadFail(ChangedDuringRead);
    }
    StableBytes(k.env, k.open[fd], t0, t1, t2, data.value, maximum);
    r := ReadOk(before.value.meta, data.value);
  }

  /** A quiet read of a bounded file returns as many bytes as its size. */
  lemma QuietRead(env: Env, faults: Faults, file: Key, t0: nat, t1: nat, t2: nat, data: string, maximum: nat)
    requires Lawful(env) && t0 <= t1 <= t2
    requires file in env(t0) && env(t0)[file].File? && env(t0)[file].meta.size <= maximum
    requires file in env(t1) && file in env(t2)
    requires forall now: nat :: Unchanged(env, file, t1, now) && now >= t2 ==>
               data == Bounded(env(t1)[file].bytes, maximum)
    ensures Quiet(env, faults, t0, t2 + 1) ==>
              env(t2)[file].meta == env(t0)[file].meta && |data| == env(t0)[file].meta.size
  {
    if Quiet(env, faults, t0, t2 + 1) {
      assert env(t2) == env(t0) && env(t1) == env(t0);
      assert Unchanged(env, file, t1, t2);
      assert WellFormed(env(t0));
    }
  }

  lemma StableBytes(env: Env, file: Key, t0: nat, t1: nat, t2: nat, data: string, maximum: nat)
    requires Lawful(env) && t0 <= t1 <= t2 && file in env(t0) && env(t0)[file].File?
    requires file in env(t2) && env(t2)[file].meta == env(t0)[file].meta
    requires file in env(t1)
    requires forall now: nat :: Unchanged(env, file, t1, now) && now >= t2 ==>
               data == Bounded(env(t1)[file].bytes, maximum)
    requires |data| == env(t0)[file].meta.size <= maximum
    ensures env(t2)[file] == File(env(t0)[file].meta, data) && env(t0)[file].meta.key == file
  {
    Steady(env, file, t0, t1, t2);
    assert WellFormed(env(t0));
    assert Unchanged(env, file, t1, t2);
  }

  /** The last thing that happened is a successful recheck, and right before it
      the file held the pinned bytes under the pinned snapshot. */
  ghost predicate Fresh(k: Kernel, p: Pinned)
    reads k
  {
    && Held(k.open, p) && k.clock >= 2 * |p.components| + 1
    && Observed(k.env, k.faults, k.clock - 2 * |p.components|, ChainKeys(k.open, p), p.components, p.snapshot)
    && var t := k.clock - 2 * |p.components| - 1;
    && p.snapshot.key in k.env(t) && k.env(t)[p.snapshot.key] == File(p.snapshot, p.data)
  }

  /** The recheck that ends pinning. */
  method FirstRecheck(k: Kernel, p: Pinned) returns (ok: bool)
    requires k.Valid() && Held(k.open, p) && k.clock > 0
    requires Snapshotted(k, p.file, p.snapshot, p.data, k.clock - 1)
    modifies k`clock
    ensures k.Valid() && k.clock > old(k.clock)
    ensures ok ==> Fresh(k, p) && k.clock == old(k.clock) + 2 * |p.components|
    ensures Quiet(k.env, k.faults, old(k.clock), k.clock) ==>
              (ok <==> StaticChain(k.env(old(k.clock)), ChainKeys(k.open, p), p.components, p.snapshot))
  {
    hide Observed, Held, StaticChain;
    ok := Recheck(k, p);
  }

  /** The pinned file is what the path names, with the pinned bytes. */
  ghost predicate Settled(fs: FS, root: Key, now: Table, p: Pinned) {
    && Held(now, p) && StaticChain(fs, ChainKeys(now, p), p.components, p.snapshot)
    && Walk(fs, root, p.components) == Some(p.snapshot.key)
    && p.snapshot.key in fs && fs[p.snapshot.key] == File(p.snapshot, p.data)
  }

  /** Opening and inspecting "/". */
  method OpenSafeRoot(k: Kernel, owners: set<nat>) returns (fd: int, safe: bool)
    requires k.Valid()
    modifies k
    ensures k.Valid() && k.clock > old(k.clock)
    ensures fd < 0 ==> k.open == old(k.open) && !safe
    ensures fd >= 0 ==> fd !in old(k.open) && k.open == old(k.open)[fd := k.root]
    ensures safe ==> Inspected(k.env, owners, k.root, old(k.clock), k.clock)
    ensures Quiet(k.env, k.faults, old(k.clock), k.clock) ==>
              (safe <==> SafeDirectory(k.env(old(k.clock))[k.root], owners))
  {
    hide Lawful, SafeDirectory, SafeAncestor;
    ghost var t := k.clock;
    fd := k.OpenRoot();
    if fd < 0 {
      return fd, false;
    }
    var node := k.Fstat(fd);
    if node.Some? { SafeAncestorExactly(node.value, owners); }
    safe := node.Some? && SafeAncestor(node.value, owners);
    if safe {
      assert SafeDirectory(k.env(t + 1)[k.root], owners);
    }
  }

  /** pin_controller_source().  A pin holds its descriptors, was inspected
      everywhere and has just been rechecked.  On failure nothing stays open,
      except that the ancestor being inspected is lost when it is found unsafe.
      In a quiet filesystem pinning succeeds exactly for a pinnable path. */
  method Pin(k: Kernel, components: seq<string>, digest: string, maximum: nat, policy: Policy) returns (r: PinResult)
    requires k.Valid() && components != []
    modifies k
    ensures k.Valid() && k.clock > old(k.clock)
    ensures r.PinOk? ==>
              && Held(k.open, r.pinned) && Grown(old(k.open), k.open, r.pinned.dirs + [r.pinned.file])
              && r.pinned.components == components && k.open[r.pinned.dirs[0]] == k.root
    ensures r.PinOk? ==>
              && policy.hash(r.pinned.data) == digest && Fresh(k, r.pinned) && k.clock > old(k.clock) + 2 * |components|
              && PrivateFile(File(r.pinned.snapshot, r.pinned.data), policy.euid, maximum)
              && forall i :: 0 <= i < |components| ==>
                   Inspected(k.env, policy.owners, ChainKeys(k.open, r.pinned)[i], old(k.clock), k.clock)
    ensures r.PinFailed? && r.reason != AncestorNotSafe ==> k.open == old(k.open)
    ensures r.PinFailed? && r.reason == AncestorNotSafe ==> exists fd :: Grown(old(k.open), k.open, [fd])
    ensures Quiet(k.env, k.faults, old(k.clock), k.clock) ==>
              && (r.PinOk? <==> Pinnable(k.env(old(k.clock)), k.root, components, digest, maximum, policy))
              && (r.PinOk? ==> Settled(k.env(old(k.clock)), k.root, k.open, r.pinned))
  {
    ghost var start, from := k.open, k.clock;
    hide Grown, Fresh, SafeDirectory, PrivateFile, Distinct, Lawful, FileAt, Settled, Held, OnWalk, SafeAt, Pinnable,
      Quiet;
    PinnableParts(k.env(from), k.root, components, digest, maximum, policy);
    var root, safe := OpenSafeRoot(k, policy.owners);
    if root < 0 {
      return PinFailed(RootNotOpened);
    }
    FirstGrown(start, root, k.root);
    if !safe {
      Release(k, [root], start);
      return PinFailed(RootNotSafe);
    }
    ghost var mid := k.clock;
    var a;
    ghost var keys;
    a, keys := OpenAncestors(k, root, components, policy.owners, start, from);
    if a.NotOpened? {
      Release(k, a.dirs, start);
      return PinFailed(AncestorNotOpened);
    }
    if a.NotSafe? {
      CloseListed(k, a.dirs, a.inspected, start);
      return PinFailed(AncestorNotSafe);
    }
    ghost var reached := k.clock;
    r := PinFile(k, a.dirs, components, digest, maximum, policy, start, from, keys);
    QuietSplit(k.env, k.faults, from, mid, k.clock);
    QuietSplit(k.env, k.faults, from, reached, k.clock);
  }

  lemma PinnableParts(fs: FS, root: Key, components: seq<string>, digest: string, maximum: nat, policy: Policy)
    requires root in fs && components != []
    ensures Pinnable(fs, root, components, digest, maximum, policy) <==>
            && SafeDirectory(fs[root], policy.owners)
            && (forall j :: 0 < j < |components| ==> SafeAt(fs, root, components[..j], policy.owners))
            && FileAt(fs, root, components, digest, maximum, policy)
  {
    hide SafeDirectory, FileAt;
    assert components[..0] == [];
    assert SafeAt(fs, root, components[..0], policy.owners) <==> SafeDirectory(fs[root], policy.owners);
  }

  lemma FirstGrown(before: Table, fd: int, key: Key)
    requires fd !in before
    ensures Grown(before, before[fd := key], [fd])
  {
    GrownNone(before);
    GrownByOne(before, before, [], fd, key);
    assert [] + [fd] == [fd];
  }

  lemma GrownNone(before: Table)
    ensures Grown(before, before, [])
  {
  }

  /** The except clause with an ancestor that was opened but not yet listed. */
  method CloseListed(k: Kernel, dirs: seq<int>, inspected: int, ghost before: Table)
    requires k.Valid() && Grown(before, k.open, dirs + [inspected])
    modifies k`open
    ensures k.Valid() && Grown(before, k.open, [inspected])
  {
    var all := dirs + [inspected];
    GrownOpen(before, k.open, all);
    assert forall i :: 0 <= i < |dirs| ==> dirs[i] == all[i];
    assert Elements(all) == Elements(dirs) + {inspected};
    assert inspected == all[|dirs|];
    assert inspected !in dirs;
    k.CloseAll(dirs);
    assert Elements([inspected]) == {inspected};
  }

  /** From the open ancestors to a pinned, rechecked file. */
  method PinFile(k: Kernel, dirs: seq<int>, components: seq<string>, digest: string, maximum: nat, policy: Policy,
                 ghost before: Table, ghost from: nat, ghost keys: seq<Key>) returns (r: PinResult)
    requires k.Valid() && components != [] && |dirs| == |components| && Grown(before, k.open, dirs)
    requires Refers(k.open, dirs, keys) && keys[0] == k.root && from <= k.clock
    requires Quiet(k.env, k.faults, from, k.clock) ==> OnWalk(k.env(from), k.root, components, keys)
    modifies k
    ensures k.Valid() && k.clock > old(k.clock)
    ensures r.PinOk? ==>
              && Held(k.open, r.pinned) && Grown(before, k.open, r.pinned.dirs + [r.pinned.file])
              && r.pinned.components == components && k.open[r.pinned.dirs[0]] == k.root
    ensures r.PinOk? ==>
              && policy.hash(r.pinned.data) == digest && Fresh(k, r.pinned) && k.clock > old(k.clock) + 2 * |components|
              && PrivateFile(File(r.pinned.snapshot, r.pinned.data), policy.euid, maximum)
              && ChainKeys(k.open, r.pinned) == keys + [r.pinned.snapshot.key]
    ensures r.PinFailed? ==> k.open == before && r.reason != AncestorNotSafe
    ensures Quiet(k.env, k.faults, from, k.clock) ==>
              && (r.PinOk? <==> FileAt(k.env(from), k.root, components, digest, maximum, policy))
              && (r.PinOk? ==> Settled(k.env(from), k.root, k.open, r.pinned))
  {
    hide PrivateFile, FileAt, OnWalk, Quiet, Settled, Fresh, Held, Lawful, Lookup;
    ghost var table, now := k.open, k.clock;
    var last := |components| - 1;
    var file := k.OpenAt(dirs[last], components[last], false);
    QuietSplit(k.env, k.faults, from, now, k.clock);
    if Quiet(k.env, k.faults, from, k.clock) {
      LastOnWalk(k.env(from), k.root, components, keys, digest, maximum, policy);
    }
    if file < 0 {
      Release(k, dirs, before);
      return PinFailed(FileNotOpened);
    }
    GrownByOne(before, table, dirs, file, k.open[file]);
    RefersMore(table, dirs, keys, file, k.open[file]);
    var fds := dirs + [file];
    r := PinOpened(k, dirs, file, components, digest, maximum, policy, from, keys);
    if r.PinFailed? {
      Release(k, fds, before);
    }
  }

  /** The last component of the walk. */
  lemma LastOnWalk(fs: FS, root: Key, names: seq<string>, keys: seq<Key>, digest: string, maximum: nat, policy: Policy)
    requires OnWalk(fs, root, names, keys) && |keys| == |names| > 0
    ensures var last := |names| - 1;
            && Walk(fs, root, names) == Lookup(fs, keys[last], names[last])
            && (FileAt(fs, root, names, digest, maximum, policy) ==> Opens(fs, keys[last], names[last], false))
  {
    NextOnWalk(fs, root, names, keys);
    assert names[..|names|] == names;
  }

  /** The open file: read, compare, recheck. */
  method PinOpened(k: Kernel, dirs: seq<int>, file: int, components: seq<string>, digest: string, maximum: nat,
                   policy: Policy, ghost from: nat, ghost keys: seq<Key>) returns (r: PinResult)
    requires k.Valid() && components != [] && |dirs| == |components| && Distinct(dirs + [file])
    requires Refers(k.open, dirs, keys) && file in k.open && from <= k.clock
    requires Quiet(k.env, k.faults, from, k.clock) ==>
               && OnWalk(k.env(from), k.root, components, keys)
               && Walk(k.env(from), k.root, components) == Some(k.open[file]) ==
                  Lookup(k.env(from), keys[|components| - 1], components[|components| - 1])
    modifies k`clock
    ensures k.Valid() && k.clock >= old(k.clock)
    ensures r.PinOk? ==>
              && r.pinned.dirs == dirs && r.pinned.file == file && r.pinned.components == components
              && Held(k.open, r.pinned) && ChainKeys(k.open, r.pinned) == keys + [r.pinned.snapshot.key]
    ensures r.PinOk? ==>
              && policy.hash(r.pinned.data) == digest && Fresh(k, r.pinned) && k.clock > old(k.clock) + 2 * |components|
              && PrivateFile(File(r.pinned.snapshot, r.pinned.data), policy.euid, maximum)
    ensures r.PinFailed? ==> r.reason != AncestorNotSafe
    ensures Quiet(k.env, k.faults, from, k.clock) ==>
              && (r.PinOk? <==> FileAt(k.env(from), k.root, components, digest, maximum, policy))
              && (r.PinOk? ==> Settled(k.env(from), k.root, k.open, r.pinned))
  {
    hide PrivateFile, OnWalk, Fresh, Lawful, Lookup, Distinct, StaticChain, SafeDirectory;
    ghost var t0 := k.clock;
    var read := ReadStable(k, file, policy.euid, maximum);
    ghost var t1 := k.clock;
    QuietSplit(k.env, k.faults, from, t0, t1);
    if read.ReadFail? {
      return PinFailed(read.reason);
    }
    if policy.hash(read.data) != digest {
      return PinFailed(DigestMismatch);
    }
    var p := Pinned(dirs, components, file, read.snapshot, read.data);
    assert ChainKeys(k.open, p) == keys + [read.snapshot.key];
    if Quiet(k.env, k.faults, from, t1) {
      assert StaticFile(k.env(from), keys[|components| - 1], components[|components| - 1], read.snapshot);
      WalkGivesChain(k.env(from), k.root, components, keys, read.snapshot);
    }
    var ok := FirstRecheck(k, p);
    QuietSplit(k.env, k.faults, from, t1, k.clock);
    r := if ok then PinOk(p) else PinFailed(RecheckFailed);
  }

  /** After close() the descriptor table is what it was before pinning. */
  method PinAndClose(k: Kernel, components: seq<string>, digest: string, maximum: nat, policy: Policy)
    returns (ok: bool)
    requires k.Valid() && components != []
    modifies k
    ensures k.Valid()
    ensures ok ==> k.open == old(k.open)
    ensures Quiet(k.env, k.faults, old(k.clock), k.clock) ==>
              (ok <==> Pinnable(k.env(old(k.clock)), k.root, components, digest, maximum, policy))
  {
    hide Fresh, Pinnable, Settled, PrivateFile, Inspected, Quiet, Lawful;
    var r := Pin(k, components, digest, maximum, policy);
    if r.PinFailed? {
      return false;
    }
    GrownShrinks(old(k.open), k.open, r.pinned.dirs + [r.pinned.file]);
    ClosePinned(k, r.pinned);
    ok := true;
  }

  // ------------------------------------------------------- a rename is missed

  /** The checks of a recheck are made one after the other.  For every policy in
      which the user's own directories are trusted, there is a pinnable path and
      a foreign rename, behind the check of its first directory, that leaves a
      successful recheck although the path no longer walks to the file. */
  lemma RenameDuringRecheckIsMissed(policy: Policy, maximum: nat)
    requires policy.euid in policy.owners && maximum > 0
    ensures exists env: Env, faults: Faults, keys: seq<Key>, names: seq<string>, snapshot: Meta, data: string ::
              && Lawful(env) && |keys| == |names| + 1
              && Pinnable(env(0), keys[0], names, policy.hash(data), maximum, policy)
              && snapshot.key in env(0) && env(0)[snapshot.key] == File(snapshot, data)
              && Observed(env, faults, 0, keys, names, snapshot)
              && Walk(env(3), keys[0], names) == None
  {
    var uid := policy.euid;
    ExampleRecheck(uid);
    ExampleLinks(uid);
    ExamplePinnable(policy, maximum);
    hide ExampleTree, Pinnable, Lawful, Observed, Walk, FileMeta;
    var env, snapshot := ExampleEnv(uid), FileMeta(uid);
    assert snapshot.key in env(0) && env(0)[snapshot.key] == File(snapshot, "x");
    assert Pinnable(env(0), EXAMPLE_KEYS[0], EXAMPLE_NAMES, policy.hash("x"), maximum, policy);
  }

  ghost function ExampleEnv(uid: nat): Env {
    t => if t < 2 then ExampleTree(uid, true) else ExampleTree(uid, false)
  }

  lemma ExampleRecheck(uid: nat)
    ensures var env := ExampleEnv(uid);
            && Lawful(env) && Observed(env, t => false, 0, EXAMPLE_KEYS, EXAMPLE_NAMES, FileMeta(uid))
            && Walk(env(3), EXAMPLE_KEYS[0], EXAMPLE_NAMES) == None && FileMeta(uid).key == EXAMPLE_FILE
  {
    ExampleLawful(uid);
    ExampleLinks(uid);
    hide ExampleTree, WellFormed, EnvStep, Lookup, DirMeta;
    var env, faults: Faults := ExampleEnv(uid), t => false;
    var snapshot := FileMeta(uid);
    assert Lawful(env);
    hide Lawful;
    assert LinkPasses(env, faults, 0, EXAMPLE_ROOT, "d", EXAMPLE_DIR);
    assert FilePasses(env, faults, 2, EXAMPLE_DIR, "f", snapshot);
    assert Linked(env, faults, 0, EXAMPLE_KEYS, EXAMPLE_NAMES, 0);
    assert Observed(env, faults, 0, EXAMPLE_KEYS, EXAMPLE_NAMES, snapshot);
    assert Walk(env(3), EXAMPLE_ROOT, EXAMPLE_NAMES) == None;
  }

  ghost const EXAMPLE_ROOT := Key(0, 0)
  ghost const EXAMPLE_DIR := Key(0, 1)
  ghost const EXAMPLE_FILE := Key(0, 2)
  ghost const EXAMPLE_KEYS := [EXAMPLE_ROOT, EXAMPLE_DIR, EXAMPLE_FILE]
  ghost const EXAMPLE_NAMES := ["d", "f"]

  /** A directory of mode 0700. */
  ghost function DirMeta(key: Key, uid: nat, ctime: int): Meta {
    Meta(key, uid, 0, 0x1C0, 2, 0, 0, ctime)
  }

  /** A file of mode 0600 with one link and one byte. */
  ghost function FileMeta(uid: nat): Meta {
    Meta(EXAMPLE_FILE, uid, 0, 0x180, 1, 1, 0, 0)
  }

  /** /d/f, before and after the name d is removed from the root. */
  ghost function ExampleTree(uid: nat, linked: bool): FS {
    map[EXAMPLE_ROOT := if linked then Dir(DirMeta(EXAMPLE_ROOT, uid, 0), map["d" := EXAMPLE_DIR])
                        else Dir(DirMeta(EXAMPLE_ROOT, uid, 1), map[]),
        EXAMPLE_DIR := Dir(DirMeta(EXAMPLE_DIR, uid, 0), map["f" := EXAMPLE_FILE]),
        EXAMPLE_FILE := File(FileMeta(uid), "x")]
  }

  lemma ExampleLawful(uid: nat)
    ensures WellFormed(ExampleTree(uid, true)) && WellFormed(ExampleTree(uid, false))
    ensures EnvStep(ExampleTree(uid, true), ExampleTree(uid, true))
    ensures EnvStep(ExampleTree(uid, true), ExampleTree(uid, false))
    ensures EnvStep(ExampleTree(uid, false), ExampleTree(uid, false))
  {
  }

  lemma ExampleLinks(uid: nat)
    ensures var fs := ExampleTree(uid, true);
            && Lookup(fs, EXAMPLE_ROOT, "d") == Some(EXAMPLE_DIR) && Lookup(fs, EXAMPLE_DIR, "f") == Some(EXAMPLE_FILE)
            && EXAMPLE_ROOT in fs && fs[EXAMPLE_ROOT] == Dir(DirMeta(EXAMPLE_ROOT, uid, 0), map["d" := EXAMPLE_DIR])
            && EXAMPLE_DIR in fs && fs[EXAMPLE_DIR] == Dir(DirMeta(EXAMPLE_DIR, uid, 0), map["f" := EXAMPLE_FILE])
            && EXAMPLE_FILE in fs && fs[EXAMPLE_FILE] == File(FileMeta(uid), "x")
    ensures var fs := ExampleTree(uid, false);
            && Lookup(fs, EXAMPLE_ROOT, "d") == None && Lookup(fs, EXAMPLE_DIR, "f") == Some(EXAMPLE_FILE)
            && EXAMPLE_FILE in fs && fs[EXAMPLE_FILE] == File(FileMeta(uid), "x")
  {
  }

  lemma ExamplePinnable(policy: Policy, maximum: nat)
    requires policy.euid in policy.owners && maximum > 0
    ensures Pinnable(ExampleTree(policy.euid, true), EXAMPLE_ROOT, EXAMPLE_NAMES, policy.hash("x"), maximum, policy)
  {
    var uid, fs, names := policy.euid, ExampleTree(policy.euid, true), EXAMPLE_NAMES;
    ExampleLinks(uid);
    hide ExampleTree, Lookup;
    assert names[..0] == [] && names[..1] == ["d"] && names[..2] == names;
    assert ["d"][1..] == [] && names[1..] == ["f"] && ["f"][1..] == [];
    assert Walk(fs, EXAMPLE_DIR, ["f"]) == Some(EXAMPLE_FILE);
    assert Walk(fs, EXAMPLE_ROOT, ["d"]) == Some(EXAMPLE_DIR);
    assert Walk(fs, EXAMPLE_ROOT, names) == Some(EXAMPLE_FILE);
    forall j | 0 <= j < 2 ensures SafeAt(fs, EXAMPLE_ROOT, names[..j], policy.owners) {
      assert j == 0 || j == 1;
    }
  }

  // ------------------------------------------------------------- source_bytes

  /** The metadata test of source_bytes. */
  predicate SourceFile(node: Node, maximum: nat) {
    node.File? && node.meta.nlink == 1 && 0 < node.meta.size <= maximum
  }

  /** The path names a readable file. */
  predicate Readable(fs: FS, root: Key, components: seq<string>, maximum: nat) {
    var f := Walk(fs, root, components);
    f.Some? && f.value in fs && SmallFile(fs[f.value], maximum)
  }

  /** The entry was seen to name the inode. */
  ghost predicate OpenedVia(env: Env, dir: Key, name: string, child: Key, from: nat, to: nat) {
    exists u: nat :: from <= u < to && Lookup(env(u), dir, name) == Some(child)
  }

  /** At time t the directory entry names the file, which holds these bytes. */
  ghost predicate ReadByName(env: Env, t: nat, dir: Key, name: string, file: Key, meta: Meta, data: string) {
    Lookup(env(t), dir, name) == Some(file) && file in env(t) && env(t)[file] == File(meta, data)
  }

  ghost predicate WasReadByName(env: Env, from: nat, now: nat, dir: Key, name: string, data: string) {
    exists t: nat, file: Key, meta: Meta :: from <= t < now && ReadByName(env, t, dir, name, file, meta, data)
  }

  /** Each component was opened in the directory opened before, from the root. */
  ghost predicate OpenedDown(env: Env, root: Key, names: seq<string>, keys: seq<Key>, from: nat, to: nat) {
    && 0 < |keys| <= |names| && keys[0] == root
    && forall j :: 0 <= j < |keys| - 1 ==> OpenedVia(env, keys[j], names[j], keys[j + 1], from, to)
  }

  /** The bytes were read by the last name, in a directory opened from the root. */
  ghost predicate ReadFromRoot(env: Env, from: nat, now: nat, root: Key, names: seq<string>, data: string) {
    exists keys :: |keys| == |names| && OpenedDown(env, root, names, keys, from, now) &&
                   WasReadByName(env, from, now, keys[|names| - 1], names[|names| - 1], data)
  }

  /** One directory deeper, or no way on. */
  lemma StepDown(env: Env, faults: Faults, from: nat, now: nat, root: Key, names: seq<string>, keys: seq<Key>,
                 found: bool, key: Key)
    requires from <= now && |keys| < |names| && OpenedDown(env, root, names, keys, from, now)
    requires Quiet(env, faults, from, now) ==> OnWalk(env(from), root, names, keys)
    requires var i := |keys| - 1;
             && (found <==> !faults(now) && Opens(env(now), keys[i], names[i], true))
             && (found ==> Lookup(env(now), keys[i], names[i]) == Some(key))
    ensures found ==> OpenedDown(env, root, names, keys + [key], from, now + 1)
    ensures Quiet(env, faults, from, now + 1) ==>
              if found then OnWalk(env(from), root, names, keys + [key]) else Walk(env(from), root, names).None?
  {
    hide Lookup, Walk;
    var i := |keys| - 1;
    QuietSplit(env, faults, from, now, now + 1);
    if found {
      var all := keys + [key];
      forall j | 0 <= j < |keys| ensures OpenedVia(env, all[j], names[j], all[j + 1], from, now + 1) {
        assert j < i ==> OpenedVia(env, keys[j], names[j], keys[j + 1], from, now);
      }
    }
    if Quiet(env, faults, from, now + 1) {
      NextOnWalk(env(from), root, names, keys);
      if !found && Walk(env(from), root, names).Some? {
        WalkNeedsDirs(env(from), root, names, i + 1);
      }
    }
  }

  /** source_bytes(): every descriptor is appended as soon as it is open, and the
      finally clause closes each exactly once, on every path.  In a quiet
      filesystem it returns exactly the bytes of a readable path. */
  method SourceBytes(k: Kernel, components: seq<string>, maximum: nat) returns (r: Option<string>)
    requires k.Valid() && components != []
    modifies k
    ensures k.Valid() && k.clock >= old(k.clock) && k.open == old(k.open)
    ensures r.Some? ==>
              0 < |r.value| <= maximum && ReadFromRoot(k.env, old(k.clock), k.clock, k.root, components, r.value)
    ensures Quiet(k.env, k.faults, old(k.clock), k.clock) ==>
              var fs := k.env(old(k.clock));
              && (r.Some? <==> Readable(fs, k.root, components, maximum))
              && (r.Some? ==> r.value == fs[Walk(fs, k.root, components).value].bytes)
  {
    ghost var start, from := k.open, k.clock;
    hide Grown, SmallFile, Walk, Lookup, OnWalk, Lawful, Quiet, Refers, OpenedDown, WasReadByName;
    var root := k.OpenRoot();
    if root < 0 {
      QuietNoFault(k.env, k.faults, from, k.clock);
      return None;
    }
    FirstGrown(start, root, k.root);
    var fds := [root];
    ghost var keys := [k.root];
    RootDown(k, root, components, from);
    var last := |components| - 1;
    for i := 0 to last
      invariant k.Valid() && k.clock > from && |fds| == |keys| == i + 1
      invariant Grown(start, k.open, fds) && Refers(k.open, fds, keys)
      invariant OpenedDown(k.env, k.root, components, keys, from, k.clock)
      invariant Quiet(k.env, k.faults, from, k.clock) ==> OnWalk(k.env(from), k.root, components, keys)
    {
      ghost var table, now := k.open, k.clock;
      RefersAt(table, fds, keys, i);
      var fd := k.OpenAt(fds[i], components[i], true);
      ghost var key := if fd < 0 then k.root else k.open[fd];
      StepDown(k.env, k.faults, from, now, k.root, components, keys, fd >= 0, key);
      if fd < 0 {
        Release(k, fds, start);
        return None;
      }
      GrownByOne(start, table, fds, fd, key);
      RefersMore(table, fds, keys, fd, key);
      fds := fds + [fd];
      keys := keys + [key];
    }
    r := ReadLast(k, fds, components, maximum, start, from, keys);
  }

  lemma QuietNoFault(env: Env, faults: Faults, from: nat, to: nat)
    requires from < to && faults(from)
    ensures !Quiet(env, faults, from, to)
  {
  }

  lemma RootDown(k: Kernel, root: int, components: seq<string>, from: nat)
    requires k.Valid() && components != [] && root in k.open && k.open[root] == k.root && from <= k.clock
    ensures Refers(k.open, [root], [k.root]) && OpenedDown(k.env, k.root, components, [k.root], from, k.clock)
    ensures OnWalk(k.env(from), k.root, components, [k.root])
  {
    assert components[..0] == [];
  }

  /** The last component: open, read, close everything. */
  method ReadLast(k: Kernel, fds: seq<int>, components: seq<string>, maximum: nat, ghost start: Table, ghost from: nat,
                  ghost keys: seq<Key>) returns (r: Option<string>)
    requires k.Valid() && components != [] && |fds| == |components| && Grown(start, k.open, fds) && from <= k.clock
    requires Refers(k.open, fds, keys) && OpenedDown(k.env, k.root, components, keys, from, k.clock)
    requires Quiet(k.env, k.faults, from, k.clock) ==> OnWalk(k.env(from), k.root, components, keys)
    modifies k
    ensures k.Valid() && k.clock >= old(k.clock) && k.open == start
    ensures r.Some? ==> 0 < |r.value| <= maximum && ReadFromRoot(k.env, from, k.clock, k.root, components, r.value)
    ensures Quiet(k.env, k.faults, from, k.clock) ==>
              var fs := k.env(from);
              && (r.Some? <==> Readable(fs, k.root, components, maximum))
              && (r.Some? ==> r.value == fs[Walk(fs, k.root, components).value].bytes)
  {
    hide Grown, SmallFile, Walk, Lookup, OnWalk, Lawful, Quiet, OpenedDown, WasReadByName;
    var last := |components| - 1;
    ghost var table, now := k.open, k.clock;
    var fd := k.OpenAt(fds[last], components[last], false);
    QuietSplit(k.env, k.faults, from, now, k.clock);
    if Quiet(k.env, k.faults, from, k.clock) {
      ReadableLast(k.env(from), k.root, components, keys, maximum);
      assert !k.faults(now) by { QuietAt(k.env, k.faults, from, now, k.clock); }
    }
    if fd < 0 {
      Release(k, fds, start);
      return None;
    }
    GrownByOne(start, table, fds, fd, k.open[fd]);
    RefersMore(table, fds, keys, fd, k.open[fd]);
    var all := fds + [fd];
    ghost var t := k.clock;
    r := ReadAndCompare(k, fd, fds[last], components[last], maximum);
    QuietSplit(k.env, k.faults, from, t, k.clock);
    if r.Some? {
      OpenedDownLater(k.env, k.root, components, keys, from, now, t, k.clock, r.value);
    }
    Release(k, all, start);
  }

  lemma QuietAt(env: Env, faults: Faults, from: nat, now: nat, to: nat)
    requires Quiet(env, faults, from, to) && from <= now < to
    ensures !faults(now) && env(now) == env(from)
  {
  }

  lemma ReadableLast(fs: FS, root: Key, names: seq<string>, keys: seq<Key>, maximum: nat)
    requires OnWalk(fs, root, names, keys) && |keys| == |names| > 0
    ensures var last := |names| - 1;
            && Walk(fs, root, names) == Lookup(fs, keys[last], names[last])
            && (Readable(fs, root, names, maximum) ==> Opens(fs, keys[last], names[last], false))
  {
    NextOnWalk(fs, root, names, keys);
    assert names[..|names|] == names;
  }

  lemma OpenedDownLater(env: Env, root: Key, names: seq<string>, keys: seq<Key>, from: nat, now: nat, t: nat, to: nat,
                        data: string)
    requires OpenedDown(env, root, names, keys, from, now) && |keys| == |names| && from <= now <= t <= to
    requires WasReadByName(env, t, to, keys[|names| - 1], names[|names| - 1], data)
    ensures ReadFromRoot(env, from, to, root, names, data)
  {
    hide Lookup;
    forall j | 0 <= j < |keys| - 1 ensures OpenedVia(env, keys[j], names[j], keys[j + 1], from, to) {
      assert OpenedVia(env, keys[j], names[j], keys[j + 1], from, now);
    }
    assert OpenedDown(env, root, names, keys, from, to);
  }

  /** fstat, bounded read, then fstat and stat by name against the first fstat. */
  method ReadAndCompare(k: Kernel, fd: int, dir: int, name: string, maximum: nat) returns (r: Option<string>)
    requires k.Valid() && fd in k.open && dir in k.open
    modifies k`clock
    ensures k.Valid() && k.clock > old(k.clock)
    ensures r.Some? ==>
              0 < |r.value| <= maximum && WasReadByName(k.env, old(k.clock), k.clock, k.open[dir], name, r.value)
    ensures Quiet(k.env, k.faults, old(k.clock), k.clock) &&
            Lookup(k.env(old(k.clock)), k.open[dir], name) == Some(k.open[fd]) ==>
              var node := k.env(old(k.clock))[k.open[fd]];
              && (r.Some? <==> SmallFile(node, maximum))
              && (r.Some? ==> r.value == node.bytes)
  {
    var t0 := k.clock;
    var before := k.Fstat(fd);
    if before.None? || !SourceFile(before.value, maximum) {
      return None;
    }
    var t1 := k.clock;
    var data := ReadSource(k, fd, maximum);
    if data.None? {
      return None;
    }
    var t2 := k.clock;
    var after := k.Fstat(fd);
    if |data.value| != before.value.meta.size || after.None? || after.value.meta != before.value.meta {
      QuietRead(k.env, k.faults, k.open[fd], t0, t1, t2, data.value, maximum);
      return None;
    }
    StableBytes(k.env, k.open[fd], t0, t1, t2, data.value, maximum);
    var t3 := k.clock;
    var named := k.StatAt(dir, name);
    if named.None? || named.value.meta != before.value.meta {
      return None;
    }
    var entry := Lookup(k.env(t3), k.open[dir], name).value;
    OwnKey(k.env, t3, entry);
    var file := k.open[fd];
    Steady(k.env, file, t0, t2, t3);
    assert ReadByName(k.env, t3, k.open[dir], name, file, before.value.meta, data.value);
    r := data;
  }
}

/** A small filesystem seen through descriptors, while other processes change
    it.  Time advances by one with every system call; `env` says what the
    filesystem is at each time. */
module Filesystem {
  import opened Text

  /** Device and inode number. */
  datatype Key = Key(dev: nat, ino: nat)

  /** The fields of identity(): everything that is compared. */
  datatype Meta = Meta(key: Key, uid: nat, gid: nat, perm: nat, nlink: nat, size: nat, mtime: int, ctime: int)

  datatype Node =
    | Dir(meta: Meta, entries: map<string, Key>)
    | File(meta: Meta, bytes: string)
    | Link(meta: Meta, target: string)

  type FS = map<Key, Node>

  ghost predicate WellFormed(fs: FS) {
    forall k :: k in fs ==>
      && fs[k].meta.key == k
      && (fs[k].File? ==> fs[k].meta.size == |fs[k].bytes|)
      && (fs[k].Dir? ==> forall name :: name in fs[k].entries ==> fs[k].entries[name] in fs)
  }

  /** Every change of a node moves its change time forward. */
  ghost predicate EnvStep(fs: FS, fs': FS) {
    forall k :: k in fs ==> k in fs' && (fs'[k] == fs[k] || fs'[k].meta.ctime > fs[k].meta.ctime)
  }

  type Env = nat -> FS

  ghost predicate Lawful(env: Env) {
    && (forall t: nat :: WellFormed(env(t)))
    && forall t: nat :: EnvStep(env(t), env(t + 1))
  }

  /** One path component, without following a symbolic link. */
  function Lookup(fs: FS, dir: Key, name: string): Option<Key> {
    if dir in fs && fs[dir].Dir? && name in fs[dir].entries then Some(fs[dir].entries[name]) else None
  }

  /** The entry exists and may be opened without following a symbolic link. */
  predicate Opens(fs: FS, dir: Key, name: string, directory: bool) {
    var l := Lookup(fs, dir, name);
    l.Some? && l.value in fs && if directory then fs[l.value].Dir? else !fs[l.value].Link?
  }

  /** Walking by name from a directory, never following a symbolic link. */
  function Walk(fs: FS, from: Key, names: seq<string>): Option<Key>
    decreases |names|
  {
    if names == [] then Some(from) else
      var next := Lookup(fs, from, names[0]);
      if next.None? then None else Walk(fs, next.value, names[1..])
  }

  lemma OwnKey(env: Env, t: nat, k: Key)
    requires Lawful(env) && k in env(t)
    ensures env(t)[k].meta.key == k
  {
    assert WellFormed(env(t));
  }

  /** Change times only grow, and a node whose change time did not move is
      unchanged. */
  lemma {:induction false} Forward(env: Env, k: Key, t: nat, u: nat)
    requires Lawful(env) && t <= u && k in env(t)
    ensures k in env(u) && (env(u)[k] == env(t)[k] || env(u)[k].meta.ctime > env(t)[k].meta.ctime)
    decreases u - t
  {
    if t < u {
      Forward(env, k, t, u - 1);
      assert EnvStep(env(u - 1), env(u - 1 + 1));
    }
  }

  /** No intermediate change can be undone. */
  lemma Steady(env: Env, k: Key, t: nat, v: nat, u: nat)
    requires Lawful(env) && t <= v <= u && k in env(t)
    requires k in env(u) && env(u)[k].meta == env(t)[k].meta
    ensures k in env(v) && env(v)[k] == env(t)[k] && env(u)[k] == env(t)[k]
  {
    Forward(env, k, t, v);
    Forward(env, k, v, u);
    Forward(env, k, t, u);
  }

  /** Which calls fail, by time. */
  type Faults = nat -> bool

  /** From `from` up to `to` no call fails and nothing changes. */
  ghost predicate Quiet(env: Env, faults: Faults, from: nat, to: nat) {
    forall u: nat :: from <= u < to ==> !faults(u) && env(u) == env(from)
  }

  lemma {:induction false} WalkSnoc(fs: FS, from: Key, names: seq<string>, name: string)
    ensures Walk(fs, from, names + [name]) ==
            var d := Walk(fs, from, names);
            if d.None? then None else Lookup(fs, d.value, name)
    decreases |names|
  {
    var all := names + [name];
    if names == [] {
      assert all[1..] == [];
    } else {
      assert all[1..] == names[1..] + [name];
      var next := Lookup(fs, from, names[0]);
      if next.Some? { WalkSnoc(fs, next.value, names[1..], name); }
    }
  }

  /** A walk that arrives has met only directories before. */
  lemma {:induction false} WalkNeedsDirs(fs: FS, from: Key, names: seq<string>, j: nat)
    requires Walk(fs, from, names).Some? && j < |names|
    ensures var d := Walk(fs, from, names[..j]); d.Some? && d.value in fs && fs[d.value].Dir?
    decreases |names|
  {
    var next := Lookup(fs, from, names[0]);
    if j > 0 {
      WalkNeedsDirs(fs, next.value, names[1..], j - 1);
      assert names[..j][1..] == names[1..][..j - 1];
    }
  }

  /** The descriptor table of the controller process.  `faults(t)` makes the
      call at time t fail; `lengths(t)` is how
      much a read at time t returns. */
  class Kernel {
    const env: Env
    const root: Key
    const faults: Faults
    const lengths: nat -> nat
    var clock: nat
    var open: map<int, Key>
    var nextFd: nat

    ghost predicate Valid()
      reads this
    {
      && Lawful(env)
      && (forall t: nat :: root in env(t) && env(t)[root].Dir?)
      && forall fd :: fd in open ==> 0 <= fd < nextFd && open[fd] in env(clock)
    }

    constructor (env: Env, root: Key, faults: Faults, lengths: nat -> nat)
      requires Lawful(env) && forall t: nat :: root in env(t) && env(t)[root].Dir?
      ensures Valid() && open == map[]
      ensures this.env == env && this.root == root && this.faults == faults && this.lengths == lengths
    {
      this.env, this.root, this.faults, this.lengths := env, root, faults, lengths;
      clock, open, nextFd := 0, map[], 0;
    }

    lemma StillOpen(t: nat)
      requires Lawful(env) && t <= clock && forall fd :: fd in open ==> open[fd] in env(t)
      ensures forall fd :: fd in open ==> open[fd] in env(clock)
    {
      forall fd | fd in open ensures open[fd] in env(clock) { Forward(env, open[fd], t, clock); }
    }

    method Tick()
      requires Valid()
      modifies this`clock
      ensures Valid() && clock == old(clock) + 1
    {
      clock := clock + 1;
      StillOpen(clock - 1);
    }

    /** open("/") */
    method OpenRoot() returns (fd: int)
      requires Valid()
      modifies this
      ensures Valid() && clock == old(clock) + 1
      ensures fd < 0 <==> faults(old(clock))
      ensures fd < 0 ==> open == old(open)
      ensures fd >= 0 ==> fd !in old(open) && open == old(open)[fd := root]
    {
      var failed := faults(clock);
      Tick();
      if failed {
        return -1;
      }
      fd := nextFd;
      open := open[fd := root];
      nextFd := nextFd + 1;
    }

    /** open(name, O_NOFOLLOW [| O_DIRECTORY], dir_fd=parent) */
    method OpenAt(parent: int, name: string, directory: bool) returns (fd: int)
      requires Valid() && parent in open
      modifies this
      ensures Valid() && clock == old(clock) + 1
      ensures fd >= 0 <==> !faults(old(clock)) && Opens(env(old(clock)), old(open)[parent], name, directory)
      ensures fd < 0 ==> open == old(open)
      ensures fd >= 0 ==>
                && fd !in old(open)
                && open == old(open)[fd := Lookup(env(old(clock)), old(open)[parent], name).value]
    {
      var fs := env(clock);
      var failed := faults(clock);
      var l := Lookup(fs, open[parent], name);
      ghost var t := clock;
      assert WellFormed(env(t));
      Tick();
      if failed || l.None? || (if directory then !fs[l.value].Dir? else fs[l.value].Link?) {
        return -1;
      }
      Forward(env, l.value, t, clock);
      fd := nextFd;
      open := open[fd := l.value];
      nextFd := nextFd + 1;
    }

    method Fstat(fd: int) returns (node: Option<Node>)
      requires Valid() && fd in open
      modifies this`clock
      ensures Valid() && clock == old(clock) + 1
      ensures node == if faults(old(clock)) then None else Some(env(old(clock))[open[fd]])
    {
      node := if faults(clock) then None else Some(env(clock)[open[fd]]);
      Tick();
    }

    /** stat(name, dir_fd=fd, follow_symlinks=False) */
    method StatAt(fd: int, name: string) returns (node: Option<Node>)
      requires Valid() && fd in open
      modifies this`clock
      ensures Valid() && clock == old(clock) + 1
      ensures var fs := env(old(clock));
              var l := Lookup(fs, open[fd], name);
              && (l.Some? ==> l.value in fs)
              && node == if faults(old(clock)) || l.None? then None else Some(fs[l.value])
    {
      var l := Lookup(env(clock), open[fd], name);
      assert WellFormed(env(clock));
      node := if faults(clock) || l.None? then None else Some(env(clock)[l.value]);
      Tick();
    }

    /** read(fd, n) at offset pos: None on error, "" at end of file, otherwise a
        nonempty chunk of at most n bytes. */
    method Read(fd: int, pos: nat, n: nat) returns (chunk: Option<string>)
      requires Valid() && fd in open && n > 0
      modifies this`clock
      ensures Valid() && clock == old(clock) + 1
      ensures chunk.Some? ==>
                && env(old(clock))[open[fd]].File?
                && var bytes := env(old(clock))[open[fd]].bytes;
                && |chunk.value| <= n
                && (pos >= |bytes| ==> chunk.value == "")
                && (pos < |bytes| ==>
                      0 < |chunk.value| <= |bytes| - pos && chunk.value == bytes[pos..pos + |chunk.value|])
      ensures chunk.Some? <==> !faults(old(clock)) && env(old(clock))[open[fd]].File?
    {
      var node := env(clock)[open[fd]];
      if faults(clock) || !node.File? {
        chunk := None;
      } else if pos >= |node.bytes| {
        chunk := Some("");
      } else {
        var m := lengths(clock);
        m := if m == 0 then 1 else m;
        m := if m > n then n else m;
        m := if m > |node.bytes| - pos then |node.bytes| - pos else m;
        chunk := Some(node.bytes[pos..pos + m]);
      }
      Tick();
    }

    method Close(fd: int)
      requires Valid() && fd in open
      modifies this`open
      ensures Valid() && open == old(open) - {fd}
    {
      open := open - {fd};
    }

    /** Closing a list of open descriptors, last first; each exactly once. */
    method CloseAll(fds: seq<int>)
      requires Valid() && forall i :: 0 <= i < |fds| ==> fds[i] in open
      requires forall i, j :: 0 <= i < j < |fds| ==> fds[i] != fds[j]
      modifies this`open
      ensures Valid() && open == old(open) - Elements(fds)
    {
      var n := |fds|;
      while n > 0
        invariant 0 <= n <= |fds|
        invariant Valid() && open == old(open) - Elements(fds[n..])
      {
        n := n - 1;
        assert fds[n] in open;
        Close(fds[n]);
        assert fds[n..] == [fds[n]] + fds[n + 1..];
        assert Elements(fds[n..]) == {fds[n]} + Elements(fds[n + 1..]);
      }
      assert fds[0..] == fds;
    }
  }
}

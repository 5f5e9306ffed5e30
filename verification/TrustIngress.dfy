/** The transfer of reviewed trust files from pinned descriptors
    (plugins/action/platform_pki_trust_ingress.py). */
module TrustIngress {
  import opened Text
  import opened Patterns
  import opened Filesystem
  import opened PinnedSource
  import opened Pinning

  const TRUST_NAMES: seq<string> :=
    ["approvers.allowed_signers", "policy", "requesters.allowed_signers", "responses.allowed_signers"]
  const MAX_TRUST_SIZE := 65536

  /** One source: the components of its absolute path and its digest. */
  datatype Source = Source(components: seq<string>, digest: string)

  /** The syntax checks before pinning: a canonical digest and the basename of
      the mapping key. */
  predicate Acceptable(name: string, s: Source) {
    IsHex(s.digest, 64) && s.components != [] && s.components[|s.components| - 1] == name
  }

  /** The names, the size bound and the syntax test, spelled out. */
  lemma AcceptableExactly(name: string, s: Source)
    ensures TRUST_NAMES ==
            ["approvers.allowed_signers", "policy", "requesters.allowed_signers", "responses.allowed_signers"]
    ensures MAX_TRUST_SIZE == 64 * 1024
    ensures Acceptable(name, s) <==>
            && |s.digest| == 64 && Over(s.digest, HEX_DIGITS)
            && |s.components| > 0 && s.components == s.components[..|s.components| - 1] + [name]
  {
    HexExactly(s.digest, 64);
    hide IsHex, Over, HEX_DIGITS;
    if |s.components| > 0 {
      var last := |s.components| - 1;
      assert s.components == s.components[..last] + [s.components[last]];
    }
  }

  /** What the remote side answers to copy i. */
  datatype Copy = Raised | Refused | Done(changed: bool)

  datatype Outcome =
    | NotAcceptable
    | NotPinned(reason: Failure)
    | NotDistinct
    | Changed
    | NoTemporaryPath
    | CopyRaised
    | CopyRefused
    | Transferred(changed: bool)

  /** A destination written: its name and its bytes. */
  datatype Delivery = Delivery(name: string, data: string)

  // ------------------------------------------------------- descriptor algebra

  function Fds(p: Pinned): seq<int> {
    p.dirs + [p.file]
  }

  function AllFds(pins: seq<Pinned>): seq<int> {
    if pins == [] then [] else Fds(pins[0]) + AllFds(pins[1..])
  }

  lemma {:induction false} AllFdsAppend(a: seq<Pinned>, b: seq<Pinned>)
    ensures AllFds(a + b) == AllFds(a) + AllFds(b)
  {
    if a == [] {
      assert a + b == b;
    } else {
      assert (a + b)[1..] == a[1..] + b;
      AllFdsAppend(a[1..], b);
    }
  }

  lemma GrownCompose(a: Table, b: Table, c: Table, x: seq<int>, y: seq<int>)
    requires Grown(a, b, x) && Grown(b, c, y)
    ensures Grown(a, c, x + y)
  {
    var all := x + y;
    assert Elements(all) == Elements(x) + Elements(y);
    forall i, j | 0 <= i < j < |all| ensures all[i] != all[j] {
      if i < |x| <= j {
        assert all[i] in Elements(x) && all[j] in Elements(y);
      } else if j < |x| {
        assert all[i] == x[i] && all[j] == x[j];
      } else {
        assert all[i] == y[i - |x|] && all[j] == y[j - |x|];
      }
    }
  }

  lemma GrownDrop(a: Table, c: Table, x: seq<int>, y: seq<int>)
    requires Grown(a, c, x + y)
    ensures Grown(a, c - Elements(x), y)
    ensures forall fd :: fd in Elements(y) ==> fd in c && fd !in Elements(x)
  {
    var all := x + y;
    assert Elements(all) == Elements(x) + Elements(y);
    forall fd | fd in Elements(y) ensures fd !in Elements(x) {
      var j :| 0 <= j < |y| && y[j] == fd;
      assert all[|x| + j] == fd;
      assert forall i :: 0 <= i < |x| ==> x[i] == all[i];
    }
    assert forall i :: 0 <= i < |y| ==> y[i] == all[|x| + i];
  }

  ghost predicate AllHeld(now: Table, pins: seq<Pinned>) {
    forall i :: 0 <= i < |pins| ==> Held(now, pins[i])
  }

  lemma HeldKept(before: Table, now: Table, p: Pinned)
    requires Held(before, p) && forall fd :: fd in Elements(Fds(p)) ==> fd in now && now[fd] == before[fd]
    ensures Held(now, p)
  {
    var fds := Fds(p);
    assert forall i :: 0 <= i < |p.dirs| ==> p.dirs[i] == fds[i] && fds[i] in Elements(fds);
    assert p.file == fds[|p.dirs|];
  }

  lemma {:induction false} FdsOfMember(pins: seq<Pinned>, i: nat)
    requires i < |pins|
    ensures Elements(Fds(pins[i])) <= Elements(AllFds(pins))
  {
    var all := AllFds(pins);
    assert all == Fds(pins[0]) + AllFds(pins[1..]);
    if i > 0 {
      FdsOfMember(pins[1..], i - 1);
    }
  }

  // -------------------------------------------------------------------- steps

  /** What the whole transfer asks of a filesystem that does not change. */
  predicate SourcePinnable(fs: FS, root: Key, name: string, s: Source, policy: Policy) {
    Acceptable(name, s) && Pinnable(fs, root, s.components, s.digest, MAX_TRUST_SIZE, policy)
  }

  predicate AllPinnable(fs: FS, root: Key, sources: seq<Source>, policy: Policy)
    requires |sources| == |TRUST_NAMES|
  {
    forall i :: 0 <= i < |sources| ==> SourcePinnable(fs, root, TRUST_NAMES[i], sources[i], policy)
  }

  /** Every copy succeeds. */
  predicate AllCopied(copies: nat -> Copy) {
    forall i :: 0 <= i < |TRUST_NAMES| ==> copies(i).Done?
  }

  /** Some copy changed its destination. */
  predicate AnyChanged(copies: nat -> Copy) {
    exists i :: 0 <= i < |TRUST_NAMES| && copies(i) == Done(true)
  }

  /** A pin of this source: its path, its digest, and a file held with exactly
      these bytes at some time since `from`. */
  ghost predicate PinOf(env: Env, from: nat, to: nat, root: Key, now: Table, s: Source, policy: Policy, p: Pinned) {
    && Held(now, p) && now[p.dirs[0]] == root
    && p.components == s.components && policy.hash(p.data) == s.digest
    && exists t: nat :: from <= t < to && p.snapshot.key in env(t) && env(t)[p.snapshot.key] == File(p.snapshot, p.data)
  }

  ghost predicate AllPinned(env: Env, from: nat, to: nat, root: Key, now: Table, sources: seq<Source>, policy: Policy,
                            pins: seq<Pinned>)
  {
    |pins| <= |sources| && forall i :: 0 <= i < |pins| ==> PinOf(env, from, to, root, now, sources[i], policy, pins[i])
  }

  ghost predicate AllSettled(fs: FS, root: Key, now: Table, pins: seq<Pinned>) {
    forall i :: 0 <= i < |pins| ==> Settled(fs, root, now, pins[i])
  }

  lemma AllPinnedHeld(env: Env, from: nat, to: nat, root: Key, now: Table, sources: seq<Source>, policy: Policy,
                      pins: seq<Pinned>)
    requires AllPinned(env, from, to, root, now, sources, policy, pins)
    ensures AllHeld(now, pins)
  {
    hide Held;
  }

  /** Pin every source in the fixed order; stop at the first refusal. */
  method PinAll(k: Kernel, sources: seq<Source>, policy: Policy) returns (pins: seq<Pinned>, failure: Option<Outcome>)
    requires k.Valid() && |sources| == |TRUST_NAMES|
    modifies k
    ensures k.Valid() && k.clock >= old(k.clock)
    ensures AllPinned(k.env, old(k.clock), k.clock, k.root, k.open, sources, policy, pins)
    ensures failure.None? ==> |pins| == |sources| && AllAcceptable(sources)
    ensures failure.Some? ==> failure.value == NotAcceptable || failure.value.NotPinned?
    ensures failure != Some(NotPinned(AncestorNotSafe)) ==> Grown(old(k.open), k.open, AllFds(pins))
    ensures failure == Some(NotPinned(AncestorNotSafe)) ==> exists fd :: Grown(old(k.open), k.open, AllFds(pins) + [fd])
    ensures Quiet(k.env, k.faults, old(k.clock), k.clock) ==>
              var fs := k.env(old(k.clock));
              && (failure.None? <==> AllPinnable(fs, k.root, sources, policy))
              && AllSettled(fs, k.root, k.open, pins)
  {
    hide Grown, Held, Fresh, Acceptable, Settled, Pinnable, Quiet, Lawful, Inspected, PrivateFile, PinOf;
    pins := [];
    ghost var start, from := k.open, k.clock;
    GrownNone(start);
    for i := 0 to |sources|
      invariant k.Valid() && k.clock >= from && |pins| == i && Grown(start, k.open, AllFds(pins))
      invariant AllPinned(k.env, from, k.clock, k.root, k.open, sources, policy, pins)
      invariant forall j :: 0 <= j < i ==> Acceptable(TRUST_NAMES[j], sources[j])
      invariant Quiet(k.env, k.faults, from, k.clock) ==>
                  && (forall j :: 0 <= j < i ==>
                        SourcePinnable(k.env(from), k.root, TRUST_NAMES[j], sources[j], policy))
                  && AllSettled(k.env(from), k.root, k.open, pins)
    {
      if !Acceptable(TRUST_NAMES[i], sources[i]) {
        return pins, Some(NotAcceptable);
      }
      AcceptableNonempty(TRUST_NAMES[i], sources[i]);
      ghost var table, now := k.open, k.clock;
      var r := Pin(k, sources[i].components, sources[i].digest, MAX_TRUST_SIZE, policy);
      QuietSplit(k.env, k.faults, from, now, k.clock);
      if r.PinFailed? {
        if r.reason == AncestorNotSafe {
          ghost var fd :| Grown(table, k.open, [fd]);
          GrownCompose(start, table, k.open, AllFds(pins), [fd]);
          KeepPinned(k, from, now, table, [fd], sources, policy, pins);
        } else {
          GrownNone(table);
          KeepPinned(k, from, now, table, [], sources, policy, pins);
        }
        return pins, Some(NotPinned(r.reason));
      }
      KeepPinned(k, from, now, table, Fds(r.pinned), sources, policy, pins);
      NewPin(k, from, sources[i], policy, r.pinned);
      GrownCompose(start, table, k.open, AllFds(pins), Fds(r.pinned));
      AllFdsAppend(pins, [r.pinned]);
      OneFds(r.pinned);
      pins := pins + [r.pinned];
    }
    failure := None;
  }

  lemma NewPin(k: Kernel, from: nat, s: Source, policy: Policy, p: Pinned)
    requires Fresh(k, p) && k.open[p.dirs[0]] == k.root && p.components == s.components
    requires policy.hash(p.data) == s.digest && from <= k.clock - 2 * |p.components| - 1
    ensures PinOf(k.env, from, k.clock, k.root, k.open, s, policy, p)
  {
  }

  /** Pins survive further openings. */
  lemma KeepPinned(k: Kernel, from: nat, now: nat, table: Table, fds: seq<int>, sources: seq<Source>, policy: Policy,
                   pins: seq<Pinned>)
    requires Grown(table, k.open, fds) && now <= k.clock
    requires AllPinned(k.env, from, now, k.root, table, sources, policy, pins)
    ensures AllPinned(k.env, from, k.clock, k.root, k.open, sources, policy, pins)
    ensures forall fs :: AllSettled(fs, k.root, table, pins) ==> AllSettled(fs, k.root, k.open, pins)
  {
    AllPinnedHeld(k.env, from, now, k.root, table, sources, policy, pins);
    forall i | 0 <= i < |pins|
      ensures PinOf(k.env, from, k.clock, k.root, k.open, sources[i], policy, pins[i])
      ensures ChainKeys(k.open, pins[i]) == ChainKeys(table, pins[i])
    {
      assert PinOf(k.env, from, now, k.root, table, sources[i], policy, pins[i]);
      GrownHeld(table, k.open, fds, pins[i]);
    }
    hide StaticChain, Walk;
  }

  lemma GrownSame(table: Table, now: Table, fds: seq<int>, fd: int)
    requires Grown(table, now, fds) && fd in table
    ensures fd in now && now[fd] == table[fd]
  {
    hide Elements, Distinct;
  }

  lemma GrownHeld(table: Table, now: Table, fds: seq<int>, p: Pinned)
    requires Grown(table, now, fds) && Held(table, p)
    ensures Held(now, p) && ChainKeys(now, p) == ChainKeys(table, p) && now[p.dirs[0]] == table[p.dirs[0]]
  {
    forall i | 0 <= i < |p.dirs| ensures p.dirs[i] in now && now[p.dirs[i]] == table[p.dirs[i]] {
      GrownSame(table, now, fds, p.dirs[i]);
    }
    GrownSame(table, now, fds, p.file);
    hide Grown;
    assert KeysOf(now, p.dirs) == KeysOf(table, p.dirs);
  }

  lemma AcceptableNonempty(name: string, s: Source)
    requires Acceptable(name, s)
    ensures s.components != []
  {
  }

  lemma OneFds(p: Pinned)
    ensures AllFds([p]) == Fds(p)
  {
    assert [p][1..] == [];
  }

  /** A successful recheck of p started at time t. */
  ghost predicate RecheckedAt(env: Env, faults: Faults, now: Table, t: int, p: Pinned) {
    t >= 0 && Held(now, p) && Observed(env, faults, t, ChainKeys(now, p), p.components, p.snapshot)
  }

  function Span(p: Pinned): nat {
    2 * |p.components|
  }

  /** A successful recheck of p began at or after `from` and is over by `to`. */
  ghost predicate RecheckedSince(env: Env, faults: Faults, now: Table, from: nat, to: nat, p: Pinned) {
    exists t: nat :: from <= t && t + Span(p) <= to && RecheckedAt(env, faults, now, t, p)
  }

  /** The path still leads through the pinned directories to the pinned file. */
  ghost predicate InPlace(fs: FS, now: Table, p: Pinned) {
    Held(now, p) && StaticChain(fs, ChainKeys(now, p), p.components, p.snapshot)
  }

  ghost predicate AllInPlace(fs: FS, now: Table, pins: seq<Pinned>) {
    forall i :: 0 <= i < |pins| ==> InPlace(fs, now, pins[i])
  }

  /** One recheck of a held pin. */
  method RecheckPin(k: Kernel, p: Pinned) returns (ok: bool)
    requires k.Valid() && Held(k.open, p)
    modifies k`clock
    ensures k.Valid() && k.clock > old(k.clock)
    ensures ok ==> k.clock == old(k.clock) + Span(p) && RecheckedAt(k.env, k.faults, k.open, old(k.clock), p)
    ensures Quiet(k.env, k.faults, old(k.clock), k.clock) ==> (ok <==> InPlace(k.env(old(k.clock)), k.open, p))
  {
    hide Held, Observed, StaticChain, Quiet;
    ok := Recheck(k, p);
  }

  /** `for source in pinned.values(): source.recheck()` */
  method RecheckAll(k: Kernel, pins: seq<Pinned>) returns (ok: bool)
    requires k.Valid() && AllHeld(k.open, pins)
    modifies k`clock
    ensures k.Valid() && k.clock >= old(k.clock) + (if pins == [] then 0 else 1)
    ensures ok ==> forall i :: 0 <= i < |pins| ==>
              RecheckedSince(k.env, k.faults, k.open, old(k.clock), k.clock, pins[i])
    ensures Quiet(k.env, k.faults, old(k.clock), k.clock) && AllInPlace(k.env(old(k.clock)), k.open, pins) ==> ok
  {
    hide Held, RecheckedAt, InPlace, Quiet, Lawful;
    var t0 := k.clock;
    for i := 0 to |pins|
      invariant k.Valid() && AllHeld(k.open, pins) && k.clock >= t0 + (if i == 0 then 0 else 1)
      invariant forall j :: 0 <= j < i ==> RecheckedSince(k.env, k.faults, k.open, t0, k.clock, pins[j])
    {
      ghost var t := k.clock;
      ok := RecheckPin(k, pins[i]);
      QuietSplit(k.env, k.faults, t0, t, k.clock);
      if !ok {
        return;
      }
    }
    ok := true;
  }

  /** One name: recheck, copy, recheck.  `at` is when the copy starts. */
  method TransferOne(k: Kernel, name: string, p: Pinned, copy: Copy)
    returns (stop: Option<Outcome>, sent: Option<Delivery>, ghost at: nat)
    requires k.Valid() && Held(k.open, p)
    modifies k`clock
    ensures k.Valid() && k.clock > old(k.clock)
    ensures sent.Some? ==>
              && copy.Done? && sent.value == Delivery(name, p.data)
              && at == old(k.clock) + Span(p) && at < k.clock && RecheckedAt(k.env, k.faults, k.open, old(k.clock), p)
    ensures stop.None? ==> sent.Some? && k.clock == at + Span(p) && RecheckedAt(k.env, k.faults, k.open, at, p)
    ensures stop.Some? ==>
              || stop.value == Changed
              || (stop.value == CopyRaised && copy == Raised && sent.None?)
              || (stop.value == CopyRefused && copy == Refused && sent.None?)
    ensures Quiet(k.env, k.faults, old(k.clock), k.clock) && InPlace(k.env(old(k.clock)), k.open, p) ==>
              (stop.None? <==> copy.Done?)
  {
    hide Held, RecheckedAt, InPlace, Quiet, Lawful;
    ghost var t := k.clock;
    at := t;
    sent := None;
    var ok := RecheckPin(k, p);
    if !ok {
      return Some(Changed), sent, at;
    }
    at := k.clock;
    match copy {
      case Raised => return Some(CopyRaised), sent, at;
      case Refused => return Some(CopyRefused), sent, at;
      case Done(_) => sent := Some(Delivery(name, p.data));
    }
    ok := RecheckPin(k, p);
    QuietSplit(k.env, k.faults, t, at, k.clock);
    stop := if ok then None else Some(Changed);
  }

  /** The deliveries so far: a prefix of the fixed order, each between a
      successful recheck that ends at its time and, if the loop went on, one
      that starts at its time. */
  ghost predicate SentInOrder(env: Env, faults: Faults, now: Table, from: nat, to: nat, pins: seq<Pinned>,
                              copies: nat -> Copy, delivered: seq<Delivery>, times: seq<nat>)
  {
    && |delivered| == |times| <= |pins| == |TRUST_NAMES|
    && forall i :: 0 <= i < |delivered| ==>
         && copies(i).Done? && delivered[i] == Delivery(TRUST_NAMES[i], pins[i].data)
         && from <= times[i] - Span(pins[i]) && times[i] <= to
         && RecheckedAt(env, faults, now, times[i] - Span(pins[i]), pins[i])
         && (i > 0 ==> times[i - 1] + Span(pins[i - 1]) <= times[i] - Span(pins[i]))
  }

  ghost predicate RecheckedAfter(env: Env, faults: Faults, now: Table, pins: seq<Pinned>, times: seq<nat>, n: nat)
    requires n <= |times| <= |pins|
  {
    forall i :: 0 <= i < n ==> RecheckedAt(env, faults, now, times[i], pins[i])
  }

  /** The transfer loop: recheck, copy, recheck, for each name in order, then
      recheck everything.  `times` are when the copies start. */
  method TransferAll(k: Kernel, pins: seq<Pinned>, copies: nat -> Copy)
    returns (outcome: Outcome, delivered: seq<Delivery>, ghost times: seq<nat>)
    requires k.Valid() && AllHeld(k.open, pins) && |pins| == |TRUST_NAMES|
    modifies k`clock
    ensures k.Valid() && k.clock > old(k.clock)
    ensures SentInOrder(k.env, k.faults, k.open, old(k.clock), k.clock, pins, copies, delivered, times)
    ensures RecheckedAfter(k.env, k.faults, k.open, pins, times,
                           if outcome.Transferred? || delivered == [] then |times| else |times| - 1)
    ensures outcome.Transferred? ==>
              && |delivered| == |pins| && (outcome.changed <==> exists i :: 0 <= i < |pins| && copies(i) == Done(true))
              && forall i :: 0 <= i < |pins| ==>
                   RecheckedSince(k.env, k.faults, k.open, times[|pins| - 1], k.clock, pins[i])
    ensures !outcome.Transferred? ==>
              || outcome == Changed
              || (outcome == CopyRaised && |delivered| < |pins| && copies(|delivered|) == Raised)
              || (outcome == CopyRefused && |delivered| < |pins| && copies(|delivered|) == Refused)
    ensures Quiet(k.env, k.faults, old(k.clock), k.clock) && AllInPlace(k.env(old(k.clock)), k.open, pins) ==>
              (outcome.Transferred? <==> forall i :: 0 <= i < |pins| ==> copies(i).Done?)
  {
    hide Held, RecheckedAt, InPlace, Quiet, Lawful, TRUST_NAMES, SentInOrder;
    delivered, times := [], [];
    var changed := false;
    ghost var t0 := k.clock;
    NothingSent(k.env, k.faults, k.open, t0, pins, copies);
    for i := 0 to |pins|
      invariant k.Valid() && AllHeld(k.open, pins) && |delivered| == |times| == i && k.clock >= t0 + i
      invariant SentInOrder(k.env, k.faults, k.open, t0, k.clock, pins, copies, delivered, times)
      invariant i > 0 ==> times[i - 1] + Span(pins[i - 1]) == k.clock
      invariant RecheckedAfter(k.env, k.faults, k.open, pins, times, i)
      invariant changed <==> exists j :: 0 <= j < i && copies(j) == Done(true)
      invariant forall j :: 0 <= j < i ==> copies(j).Done?
    {
      ghost var t := k.clock;
      var stop, sent;
      ghost var at;
      stop, sent, at := TransferOne(k, TRUST_NAMES[i], pins[i], copies(i));
      QuietSplit(k.env, k.faults, t0, t, k.clock);
      SentMore(k.env, k.faults, k.open, t0, t, k.clock, pins, copies, delivered, times, sent, at);
      if sent.Some? {
        delivered, times := delivered + [sent.value], times + [at];
        changed := changed || copies(i).changed;
      }
      if stop.Some? {
        return stop.value, delivered, times;
      }
    }
    ghost var t := k.clock;
    var all := RecheckAll(k, pins);
    SentMore(k.env, k.faults, k.open, t0, t, k.clock, pins, copies, delivered, times, None, 0);
    QuietSplit(k.env, k.faults, t0, t, k.clock);
    outcome := if all then Transferred(changed) else Changed;
  }

  lemma NothingSent(env: Env, faults: Faults, now: Table, t: nat, pins: seq<Pinned>, copies: nat -> Copy)
    requires |pins| == |TRUST_NAMES|
    ensures SentInOrder(env, faults, now, t, t, pins, copies, [], []) && |pins| > 0
  {
  }

  /** Time passes from t to u, perhaps with one more delivery. */
  lemma SentMore(env: Env, faults: Faults, now: Table, from: nat, t: nat, u: nat, pins: seq<Pinned>,
                 copies: nat -> Copy, delivered: seq<Delivery>, times: seq<nat>, sent: Option<Delivery>, at: nat)
    requires SentInOrder(env, faults, now, from, t, pins, copies, delivered, times) && from <= t <= u
    requires var i := |delivered|;
             sent.Some? ==>
               && i < |pins| && copies(i).Done? && sent.value == Delivery(TRUST_NAMES[i], pins[i].data)
               && at == t + Span(pins[i]) <= u && RecheckedAt(env, faults, now, t, pins[i])
               && (i > 0 ==> times[i - 1] + Span(pins[i - 1]) <= t)
    ensures SentInOrder(env, faults, now, from, u, pins, copies, delivered, times)
    ensures sent.Some? ==> SentInOrder(env, faults, now, from, u, pins, copies, delivered + [sent.value], times + [at])
    ensures |delivered| == |times|
  {
    hide RecheckedAt, TRUST_NAMES;
  }

  /** The finally clause: every returned pin is closed, each exactly once. */
  method ClosePins(k: Kernel, pins: seq<Pinned>, ghost start: Table, ghost rest: seq<int>)
    requires k.Valid() && AllHeld(k.open, pins) && Grown(start, k.open, AllFds(pins) + rest)
    modifies k`open
    ensures k.Valid() && Grown(start, k.open, rest)
  {
    hide Grown, Held;
    assert pins[0..] == pins;
    for i := 0 to |pins|
      invariant k.Valid() && AllHeld(k.open, pins[i..]) && Grown(start, k.open, AllFds(pins[i..]) + rest)
    {
      ghost var table := k.open;
      ghost var more := AllFds(pins[i + 1..]) + rest;
      assert pins[i..] == [pins[i]] + pins[i + 1..];
      AllFdsAppend([pins[i]], pins[i + 1..]);
      OneFds(pins[i]);
      assert AllFds(pins[i..]) + rest == Fds(pins[i]) + more;
      GrownDrop(start, table, Fds(pins[i]), more);
      assert Held(k.open, pins[i..][0]);
      ClosePinned(k, pins[i]);
      OthersHeld(table, k.open, pins[i..], Elements(Fds(pins[i])), rest);
    }
    assert pins[|pins|..] == [] && AllFds([]) + rest == rest;
  }

  lemma OthersHeld(table: Table, now: Table, pins: seq<Pinned>, closed: set<int>, rest: seq<int>)
    requires pins != [] && AllHeld(table, pins) && now == table - closed
    requires forall fd :: fd in Elements(AllFds(pins[1..]) + rest) ==> fd in table && fd !in closed
    ensures AllHeld(now, pins[1..])
  {
    hide Held;
    var tail := pins[1..];
    forall i | 0 <= i < |tail| ensures Held(now, tail[i]) {
      FdsOfMember(tail, i);
      assert Held(table, pins[i + 1]);
      forall fd | fd in Elements(Fds(tail[i])) ensures fd in now && now[fd] == table[fd] {
        assert fd in Elements(AllFds(tail));
        assert fd in AllFds(tail) + rest;
        assert fd in Elements(AllFds(tail) + rest);
      }
      HeldKept(table, now, tail[i]);
    }
  }

  predicate AllAcceptable(sources: seq<Source>)
    requires |sources| == |TRUST_NAMES|
  {
    forall i :: 0 <= i < |sources| ==> Acceptable(TRUST_NAMES[i], sources[i])
  }

  /** Paths that end in the four names are distinct, so the later test for
      distinct paths never refuses. */
  lemma AcceptableDistinct(sources: seq<Source>)
    requires |sources| == |TRUST_NAMES| && AllAcceptable(sources)
    ensures DistinctPaths(sources)
  {
    forall i, j | 0 <= i < j < |sources| ensures sources[i].components != sources[j].components {
      assert Acceptable(TRUST_NAMES[i], sources[i]) && Acceptable(TRUST_NAMES[j], sources[j]);
      NamesDiffer(i, j);
    }
  }

  lemma NamesDiffer(i: nat, j: nat)
    requires i < j < |TRUST_NAMES|
    ensures TRUST_NAMES[i] != TRUST_NAMES[j]
  {
    assert TRUST_NAMES[0][0] == 'a' && TRUST_NAMES[1][0] == 'p';
    assert TRUST_NAMES[2][2] == 'q' && TRUST_NAMES[3][2] == 's';
  }

  predicate DistinctPaths(sources: seq<Source>) {
    forall i, j :: 0 <= i < j < |sources| ==> sources[i].components != sources[j].components
  }

  /** Just before time `to`, a recheck along the path from the root saw the
      file, and it held these bytes. */
  ghost predicate Vouched(env: Env, faults: Faults, root: Key, from: nat, to: nat, components: seq<string>,
                          data: string)
  {
    exists t: nat, keys: seq<Key>, snapshot: Meta ::
      && from <= t && t + 2 * |components| <= to
      && Observed(env, faults, t, keys, components, snapshot) && keys[0] == root
      && snapshot.key in env(t + 2 * |components| - 1)
      && env(t + 2 * |components| - 1)[snapshot.key] == File(snapshot, data)
  }

  /** What was delivered: for each name of a prefix of the fixed order, bytes
      with the digest of that name, vouched for by a recheck of its own path. */
  ghost predicate Delivered(k: Kernel, from: nat, to: nat, sources: seq<Source>, policy: Policy, copies: nat -> Copy,
                            delivered: seq<Delivery>)
  {
    && |delivered| <= |TRUST_NAMES| == |sources|
    && forall i :: 0 <= i < |delivered| ==>
         && copies(i).Done? && delivered[i].name == TRUST_NAMES[i]
         && policy.hash(delivered[i].data) == sources[i].digest
         && Vouched(k.env, k.faults, k.root, from, to, sources[i].components, delivered[i].data)
  }

  /** The delivered bytes are those of the files. */
  ghost predicate DeliversFiles(fs: FS, root: Key, sources: seq<Source>, delivered: seq<Delivery>) {
    |delivered| == |sources| && forall i :: 0 <= i < |sources| ==>
      var f := Walk(fs, root, sources[i].components);
      f.Some? && f.value in fs && fs[f.value].File? && fs[f.value].bytes == delivered[i].data
  }

  lemma VouchedBy(env: Env, faults: Faults, root: Key, from: nat, to: nat, components: seq<string>, data: string,
                  t: nat, keys: seq<Key>, snapshot: Meta)
    requires from <= t && t + 2 * |components| <= to
    requires Observed(env, faults, t, keys, components, snapshot) && keys[0] == root
    requires var u := t + 2 * |components| - 1; snapshot.key in env(u) && env(u)[snapshot.key] == File(snapshot, data)
    ensures Vouched(env, faults, root, from, to, components, data)
  {
    hide Linked, FilePasses;
  }

  lemma PinVouches(k: Kernel, from: nat, pinned: nat, to: nat, s: Source, policy: Policy, p: Pinned, t: nat)
    requires Lawful(k.env) && from <= pinned <= t && t + Span(p) <= to
    requires PinOf(k.env, from, pinned, k.root, k.open, s, policy, p) && RecheckedAt(k.env, k.faults, k.open, t, p)
    ensures Vouched(k.env, k.faults, k.root, from, to, s.components, p.data)
  {
    hide Lawful, Observed, Distinct, Vouched;
    var key := p.snapshot.key;
    var t0: nat :| from <= t0 < pinned && key in k.env(t0) && k.env(t0)[key] == File(p.snapshot, p.data);
    var keys := ChainKeys(k.open, p);
    RecheckedBytes(k.env, k.faults, t0, p.data, t, keys, p.components, p.snapshot);
    assert keys[0] == k.open[p.dirs[0]] == k.root;
    VouchedBy(k.env, k.faults, k.root, from, to, s.components, p.data, t, keys, p.snapshot);
  }

  lemma SentIsDelivered(k: Kernel, from: nat, pinned: nat, to: nat, sources: seq<Source>, policy: Policy,
                        pins: seq<Pinned>, copies: nat -> Copy, delivered: seq<Delivery>, times: seq<nat>)
    requires Lawful(k.env) && from <= pinned && |pins| == |sources|
    requires AllPinned(k.env, from, pinned, k.root, k.open, sources, policy, pins)
    requires SentInOrder(k.env, k.faults, k.open, pinned, to, pins, copies, delivered, times)
    ensures Delivered(k, from, to, sources, policy, copies, delivered)
  {
    hide Vouched, RecheckedAt, Lawful, TRUST_NAMES;
    forall i | 0 <= i < |delivered|
      ensures policy.hash(pins[i].data) == sources[i].digest
      ensures Vouched(k.env, k.faults, k.root, from, to, sources[i].components, pins[i].data)
    {
      PinVouches(k, from, pinned, to, sources[i], policy, pins[i], times[i] - Span(pins[i]));
    }
  }

  lemma SettledDelivers(k: Kernel, fs: FS, from: nat, pinned: nat, sources: seq<Source>, policy: Policy,
                        pins: seq<Pinned>, delivered: seq<Delivery>)
    requires AllPinned(k.env, from, pinned, k.root, k.open, sources, policy, pins) && |pins| == |sources| == |delivered|
    requires AllSettled(fs, k.root, k.open, pins) && forall i :: 0 <= i < |pins| ==> delivered[i].data == pins[i].data
    ensures DeliversFiles(fs, k.root, sources, delivered)
  {
    forall i | 0 <= i < |sources|
      ensures Walk(fs, k.root, sources[i].components) == Some(pins[i].snapshot.key)
      ensures pins[i].snapshot.key in fs && fs[pins[i].snapshot.key] == File(pins[i].snapshot, delivered[i].data)
    {
      assert Settled(fs, k.root, k.open, pins[i]);
      assert PinOf(k.env, from, pinned, k.root, k.open, sources[i], policy, pins[i]);
    }
  }

  /** The try block once every source is pinned. */
  method TransferPinned(k: Kernel, sources: seq<Source>, pins: seq<Pinned>, policy: Policy, temporaryPath: bool,
                        copies: nat -> Copy, ghost from: nat) returns (outcome: Outcome, delivered: seq<Delivery>)
    requires k.Valid() && |pins| == |sources| == |TRUST_NAMES| && from <= k.clock
    requires AllPinned(k.env, from, k.clock, k.root, k.open, sources, policy, pins)
    requires Quiet(k.env, k.faults, from, k.clock) ==> AllSettled(k.env(from), k.root, k.open, pins)
    modifies k`clock
    ensures k.Valid() && k.clock >= old(k.clock) && !outcome.NotPinned? && outcome != NotAcceptable
    ensures outcome == NotDistinct <==> !DistinctPaths(sources)
    ensures Delivered(k, from, k.clock, sources, policy, copies, delivered)
    ensures outcome.Transferred? ==> |delivered| == |TRUST_NAMES| && (outcome.changed <==> AnyChanged(copies))
    ensures Quiet(k.env, k.faults, from, k.clock) ==>
              && (outcome.Transferred? <==> DistinctPaths(sources) && temporaryPath && AllCopied(copies))
              && (outcome.Transferred? ==> DeliversFiles(k.env(from), k.root, sources, delivered))
  {
    assert pins != [];
    hide TRUST_NAMES, DistinctPaths, RecheckedSince, Held, Quiet, Settled, PinOf, StaticChain, Lawful, Vouched,
      RecheckedAt, SentInOrder, AllSettled, AllInPlace;
    delivered := [];
    ghost var t0 := k.clock;
    AllPinnedHeld(k.env, from, t0, k.root, k.open, sources, policy, pins);
    if !DistinctPaths(sources) {
      outcome := NotDistinct;
      return;
    }
    SettledInPlace(k, from, pins);
    var ok := RecheckAll(k, pins);
    ghost var t1 := k.clock;
    QuietSplit(k.env, k.faults, from, t0, t1);
    if !ok {
      outcome := Changed;
    } else if !temporaryPath {
      outcome := NoTemporaryPath;
    } else {
      ghost var times;
      outcome, delivered, times := TransferAll(k, pins, copies);
      QuietSplit(k.env, k.faults, from, t1, k.clock);
      QuietSplit(k.env, k.faults, from, t0, k.clock);
      SentEarlier(k.env, k.faults, k.open, t0, t1, k.clock, pins, copies, delivered, times);
      SentIsDelivered(k, from, t0, k.clock, sources, policy, pins, copies, delivered, times);
      if outcome.Transferred? && Quiet(k.env, k.faults, from, k.clock) {
        SettledDelivers(k, k.env(from), from, t0, sources, policy, pins, delivered);
      }
    }
  }

  lemma SettledInPlace(k: Kernel, from: nat, pins: seq<Pinned>)
    ensures AllSettled(k.env(from), k.root, k.open, pins) ==> AllInPlace(k.env(from), k.open, pins)
  {
    hide Held, StaticChain, Walk;
  }

  lemma SentEarlier(env: Env, faults: Faults, now: Table, from: nat, t: nat, to: nat, pins: seq<Pinned>,
                    copies: nat -> Copy, delivered: seq<Delivery>, times: seq<nat>)
    requires SentInOrder(env, faults, now, t, to, pins, copies, delivered, times) && from <= t
    ensures SentInOrder(env, faults, now, from, to, pins, copies, delivered, times)
    ensures |delivered| <= |pins| && forall i :: 0 <= i < |delivered| ==> delivered[i].data == pins[i].data
  {
    hide RecheckedAt, TRUST_NAMES;
  }

  /** Pin everything, then transfer; the pins are still held. */
  method PinAndTransfer(k: Kernel, sources: seq<Source>, policy: Policy, temporaryPath: bool, copies: nat -> Copy)
    returns (outcome: Outcome, delivered: seq<Delivery>, pins: seq<Pinned>)
    requires k.Valid() && |sources| == |TRUST_NAMES|
    modifies k
    ensures k.Valid() && k.clock >= old(k.clock) && AllHeld(k.open, pins)
    ensures outcome != NotPinned(AncestorNotSafe) ==> Grown(old(k.open), k.open, AllFds(pins))
    ensures outcome == NotPinned(AncestorNotSafe) ==> exists fd :: Grown(old(k.open), k.open, AllFds(pins) + [fd])
    ensures outcome != NotDistinct && Delivered(k, old(k.clock), k.clock, sources, policy, copies, delivered)
    ensures outcome.Transferred? ==> |delivered| == |TRUST_NAMES| && (outcome.changed <==> AnyChanged(copies))
    ensures Quiet(k.env, k.faults, old(k.clock), k.clock) ==>
              var fs := k.env(old(k.clock));
              && (outcome.Transferred? <==>
                    AllPinnable(fs, k.root, sources, policy) && temporaryPath && AllCopied(copies))
              && (outcome.Transferred? ==> DeliversFiles(fs, k.root, sources, delivered))
  {
    ghost var from := k.clock;
    hide *;
    delivered := [];
    var failure;
    pins, failure := PinAll(k, sources, policy);
    AllPinnedHeld(k.env, from, k.clock, k.root, k.open, sources, policy, pins);
    if failure.Some? {
      outcome := failure.value;
      NothingDelivered(k, from, k.clock, sources, policy, copies);
    } else {
      ghost var t := k.clock;
      AcceptableDistinct(sources);
      outcome, delivered := TransferPinned(k, sources, pins, policy, temporaryPath, copies, from);
      QuietSplit(k.env, k.faults, from, t, k.clock);
    }
  }

  /** ActionModule.run() after its argument checks: on every path all pins are
      closed, what was delivered is right, and in a quiet filesystem the
      transfer succeeds exactly when all four sources are pinnable. */
  method Run(k: Kernel, sources: seq<Source>, policy: Policy, temporaryPath: bool, copies: nat -> Copy)
    returns (outcome: Outcome, delivered: seq<Delivery>)
    requires k.Valid() && |sources| == |TRUST_NAMES|
    modifies k
    ensures k.Valid() && k.clock >= old(k.clock)
    // Descriptors: as before, but for the one a failed pin lost.
    ensures outcome != NotPinned(AncestorNotSafe) ==> k.open == old(k.open)
    ensures outcome == NotPinned(AncestorNotSafe) ==> exists fd :: Grown(old(k.open), k.open, [fd])
    // Deliveries: a prefix of the fixed order, each from vouched data with its digest.
    ensures outcome != NotDistinct && Delivered(k, old(k.clock), k.clock, sources, policy, copies, delivered)
    // Status "transferred": all four, and changed is the disjunction.
    ensures outcome.Transferred? ==> |delivered| == |TRUST_NAMES| && (outcome.changed <==> AnyChanged(copies))
    // A quiet filesystem: exactly when, and exactly what.
    ensures Quiet(k.env, k.faults, old(k.clock), k.clock) ==>
              var fs := k.env(old(k.clock));
              && (outcome.Transferred? <==>
                    AllPinnable(fs, k.root, sources, policy) && temporaryPath && AllCopied(copies))
              && (outcome.Transferred? ==> DeliversFiles(fs, k.root, sources, delivered))
  {
    ghost var start := k.open;
    hide Grown, TRUST_NAMES, DistinctPaths, Quiet, AllPinnable, AllCopied, AnyChanged, Lawful, DeliversFiles,
      Delivered, AllHeld;
    var pins;
    outcome, delivered, pins := PinAndTransfer(k, sources, policy, temporaryPath, copies);
    if outcome == NotPinned(AncestorNotSafe) {
      ghost var fd :| Grown(start, k.open, AllFds(pins) + [fd]);
      ClosePins(k, pins, start, [fd]);
    } else {
      assert AllFds(pins) + [] == AllFds(pins);
      ClosePins(k, pins, start, []);
      GrownNothing(start, k.open);
    }
  }

  lemma NothingDelivered(k: Kernel, from: nat, to: nat, sources: seq<Source>, policy: Policy, copies: nat -> Copy)
    requires |sources| == |TRUST_NAMES|
    ensures Delivered(k, from, to, sources, policy, copies, [])
  {
  }

  lemma GrownNothing(before: Table, now: Table)
    requires Grown(before, now, [])
    ensures now == before
  {
    assert now.Keys == before.Keys;
    assert forall fd :: fd in now ==> now[fd] == before[fd];
  }
}

/** Publication and application of plans through plan files: `write_plan`,
    `read_plan` and both `prepare` operations, and whole runs of them. */
module PlanStore {
  import opened Text
  import opened Patterns
  import opened CanonicalJson
  import J = Json
  import opened A = ActivationPlan
  import F = FailoverPlan
  import V = FailoverVerdict

  /** Plan files by path.  Contents are the decoded text; what the writer writes
      is ASCII. */
  type Files = map<string, string>

  /** How far a write came: all of it, or cut after some bytes by an error. */
  datatype Write = Complete | CutAt(n: nat)

  /** What the operating system answers: the random identifiers, whether the
      destination and the file pass their ownership and mode checks, and how
      the write goes. */
  datatype Io = Io(planId: string, nonce: string, safeTarget: bool, trustedFile: bool, write: Write)

  function PlanText(plan: Value): string {
    Canonical(plan) + "\n"
  }

  function Reached(data: string, w: Write): string {
    if w.Complete? || w.n >= |data| then data else data[..w.n]
  }

  /** Exclusive creation: an existing path is never opened for writing. */
  predicate Writable(files: Files, path: string, plan: Value, io: Io) {
    io.safeTarget && |PlanText(plan)| <= MAX_BYTES && path !in files
  }

  function AfterWrite(files: Files, path: string, plan: Value, io: Io): Files {
    if Writable(files, path, plan, io) then files[path := Reached(PlanText(plan), io.write)] else files
  }

  function ReadPlan(files: Files, path: string, io: Io): Option<Value> {
    if !io.trustedFile || path !in files || |files[path]| > MAX_BYTES then None else Loads(files[path])
  }

  // -------------------------------------------------------------- requests

  datatype Request =
    | Activation(operation: string, mode: string, path: string, hosts: seq<string>, context: Value,
                 evidence: Value, now: int)
    | Failover(mode: string, path: string, hosts: seq<string>, context: Value, owner: Value,
               evidence: Value, retained: Option<Value>, now: int)

  function NewFailoverPlan(h: Hash, r: Request, io: Io): Value
    requires r.Failover?
  {
    var m := Unsigned(F.OPERATION, io.planId, r.now, r.hosts, r.context, r.evidence)
      ["owner" := r.owner]["service" := Str("haproxy.service")]["nonce" := Str(io.nonce)];
    Dict(m["digest" := Str(Digest(h, m))])
  }

  /** The plan a request would create. */
  function PlanOf(h: Hash, r: Request, io: Io): Value {
    match r
    case Activation(operation, _, _, hosts, context, evidence, now) =>
      NewPlan(h, operation, io.planId, now, hosts, context, evidence)
    case Failover(_, _, _, _, _, _, _, _) => NewFailoverPlan(h, r, io)
  }

  /** Guards of `prepare` before any file is touched. */
  function Guard(r: Request): Option<Reason> {
    match r
    case Activation(operation, mode, path, hosts, _, evidence, _) =>
      if || (operation != "haproxy" && operation != "keepalived")
         || (mode != "plan" && mode != "interactive" && mode != "ci") then
        Some(UnsupportedRequest)
      else if !Bindable(hosts, evidence) then Some(BadHostsOrEvidence)
      else if mode == "ci" && path == "" then Some(MissingArtifact)
      else if mode == "plan" && path == "" then Some(MissingOutputPath)
      else None
    case Failover(mode, path, _, _, _, _, retained, _) =>
      if mode == "recover" then (if path != "" || retained.None? then Some(MissingArtifact) else None)
      else if mode == "test" then (if path == "" || retained.Some? then Some(MissingArtifact) else None)
      else if mode != "plan" || path == "" || retained.Some? then Some(MissingOutputPath)
      else None
  }

  predicate Publishes(h: Hash, r: Request, io: Io) {
    Guard(r).None? && r.mode == "plan" && (r.Failover? ==> V.ValidShape(h, PlanOf(h, r, io)))
  }

  /** Applying a plan that was read or retained. */
  function Apply(h: Hash, r: Request, plan: Value): Outcome<Value> {
    match r
    case Activation(operation, _, _, hosts, context, evidence, now) =>
      A.Validate(h, plan, operation, hosts, context, evidence, now)
    case Failover(mode, _, hosts, context, owner, evidence, _, now) =>
      V.Validate(h, plan, mode, hosts, context, owner, evidence, now)
  }

  predicate AppliesFile(r: Request) {
    Guard(r).None? && r.mode != "plan" && r.path != ""
  }

  function PrepareOutcome(h: Hash, files: Files, r: Request, io: Io): Outcome<Value> {
    if Guard(r).Some? then Refused(Guard(r).value)
    else if AppliesFile(r) then
      var plan := ReadPlan(files, r.path, io);
      if plan.None? then Refused(UnreadableFile) else Apply(h, r, plan.value)
    else if r.Failover? && r.mode == "recover" then Apply(h, r, r.retained.value)
    else if r.mode != "plan" then Accepted(PlanOf(h, r, io))
    else if !Publishes(h, r, io) then Refused(InvalidShape)
    else if Writable(files, r.path, PlanOf(h, r, io), io) && io.write.Complete? then Accepted(PlanOf(h, r, io))
    else Refused(NotPublished)
  }

  function PrepareFiles(h: Hash, files: Files, r: Request, io: Io): Files {
    if Publishes(h, r, io) then AfterWrite(files, r.path, PlanOf(h, r, io), io) else files
  }

  /** The plan files of one operator. */
  class Store {
    var files: Files

    constructor ()
      ensures files == map[]
    {
      files := map[];
    }

    method WritePlan(path: string, plan: Value, io: Io) returns (ok: bool)
      modifies this
      ensures files == AfterWrite(old(files), path, plan, io)
      ensures ok <==> Writable(old(files), path, plan, io) && io.write.Complete?
      ensures forall p :: p in old(files) ==> p in files && files[p] == old(files)[p]
      ensures ok ==> path in files && Loads(files[path]) == Some(plan)
    {
      hide Loads, Canonical;
      var data := Canonical(plan) + "\n";
      if !io.safeTarget || |data| > MAX_BYTES || path in files {
        return false;
      }
      files := files[path := Reached(data, io.write)];
      ok := io.write.Complete?;
      if ok {
        LoadsCanonical(plan, "\n");
      }
    }

    /** What reading a plan file means: it succeeds exactly for a trusted, bounded
        file that is one JSON document without repeated keys; and a file left by
        the publication of a plan, complete or cut, reads as that plan or not at
        all. */
    method Read(path: string, io: Io) returns (r: Option<Value>)
      ensures r == ReadPlan(files, path, io)
      ensures r.Some? <==>
              && io.trustedFile && path in files && |files[path]| <= MAX_BYTES
              && J.Parse(files[path]).Some? && NoDuplicates(J.Parse(files[path]).value)
      ensures forall plan: Value, w: Write ::
                plan.Dict? && |PlanText(plan)| <= MAX_BYTES && io.trustedFile && path in files
                && files[path] == Reached(PlanText(plan), w) ==>
                r == if w.CutAt? && w.n < |Canonical(plan)| then None else Some(plan)
    {
      hide Loads, Canonical, J.Parse, NoDuplicates, Reached, PlanText;
      ReadMeaning(files, path, io);
      forall plan: Value, w: Write |
        plan.Dict? && |PlanText(plan)| <= MAX_BYTES && io.trustedFile && path in files
        && files[path] == Reached(PlanText(plan), w)
        ensures ReadPlan(files, path, io) == if w.CutAt? && w.n < |Canonical(plan)| then None else Some(plan)
      {
        ReadPublished(files, path, io, plan, w);
      }
      if !io.trustedFile || path !in files {
        return None;
      }
      var data := files[path];
      if |data| > MAX_BYTES {
        return None;
      }
      r := Loads(data);
    }

    method Prepare(h: Hash, r: Request, io: Io) returns (outcome: Outcome<Value>)
      modifies this
      ensures outcome == PrepareOutcome(h, old(files), r, io)
      ensures files == PrepareFiles(h, old(files), r, io)
      ensures forall p :: p in old(files) ==> p in files && files[p] == old(files)[p]
    {
      var guard := Guard(r);
      if guard.Some? {
        return Refused(guard.value);
      }
      if r.mode != "plan" && r.path != "" {
        var plan := Read(r.path, io);
        if plan.None? {
          return Refused(UnreadableFile);
        }
        return Apply(h, r, plan.value);
      }
      if r.Failover? && r.mode == "recover" {
        return Apply(h, r, r.retained.value);
      }
      var plan := PlanOf(h, r, io);
      if r.mode == "plan" {
        if r.Failover? && !V.ValidShape(h, plan) {
          return Refused(InvalidShape);
        }
        var ok := WritePlan(r.path, plan, io);
        if !ok {
          return Refused(NotPublished);
        }
      }
      outcome := Accepted(plan);
    }
  }

  // ---------------------------------------- which requests are accepted

  /** The file at the path is readable and holds this plan. */
  predicate FileHolds(files: Files, path: string, io: Io, plan: Value) {
    && io.trustedFile && path in files && |files[path]| <= 262144 && Loads(files[path]) == Some(plan)
  }

  /** The plan can be and is written whole to a new path. */
  predicate PublishedWhole(files: Files, path: string, io: Io, plan: Value) {
    && io.safeTarget && |Canonical(plan)| + 1 <= 262144 && path !in files && io.write == Complete
  }

  /** Every accepted activation, mode by mode: only an interactive one may go
      without a file, and then it creates its plan on the spot. */
  lemma ActivationExactly(h: Hash, files: Files, operation: string, mode: string, path: string, hosts: seq<string>,
                          context: Value, evidence: Value, now: int, io: Io, plan: Value)
    ensures var r := Activation(operation, mode, path, hosts, context, evidence, now);
            PrepareOutcome(h, files, r, io) == Accepted(plan) <==>
            && (operation == "haproxy" || operation == "keepalived")
            && |hosts| == 3 && Before(hosts[0], hosts[1]) && Before(hosts[1], hosts[2])
            && evidence.Dict? && |evidence.members| > 0
            && (|| (&& mode == "plan" && path != "" && PublishedWhole(files, path, io, plan)
                    && plan == NewPlan(h, operation, io.planId, now, hosts, context, evidence))
                || (&& mode == "interactive" && path == ""
                    && plan == NewPlan(h, operation, io.planId, now, hosts, context, evidence))
                || (&& (mode == "interactive" || mode == "ci") && path != "" && FileHolds(files, path, io, plan)
                    && A.Validate(h, plan, operation, hosts, context, evidence, now).Accepted?))
  {
    BindableExactly(hosts, evidence);
    hide Bindable, Before, NewPlan, A.Validate, Loads, Canonical;
    forall p ensures A.Validate(h, p, operation, hosts, context, evidence, now).Accepted? ==>
                     A.Validate(h, p, operation, hosts, context, evidence, now).value == p
    {
      AcceptedIsPlan(h, Activation(operation, mode, path, hosts, context, evidence, now), p);
    }
  }

  /** Every accepted failover request, mode by mode: a test always reads the
      reviewed file, a recovery always validates the retained plan. */
  lemma FailoverExactly(h: Hash, files: Files, mode: string, path: string, hosts: seq<string>, context: Value,
                        owner: Value, evidence: Value, retained: Option<Value>, now: int, io: Io, plan: Value)
    ensures var r := Failover(mode, path, hosts, context, owner, evidence, retained, now);
            PrepareOutcome(h, files, r, io) == Accepted(plan) <==>
            || (&& mode == "plan" && path != "" && retained == None && plan == NewFailoverPlan(h, r, io)
                && V.ValidShape(h, plan) && PublishedWhole(files, path, io, plan))
            || (&& mode == "test" && path != "" && retained == None && FileHolds(files, path, io, plan)
                && V.Validate(h, plan, "test", hosts, context, owner, evidence, now).Accepted?)
            || (&& mode == "recover" && path == "" && retained == Some(plan)
                && V.Validate(h, plan, "recover", hosts, context, owner, evidence, now).Accepted?)
  {
    hide NewFailoverPlan, V.Validate, V.ValidShape, Loads, Canonical, A.Validate, Bindable;
    var r := Failover(mode, path, hosts, context, owner, evidence, retained, now);
    if mode == "plan" {
      var outcome := PrepareOutcome(h, files, r, io);
      assert outcome.Accepted? ==> outcome.value == NewFailoverPlan(h, r, io);
    } else if mode == "test" {
      if ReadPlan(files, path, io).Some? { AcceptedIsPlan(h, r, ReadPlan(files, path, io).value); }
    } else if mode == "recover" {
      if retained.Some? { AcceptedIsPlan(h, r, retained.value); }
    }
  }

  /** What a run of `prepare` does to the files: only a plan request that passes
      every test adds its path, with the text of its plan up to where the write
      was cut. */
  lemma FilesExactly(h: Hash, files: Files, r: Request, io: Io)
    ensures var text := Canonical(PlanOf(h, r, io)) + "\n";
            PrepareFiles(h, files, r, io) ==
            if && r.mode == "plan" && r.path != "" && io.safeTarget && |text| <= 262144 && r.path !in files
               && (if r.Failover? then r.retained == None && V.ValidShape(h, PlanOf(h, r, io))
                   else && (r.operation == "haproxy" || r.operation == "keepalived")
                        && |r.hosts| == 3 && Before(r.hosts[0], r.hosts[1]) && Before(r.hosts[1], r.hosts[2])
                        && r.evidence.Dict? && |r.evidence.members| > 0)
            then files[r.path := if io.write.CutAt? && io.write.n < |text| then text[..io.write.n] else text]
            else files
  {
    if r.Activation? { BindableExactly(r.hosts, r.evidence); }
    hide Bindable, Before, PlanOf, V.ValidShape, Canonical;
  }

  // --------------------------------------------------- publish, then apply

  /** A published plan is on disk exactly as it was signed. */
  lemma PublishedReadsBack(h: Hash, files: Files, r: Request, io: Io, later: Io)
    requires r.mode == "plan" && PrepareOutcome(h, files, r, io).Accepted? && later.trustedFile
    ensures ReadPlan(PrepareFiles(h, files, r, io), r.path, later) == Some(PlanOf(h, r, io))
  {
    LoadsCanonical(PlanOf(h, r, io), "\n");
  }

  predicate SameFile(a: Files, b: Files, path: string) {
    path in a && path in b && a[path] == b[path]
  }

  /** Through encoding, digest and validation: with the file, the hosts, the
      context and the evidence unchanged, a later application returns exactly
      the published plan if and only if it happens in the 1800 seconds from
      publication. */
  lemma PublishThenActivate(h: Hash, files: Files, r: Request, io: Io, files': Files, mode: string, now: int, io': Io)
    requires r.Activation? && r.mode == "plan" && IsHex(io.planId, 32)
    requires PrepareOutcome(h, files, r, io).Accepted?
    requires SameFile(PrepareFiles(h, files, r, io), files', r.path) && io'.trustedFile
    requires mode == "interactive" || mode == "ci"
    ensures var later := Activation(r.operation, mode, r.path, r.hosts, r.context, r.evidence, now);
            PrepareOutcome(h, files', later, io') ==
            (if r.now <= now < r.now + 1800 then Accepted(PlanOf(h, r, io)) else Refused(StaleOrOtherOperation))
  {
    hide NewPlan, A.Validate, Bindable, Loads, Canonical;
    PublishedReadsBack(h, files, r, io, io');
    NewPlanWindow(h, r.operation, io.planId, r.now, r.hosts, r.context, r.evidence, now);
  }

  /** The three extra fields change no common field. */
  lemma FailoverExtras(u: Fields, owner: Value, service: Value, nonce: Value)
    requires u.Keys == UNSIGNED_KEYS && !("owner" in u || "service" in u || "nonce" in u || "digest" in u)
    ensures var m := u["owner" := owner]["service" := service]["nonce" := nonce];
            && m.Keys == UNSIGNED_KEYS + {"owner", "service", "nonce"} && "digest" !in m
            && m["owner"] == owner && m["service"] == service && m["nonce"] == nonce
            && (forall k :: k in u ==> m[k] == u[k])
  {
    hide UNSIGNED_KEYS;
    NewField(u, "owner", owner);
    NewField(u["owner" := owner], "service", service);
    NewField(u["owner" := owner]["service" := service], "nonce", nonce);
  }

  lemma NewField(u: Fields, key: string, value: Value)
    ensures var m := u[key := value];
            m.Keys == u.Keys + {key} && m[key] == value && forall k :: k in u && k != key ==> m[k] == u[k]
  {
  }

  lemma FailoverPlanFields(h: Hash, r: Request, io: Io)
    requires r.Failover?
    ensures NewFailoverPlan(h, r, io).Dict?
    ensures var m := NewFailoverPlan(h, r, io).members;
            && m.Keys == F.FAILOVER_KEYS && m["digest"] == Str(Digest(h, m))
            && m["schema"] == Int(1) && m["operation"] == Str(F.OPERATION) && m["service"] == Str("haproxy.service")
            && m["plan_id"] == Str(io.planId) && m["nonce"] == Str(io.nonce)
            && m["created"] == Int(r.now) && m["expires"] == Int(r.now + 1800) && m["hosts"] == HostsValue(r.hosts)
            && m["context"] == r.context && m["evidence"] == r.evidence && m["owner"] == r.owner
  {
    hide HostsValue, Digest, Unsigned;
    var u := Unsigned(F.OPERATION, io.planId, r.now, r.hosts, r.context, r.evidence);
    UnsignedFields(F.OPERATION, io.planId, r.now, r.hosts, r.context, r.evidence);
    var m := u["owner" := r.owner]["service" := Str("haproxy.service")]["nonce" := Str(io.nonce)];
    FailoverExtras(u, r.owner, Str("haproxy.service"), Str(io.nonce));
    SignedFields(h, m);
  }

  /** A well-formed new failover plan authorises a test by its own owner, hosts,
      context and evidence exactly in its window. */
  lemma NewFailoverWindow(h: Hash, r: Request, io: Io, now: int)
    requires r.Failover? && V.ValidShape(h, NewFailoverPlan(h, r, io))
    ensures var plan := NewFailoverPlan(h, r, io);
            V.Validate(h, plan, "test", r.hosts, r.context, r.owner, r.evidence, now).Accepted? <==>
            r.now <= now < r.now + 1800
  {
    FailoverPlanFields(h, r, io);
    var plan := NewFailoverPlan(h, r, io);
    hide NewFailoverPlan, HostsValue, V.Validate, F.ValidContext, V.ValidBaseline, V.ValidHeader, Digest, Canonical;
    V.RecoverExactly(h, plan, r.hosts, r.context, r.owner, r.evidence, now);
    V.TestIsRecoverPlus(h, plan, r.hosts, r.context, r.owner, r.evidence, now);
  }

  /** The same for a failover test, where the owner must be unchanged too. */
  lemma PublishThenTest(h: Hash, files: Files, r: Request, io: Io, files': Files, now: int, io': Io)
    requires r.Failover? && r.mode == "plan"
    requires PrepareOutcome(h, files, r, io).Accepted?
    requires SameFile(PrepareFiles(h, files, r, io), files', r.path) && io'.trustedFile
    ensures var later := Failover("test", r.path, r.hosts, r.context, r.owner, r.evidence, None, now);
            var outcome := PrepareOutcome(h, files', later, io');
            && (outcome == Accepted(PlanOf(h, r, io)) <==> r.now <= now < r.now + 1800)
            && (outcome.Accepted? <==> r.now <= now < r.now + 1800)
  {
    hide PrepareOutcome, PrepareFiles, NewFailoverPlan, Loads, V.Validate, V.ValidShape;
    var plan := PlanOf(h, r, io);
    var later := Failover("test", r.path, r.hosts, r.context, r.owner, r.evidence, None, now);
    PublishedShape(h, files, r, io);
    PublishedReadsBack(h, files, r, io, io');
    NewFailoverWindow(h, r, io, now);
    FileApplied(h, files', later, io', plan);
    AcceptedIsPlan(h, later, plan);
  }

  /** From job to job: a plan published by the plan job of a prefix of 1 to 102
      characters is accepted by the test job of that prefix, with everything
      else unchanged, exactly during the 1800 seconds from publication. */
  lemma PlanJobThenTestJob(h: Hash, files: Files, r: Request, io: Io, files': Files, now: int, io': Io,
                           source: Source, environment: string, prefix: string, env: Env, c: Context)
    requires "CI" in env && Get(env, "CI_JOB_MANUAL") == "true" && 1 <= |prefix| <= 102
    requires F.FailoverContext(source, environment, "plan", F.JobEnv(env, prefix, "plan")) == Accepted(c)
    requires r.Failover? && r.mode == "plan" && r.context == ContextValue(c)
    requires PrepareOutcome(h, files, r, io).Accepted?
    requires SameFile(PrepareFiles(h, files, r, io), files', r.path) && io'.trustedFile
    ensures var now' := F.FailoverContext(source, environment, "test", F.JobEnv(env, prefix, "test"));
            && now' == Accepted(c)
            && var later := Failover("test", r.path, r.hosts, ContextValue(now'.value), r.owner, r.evidence, None, now);
            && var outcome := PrepareOutcome(h, files', later, io');
            && (outcome == Accepted(PlanOf(h, r, io)) <==> r.now <= now < r.now + 1800)
            && (outcome.Accepted? <==> r.now <= now < r.now + 1800)
  {
    hide F.FailoverContext, F.JobEnv, PrepareOutcome, PrepareFiles, ContextValue;
    F.ContextsAgree(source, environment, prefix, env);
    PublishThenTest(h, files, r, io, files', now, io');
  }

  /** A prefix of 103 to 106 characters: its plan job has a context and publishes
      any well-formed plan, and no job of that prefix can ever test or recover. */
  lemma LongPrefixNeverTested(h: Hash, files: Files, r: Request, io: Io, source: Source, environment: string,
                              prefix: string, env: Env)
    requires F.SourceIdentity(source) && 1 <= |environment| <= 64 && Over(environment, NAME_CHARS)
    requires ProtectedEnv(source, env) && Over(prefix, NAME_CHARS) && 103 <= |prefix| <= 106
    requires r.Failover? && r.mode == "plan" && r.path != "" && r.retained.None? && r.now >= 0
    requires IsHex(io.planId, 32) && IsHex(io.nonce, 32) && io.safeTarget && io.write.Complete?
    requires V.ValidHosts(r.hosts) && r.owner in HostsValue(r.hosts).elems
    requires r.evidence.Dict? && r.evidence.members != map[] && r.path !in files
    requires |PlanText(NewFailoverPlan(h, r, io))| <= MAX_BYTES
    ensures var c := F.FailoverContext(source, environment, "plan", F.JobEnv(env, prefix, "plan"));
            c.Accepted? && (r.context == ContextValue(c.value) ==>
                              PrepareOutcome(h, files, r, io) == Accepted(NewFailoverPlan(h, r, io)))
    ensures F.FailoverContext(source, environment, "test", F.JobEnv(env, prefix, "test")).Refused?
    ensures F.FailoverContext(source, environment, "recover", F.JobEnv(env, prefix, "recover")).Refused?
    ensures F.FailoverContext(source, environment, "recover", F.JobEnv(env, prefix, "test")).Refused?
  {
    hide F.FailoverContext, F.ValidContext, ContextValue, NewFailoverPlan, V.ValidHosts, HostsValue, PrepareOutcome,
      F.SourceIdentity, NAME_CHARS, Over, PipelineVariables, IdentityVariables;
    assert "CI" in env by { ProtectedParts(source, env); }
    F.PlanJobAccepted(source, environment, prefix, env);
    F.LongJobRefused(source, environment, "test", "test", prefix, env);
    F.LongJobRefused(source, environment, "recover", "recover", prefix, env);
    F.LongJobRefused(source, environment, "recover", "test", prefix, env);
    var c := F.FailoverContext(source, environment, "plan", F.JobEnv(env, prefix, "plan"));
    F.AcceptedContextValid(source, environment, "plan", F.JobEnv(env, prefix, "plan"));
    if r.context == ContextValue(c.value) {
      WellFormedPlan(h, r, io);
      ShapedPlanPublished(h, files, r, io);
    }
  }

  lemma ShapedPlanPublished(h: Hash, files: Files, r: Request, io: Io)
    requires r.Failover? && r.mode == "plan" && r.path != "" && r.retained.None?
    requires V.ValidShape(h, NewFailoverPlan(h, r, io))
    requires Writable(files, r.path, NewFailoverPlan(h, r, io), io) && io.write.Complete?
    ensures PrepareOutcome(h, files, r, io) == Accepted(NewFailoverPlan(h, r, io))
  {
    hide V.ValidShape, NewFailoverPlan, Writable, Apply;
  }

  /** A request with valid parts makes a well-formed plan. */
  lemma WellFormedPlan(h: Hash, r: Request, io: Io)
    requires r.Failover? && r.now >= 0 && IsHex(io.planId, 32) && IsHex(io.nonce, 32)
    requires V.ValidHosts(r.hosts) && r.owner in HostsValue(r.hosts).elems
    requires r.evidence.Dict? && r.evidence.members != map[] && F.ValidContext(r.context)
    requires |PlanText(NewFailoverPlan(h, r, io))| <= MAX_BYTES
    ensures V.ValidShape(h, NewFailoverPlan(h, r, io))
  {
    hide NewFailoverPlan, F.ValidContext, Digest, Canonical, HostsValue, IsHex, V.ValidHosts;
    FailoverPlanFields(h, r, io);
    V.NamesOfHosts(r.hosts);
  }

  lemma PublishedShape(h: Hash, files: Files, r: Request, io: Io)
    requires r.Failover? && r.mode == "plan" && PrepareOutcome(h, files, r, io).Accepted?
    ensures Guard(r).None? && V.ValidShape(h, NewFailoverPlan(h, r, io))
  {
    hide V.ValidShape, NewFailoverPlan, Canonical, Loads, V.Validate, A.Validate;
  }

  lemma FileApplied(h: Hash, files: Files, r: Request, io: Io, plan: Value)
    requires AppliesFile(r) && ReadPlan(files, r.path, io) == Some(plan)
    ensures PrepareOutcome(h, files, r, io) == Apply(h, r, plan)
  {
    hide Apply, PlanOf, Loads;
  }

  /** Application returns the plan it was given, never another one. */
  lemma AcceptedIsPlan(h: Hash, r: Request, plan: Value)
    ensures Apply(h, r, plan).Accepted? ==> Apply(h, r, plan).value == plan
  {
    hide V.ValidShape, F.ValidContext, Canonical, Digest, HostsValue, IsHex;
  }

  /** Recovery gives the same answer at every point of every run: it depends
      neither on the files nor on time, owner, evidence or pipeline. */
  lemma RecoverAtAnyPoint(h: Hash, files: Files, r: Request, io: Io, files': Files, r': Request, io': Io)
    requires r.Failover? && r'.Failover? && r.mode == r'.mode == "recover" && r.path == r'.path == ""
    requires r.hosts == r'.hosts && r.retained == r'.retained
    requires F.ValidContext(r.context) && F.ValidContext(r'.context) && V.SameButPipeline(r.context, r'.context)
    ensures PrepareOutcome(h, files, r, io) == PrepareOutcome(h, files', r', io')
    ensures PrepareFiles(h, files, r, io) == files && PrepareFiles(h, files', r', io') == files'
  {
    hide V.Validate, F.ValidContext, V.SameButPipeline, V.ValidShape, PlanOf;
    if r.retained.Some? {
      V.RecoverIndependent(h, r.retained.value, r.hosts, r.context, r.owner, r.evidence, r.now,
                           r'.context, r'.owner, r'.evidence, r'.now);
    }
  }

  // ------------------------------------------------------------ whole runs

  datatype Event = Event(request: Request, io: Io)

  function Run(h: Hash, files: Files, events: seq<Event>): Files {
    if events == [] then files else
      var before := Run(h, files, events[..|events| - 1]);
      var e := events[|events| - 1];
      PrepareFiles(h, before, e.request, e.io)
  }

  lemma RunSnoc(h: Hash, files: Files, events: seq<Event>, n: nat)
    requires n < |events|
    ensures Run(h, files, events[..n + 1]) ==
            PrepareFiles(h, Run(h, files, events[..n]), events[n].request, events[n].io)
  {
    assert events[..n + 1][..n] == events[..n];
  }

  /** Which files the reader accepts. */
  lemma ReadMeaning(files: Files, path: string, io: Io)
    ensures ReadPlan(files, path, io).Some? <==>
            && io.trustedFile && path in files && |files[path]| <= MAX_BYTES
            && J.Parse(files[path]).Some? && NoDuplicates(J.Parse(files[path]).value)
  {
    hide J.Parse, NoDuplicates, FromDoc;
    if path in files && J.Parse(files[path]).Some? {
      HookRejectsDuplicates(J.Parse(files[path]).value);
    }
  }

  /** What the reader makes of a published file, whole or cut. */
  lemma ReadPublished(files: Files, path: string, io: Io, plan: Value, w: Write)
    requires plan.Dict? && |PlanText(plan)| <= MAX_BYTES && io.trustedFile && path in files
    requires files[path] == Reached(PlanText(plan), w)
    ensures ReadPlan(files, path, io) == if w.CutAt? && w.n < |Canonical(plan)| then None else Some(plan)
  {
    hide Loads, Canonical;
    CutPublication(plan, w);
  }

  /** From its first publication on, a path never changes. */
  lemma {:induction false} PathNeverChanges(h: Hash, files: Files, events: seq<Event>, i: nat, j: nat, path: string)
    requires i <= j <= |events| && path in Run(h, files, events[..i])
    ensures path in Run(h, files, events[..j])
    ensures Run(h, files, events[..j])[path] == Run(h, files, events[..i])[path]
    decreases j - i
  {
    if i < j {
      RunSnoc(h, files, events, i);
      hide PlanOf, Canonical, V.ValidShape, Guard;
      PathNeverChanges(h, files, events, i + 1, j, path);
    }
  }

  /** The event that created a path: an exclusive publication of its plan. */
  predicate Creates(h: Hash, files: Files, events: seq<Event>, i: nat, path: string)
    requires i < |events|
  {
    var e := events[i];
    && Publishes(h, e.request, e.io) && e.request.path == path
    && Writable(Run(h, files, events[..i]), path, PlanOf(h, e.request, e.io), e.io)
  }

  lemma {:induction false} CreatorExists(h: Hash, events: seq<Event>, j: nat, path: string) returns (i: nat)
    requires j <= |events| && path in Run(h, map[], events[..j])
    ensures i < j && Creates(h, map[], events, i, path)
    ensures var e := events[i];
            Run(h, map[], events[..j])[path] == Reached(PlanText(PlanOf(h, e.request, e.io)), e.io.write)
  {
    hide PlanOf, Canonical, Publishes, PlanText;
    assert Run(h, map[], events[..0]) == map[];
    RunSnoc(h, map[], events, j - 1);
    if path in Run(h, map[], events[..j - 1]) {
      i := CreatorExists(h, events, j - 1, path);
    } else {
      i := j - 1;
    }
  }

  /** A file left by a publication reads as its plan or not at all, whatever the
      byte at which the write was cut. */
  lemma CutPublication(plan: Value, w: Write)
    requires plan.Dict?
    ensures Loads(Reached(PlanText(plan), w)) ==
            (if w.CutAt? && w.n < |Canonical(plan)| then None else Some(plan))
  {
    var data := PlanText(plan);
    if w.CutAt? && w.n < |data| {
      CutFile(plan, w.n);
    } else {
      CutFile(plan, |data|);
      assert data[..|data|] == data;
    }
  }

  /** A request that may only go ahead on a reviewed plan file: a failover test,
      a CI activation, or an interactive activation that names a file. */
  predicate NeedsReviewedFile(r: Request) {
    if r.Failover? then r.mode == "test" else r.mode == "ci" || (r.mode == "interactive" && r.path != "")
  }

  /** Event i is the plan request that put the first file at this path. */
  predicate FirstPublished(h: Hash, events: seq<Event>, i: nat, path: string) {
    && i < |events| && events[i].request.mode == "plan" && events[i].request.path == path
    && path !in Run(h, map[], events[..i]) && path in Run(h, map[], events[..i + 1])
  }

  lemma ReviewedFileNeeded(h: Hash, files: Files, r: Request, io: Io)
    requires NeedsReviewedFile(r) && PrepareOutcome(h, files, r, io).Accepted?
    ensures r.path != "" && AppliesFile(r)
  {
    hide Bindable, NewPlan, A.Validate, V.Validate, V.ValidShape, Loads, Canonical;
  }

  lemma CreatesFirst(h: Hash, events: seq<Event>, i: nat, path: string)
    requires i < |events| && Creates(h, map[], events, i, path)
    ensures FirstPublished(h, events, i, path)
  {
    hide PlanOf, Canonical, V.ValidShape, Run;
    RunSnoc(h, map[], events, i);
  }

  /** In every run from an empty store, an accepted request that needs a reviewed
      file names one, and returns the plan of the first publication to that path,
      which had reached its closing brace. */
  lemma AppliedPlanWasPublished(h: Hash, events: seq<Event>, j: nat) returns (i: nat)
    requires j < |events| && NeedsReviewedFile(events[j].request)
    requires PrepareOutcome(h, Run(h, map[], events[..j]), events[j].request, events[j].io).Accepted?
    ensures events[j].request.path != ""
    ensures i < j && FirstPublished(h, events, i, events[j].request.path)
    ensures var e := events[i];
            && PrepareOutcome(h, Run(h, map[], events[..j]), events[j].request, events[j].io) ==
               Apply(h, events[j].request, PlanOf(h, e.request, e.io)) == Accepted(PlanOf(h, e.request, e.io))
            && !(e.io.write.CutAt? && e.io.write.n < |Canonical(PlanOf(h, e.request, e.io))|)
  {
    var r := events[j].request;
    var files := Run(h, map[], events[..j]);
    hide Run;
    ReviewedFileNeeded(h, files, r, events[j].io);
    assert r.path in files;
    i := CreatorExists(h, events, j, r.path);
    CreatesFirst(h, events, i, r.path);
    var e := events[i];
    var plan := PlanOf(h, e.request, e.io);
    CutPublication(plan, e.io.write);
    hide Canonical, Loads, PlanOf, Apply, FirstPublished;
    var read := ReadPlan(files, r.path, events[j].io);
    assert read == Some(plan);
    FileApplied(h, files, r, events[j].io, plan);
    AcceptedIsPlan(h, r, plan);
  }

  /** Activation in a run: whether in CI or interactive with a file, the accepted
      plan was published to that path less than 1800 seconds before, for the same
      operation, hosts, context and evidence; so when both contexts come from
      jobs or operators, these had the same revisions, environment, lane,
      pipeline and plan job. */
  lemma ActivationInRun(h: Hash, events: seq<Event>, j: nat) returns (i: nat)
    requires j < |events| && events[j].request.Activation?
    requires events[j].request.mode == "ci" || (events[j].request.mode == "interactive" && events[j].request.path != "")
    requires PrepareOutcome(h, Run(h, map[], events[..j]), events[j].request, events[j].io).Accepted?
    ensures events[j].request.path != "" && i < j && FirstPublished(h, events, i, events[j].request.path)
    ensures var p, r := events[i].request, events[j].request;
            && p.Activation? && p.operation == r.operation && p.hosts == r.hosts
            && p.context == r.context && p.evidence == r.evidence
            && p.now <= r.now < p.now + 1800
            && forall c, d :: p.context == ContextValue(c) && r.context == ContextValue(d) ==> c == d
  {
    assert NeedsReviewedFile(events[j].request);
    i := AppliedPlanWasPublished(h, events, j);
    hide *;
    forall c, d | ContextValue(c) == ContextValue(d) ensures c == d { ContextValueInjective(c, d); }
    ActivatedRequest(h, events[i].request, events[i].io, events[j].request);
  }

  /** Only an activation plan for exactly this request passes activation. */
  lemma ActivatedRequest(h: Hash, p: Request, io: Io, r: Request)
    requires r.Activation? && Apply(h, r, PlanOf(h, p, io)).Accepted?
    ensures && p.Activation? && p.operation == r.operation && p.hosts == r.hosts
            && p.context == r.context && p.evidence == r.evidence
            && p.now <= r.now < p.now + 1800
  {
    hide A.Validate, HostsValue, Digest, Canonical, IsHex, NewPlan, NewFailoverPlan;
    var plan := PlanOf(h, p, io);
    assert "owner" in F.FAILOVER_KEYS && "owner" !in KEYS;
    AcceptedParts(h, plan, r.operation, r.hosts, r.context, r.evidence, r.now);
    if p.Failover? {
      FailoverPlanFields(h, p, io);
    } else {
      NewPlanFields(h, p.operation, io.planId, p.now, p.hosts, p.context, p.evidence);
      HostsValueInjective(p.hosts, r.hosts);
    }
  }

  /** A fault in a run: every accepted test names a file, and its plan was
      published there less than 1800 seconds before, for the same hosts, context,
      owner and evidence. */
  lemma FaultInRun(h: Hash, events: seq<Event>, j: nat) returns (i: nat)
    requires j < |events| && events[j].request.Failover? && events[j].request.mode == "test"
    requires PrepareOutcome(h, Run(h, map[], events[..j]), events[j].request, events[j].io).Accepted?
    ensures events[j].request.path != "" && i < j && FirstPublished(h, events, i, events[j].request.path)
    ensures var p, r := events[i].request, events[j].request;
            && p.Failover? && p.hosts == r.hosts && p.context == r.context
            && p.owner == r.owner && p.evidence == r.evidence
            && p.now <= r.now < p.now + 1800
  {
    assert NeedsReviewedFile(events[j].request);
    i := AppliedPlanWasPublished(h, events, j);
    hide *;
    FaultRequest(h, events[i].request, events[i].io, events[j].request);
  }

  lemma FaultRequest(h: Hash, p: Request, io: Io, r: Request)
    requires r.Failover? && r.mode == "test" && Apply(h, r, PlanOf(h, p, io)).Accepted?
    ensures && p.Failover? && p.hosts == r.hosts && p.context == r.context
            && p.owner == r.owner && p.evidence == r.evidence
            && p.now <= r.now < p.now + 1800
  {
    hide V.Validate, HostsValue, Digest, Canonical, NewPlan, NewFailoverPlan, F.ValidContext, V.ValidHeader,
      V.ValidBaseline;
    var plan := PlanOf(h, p, io);
    assert "owner" in F.FAILOVER_KEYS && "owner" !in KEYS;
    V.TestIsRecoverPlus(h, plan, r.hosts, r.context, r.owner, r.evidence, r.now);
    V.RecoverExactly(h, plan, r.hosts, r.context, r.owner, r.evidence, r.now);
    if p.Activation? {
      NewPlanFields(h, p.operation, io.planId, p.now, p.hosts, p.context, p.evidence);
    } else {
      FailoverPlanFields(h, p, io);
      HostsValueInjective(p.hosts, r.hosts);
      V.PipelineRest(plan.members["context"], r.context);
    }
  }
}

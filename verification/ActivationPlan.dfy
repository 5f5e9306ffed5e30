/** Source-bound activation plans: context, plan construction and validation
    (plugins/module_utils/platform_openbao_activation_plan.py). */
module ActivationPlan {
  import opened Text
  import opened Patterns
  import opened CanonicalJson

  const TTL := 1800
  const MAX_BYTES := 262144

  const UNSIGNED_KEYS: set<string> :=
    {"schema", "operation", "plan_id", "created", "expires", "hosts", "context", "evidence"}
  const KEYS: set<string> := UNSIGNED_KEYS + {"digest"}

  /** SHA-256 as a hexadecimal digest; a parameter of every operation. */
  type Hash = string -> string

  type Env = map<string, string>

  datatype Reason =
    | UnsupportedSchema
    | StaleOrOtherOperation
    | BindingChanged
    | UnsupportedRequest
    | BadHostsOrEvidence
    | MissingArtifact
    | MissingOutputPath
    | UnreadableFile
    | NotPublished
    | BadEnvironment
    | CiWithoutPipeline
    | UnprotectedPipeline
    | WrongJob
    | InvalidContext
    | InvalidShape
    | PlanExpired
    | PlanNotYetValid
    | VipOwnerChanged
    | BaselineChanged
    | IdentityChanged

  datatype Outcome<+T> = Accepted(value: T) | Refused(reason: Reason)

  // ---------------------------------------------------------------- context

  /** What source_identity establishes about the two checkouts. */
  datatype Source = Source(configSha: string, privateSha: string, inventory: string)

  datatype Context = Context(source: Source, environment: string, lane: string,
                             project: string, pipeline: string, image: string, planJob: string)

  function ContextValue(c: Context): Value {
    Dict(map[
      "config_sha" := Str(c.source.configSha), "private_sha" := Str(c.source.privateSha),
      "inventory" := Str(c.source.inventory), "environment" := Str(c.environment),
      "lane" := Str(c.lane), "project" := Str(c.project), "pipeline" := Str(c.pipeline),
      "image" := Str(c.image), "plan_job" := Str(c.planJob)])
  }

  const CONTEXT_KEYS: set<string> :=
    {"config_sha", "private_sha", "inventory", "environment", "lane", "project", "pipeline", "image", "plan_job"}

  lemma ContextFields(c: Context)
    ensures ContextValue(c).Dict?
    ensures var m := ContextValue(c).members;
            && m.Keys == CONTEXT_KEYS
            && m["config_sha"] == Str(c.source.configSha) && m["private_sha"] == Str(c.source.privateSha)
            && m["inventory"] == Str(c.source.inventory) && m["environment"] == Str(c.environment)
            && m["lane"] == Str(c.lane) && m["project"] == Str(c.project) && m["pipeline"] == Str(c.pipeline)
            && m["image"] == Str(c.image) && m["plan_job"] == Str(c.planJob)
  {
  }

  lemma ContextValueInjective(a: Context, b: Context)
    requires ContextValue(a) == ContextValue(b)
    ensures a == b
  {
    ContextFields(a);
    ContextFields(b);
    hide ContextValue;
  }

  function Get(env: Env, key: string): string {
    if key in env then env[key] else ""
  }

  predicate ProtectedWebPipeline(env: Env, privateSha: string) {
    && Get(env, "CI") == "true"
    && Get(env, "CI_PIPELINE_SOURCE") == "web"
    && Get(env, "CI_COMMIT_REF_PROTECTED") == "true"
    && Get(env, "CI_DEFAULT_BRANCH") != ""
    && Get(env, "CI_COMMIT_BRANCH") == Get(env, "CI_DEFAULT_BRANCH")
    && "CI_COMMIT_SHA" in env && env["CI_COMMIT_SHA"] == privateSha
  }

  function JobSuffix(operation: string, mode: string): string {
    "-" + operation + (if mode == "plan" then "-plan" else "-activate")
  }

  predicate FixedJob(env: Env, operation: string, mode: string) {
    var name := Get(env, "CI_JOB_NAME");
    var suffix := JobSuffix(operation, mode);
    && EndsWith(name, suffix) && |name| > |suffix|
    && IsName(name, 128)
    && IsPositive(Get(env, "CI_PROJECT_ID"))
    && IsPositive(Get(env, "CI_PIPELINE_ID"))
    && IsPinnedImage(Get(env, "CI_JOB_IMAGE"))
    && (mode == "ci" ==> Get(env, "CI_JOB_MANUAL") == "true")
  }

  function CurrentContext(source: Source, environment: string, operation: string, mode: string, env: Env)
    : Outcome<Context>
  {
    if !IsName(environment, 64) then Refused(BadEnvironment)
    else if "CI" !in env then
      if mode == "ci" then Refused(CiWithoutPipeline)
      else Accepted(Context(source, environment, "operator", "", "", "", ""))
    else if !ProtectedWebPipeline(env, source.privateSha) || (mode != "plan" && mode != "ci") then
      Refused(UnprotectedPipeline)
    else if !FixedJob(env, operation, mode) then Refused(WrongJob)
    else
      var name := Get(env, "CI_JOB_NAME");
      Accepted(Context(source, environment, "gitlab", Get(env, "CI_PROJECT_ID"), Get(env, "CI_PIPELINE_ID"),
                       Get(env, "CI_JOB_IMAGE"),
                       if mode == "plan" then name else
                         assert |name| > 9;
                         name[..|name| - 9] + "-plan"))
  }

  // -------------------------------------- contexts, variable by variable

  /** The variable is set to this value. */
  predicate Set(env: Env, key: string, value: string) {
    key in env && env[key] == value
  }

  /** A web pipeline of the protected default branch at the private revision. */
  predicate PipelineVariables(env: Env, privateSha: string) {
    && Set(env, "CI", "true") && Set(env, "CI_PIPELINE_SOURCE", "web") && Set(env, "CI_COMMIT_REF_PROTECTED", "true")
    && "CI_DEFAULT_BRANCH" in env && env["CI_DEFAULT_BRANCH"] != ""
    && Set(env, "CI_COMMIT_BRANCH", env["CI_DEFAULT_BRANCH"]) && Set(env, "CI_COMMIT_SHA", privateSha)
  }

  /** A job `<prefix>-<operation><ending>` of at most 128 name characters. */
  predicate JobVariables(env: Env, prefix: string, operation: string, ending: string) {
    && prefix != "" && Set(env, "CI_JOB_NAME", prefix + ("-" + operation + ending))
    && |prefix| + 1 + |operation| + |ending| <= 128
    && Over(prefix, NAME_CHARS) && Over(operation, NAME_CHARS)
  }

  /** Positive identifiers of project and pipeline, and an image with a digest. */
  ghost predicate IdentityVariables(env: Env) {
    && "CI_PROJECT_ID" in env && PositiveNumber(env["CI_PROJECT_ID"])
    && "CI_PIPELINE_ID" in env && PositiveNumber(env["CI_PIPELINE_ID"])
    && "CI_JOB_IMAGE" in env && ImageWithDigest(env["CI_JOB_IMAGE"])
  }

  /** The whole CI environment of a plan or activate job with this prefix. */
  ghost predicate JobEnvironment(env: Env, privateSha: string, prefix: string, operation: string, mode: string) {
    && PipelineVariables(env, privateSha) && IdentityVariables(env)
    && (mode == "plan" || (mode == "ci" && Set(env, "CI_JOB_MANUAL", "true")))
    && JobVariables(env, prefix, operation, Ending(mode))
  }

  function Ending(mode: string): string {
    if mode == "plan" then "-plan" else "-activate"
  }

  lemma PipelineExactly(env: Env, privateSha: string)
    ensures ProtectedWebPipeline(env, privateSha) <==> PipelineVariables(env, privateSha)
  {
  }

  lemma IdentityExactly(env: Env)
    ensures IdentityVariables(env) <==>
            && IsPositive(Get(env, "CI_PROJECT_ID")) && IsPositive(Get(env, "CI_PIPELINE_ID"))
            && IsPinnedImage(Get(env, "CI_JOB_IMAGE"))
  {
    assert !IsPositive("") && !IsPinnedImage("");
    PositiveExactly(Get(env, "CI_PROJECT_ID"));
    PositiveExactly(Get(env, "CI_PIPELINE_ID"));
    PinnedImageExactly(Get(env, "CI_JOB_IMAGE"));
    hide PositiveNumber, ImageWithDigest, IsPositive, IsPinnedImage;
  }

  lemma JobExactly(env: Env, prefix: string, operation: string, mode: string)
    requires mode == "plan" || mode == "ci"
    ensures var name := Get(env, "CI_JOB_NAME");
            JobVariables(env, prefix, operation, Ending(mode)) <==>
            && name == prefix + JobSuffix(operation, mode) && |name| > |JobSuffix(operation, mode)| && IsName(name, 128)
  {
    assert JobSuffix(operation, mode) == "-" + operation + Ending(mode);
    SuffixChars(prefix, operation, mode);
    NameExactly(prefix, 128);
    NameExactly(operation, 128);
    hide NameChars, Over, NAME_CHARS, JobSuffix, Ending;
  }

  lemma FixedJobVariables(env: Env, operation: string, mode: string)
    requires mode == "plan" || mode == "ci"
    ensures var ending := Ending(mode);
            FixedJob(env, operation, mode) <==>
            && IdentityVariables(env) && (mode == "ci" ==> Set(env, "CI_JOB_MANUAL", "true"))
            && exists prefix :: JobVariables(env, prefix, operation, ending)
  {
    IdentityExactly(env);
    hide IdentityVariables, IsPositive, IsPinnedImage, JobVariables, JobSuffix, IsName, Ending;
    var name, suffix, ending := Get(env, "CI_JOB_NAME"), JobSuffix(operation, mode), Ending(mode);
    if EndsWith(name, suffix) {
      var prefix := name[..|name| - |suffix|];
      assert name == prefix + suffix;
      JobExactly(env, prefix, operation, mode);
    }
    forall prefix | JobVariables(env, prefix, operation, ending)
      ensures EndsWith(name, suffix) && |name| > |suffix| && IsName(name, 128)
    {
      JobExactly(env, prefix, operation, mode);
      EndsWithAppend(prefix, suffix);
    }
  }

  /** An operator outside CI: any mode but ci, and no CI identity. */
  lemma OperatorContextExactly(source: Source, environment: string, operation: string, mode: string, env: Env,
                               c: Context)
    requires "CI" !in env
    ensures CurrentContext(source, environment, operation, mode, env) == Accepted(c) <==>
            && 1 <= |environment| <= 64 && Over(environment, NAME_CHARS) && mode != "ci"
            && c == Context(source, environment, "operator", "", "", "", "")
  {
    NameExactly(environment, 64);
    hide NAME_CHARS, Over, IsName;
  }

  /** c is the context of a job with this prefix: the identifiers of the
      environment, and the plan job named by replacing the ending. */
  ghost predicate JobContext(c: Context, source: Source, environment: string, prefix: string, operation: string,
                             mode: string, env: Env)
  {
    && JobEnvironment(env, source.privateSha, prefix, operation, mode)
    && c.source == source && c.environment == environment && c.lane == "gitlab"
    && Set(env, "CI_PROJECT_ID", c.project) && Set(env, "CI_PIPELINE_ID", c.pipeline)
    && Set(env, "CI_JOB_IMAGE", c.image) && c.planJob == prefix + ("-" + operation + "-plan")
  }

  /** When a CI context is accepted and which one it is, variable by variable: a
      plan or manual activate job of a protected web pipeline. */
  lemma JobContextExactly(source: Source, environment: string, operation: string, mode: string, env: Env, c: Context)
    requires "CI" in env
    ensures CurrentContext(source, environment, operation, mode, env) == Accepted(c) <==>
            && 1 <= |environment| <= 64 && Over(environment, NAME_CHARS)
            && exists prefix :: JobContext(c, source, environment, prefix, operation, mode, env)
  {
    NameExactly(environment, 64);
    CiForm(source, environment, operation, mode, env);
    hide NAME_CHARS, Over, IsName, JobEnvironment, FixedJob, ProtectedWebPipeline, CurrentContext, PlanJobOf;
    if CurrentContext(source, environment, operation, mode, env) == Accepted(c) {
      var prefix := FindPrefix(env, source.privateSha, operation, mode);
      JobMeaning(env, source.privateSha, prefix, operation, mode);
      assert JobContext(c, source, environment, prefix, operation, mode, env);
    }
    forall prefix | JobContext(c, source, environment, prefix, operation, mode, env) && IsName(environment, 64)
      ensures CurrentContext(source, environment, operation, mode, env) == Accepted(c)
    {
      JobMeaning(env, source.privateSha, prefix, operation, mode);
    }
  }

  lemma CiForm(source: Source, environment: string, operation: string, mode: string, env: Env)
    requires "CI" in env
    ensures var r := CurrentContext(source, environment, operation, mode, env);
            && (r.Accepted? <==>
                  && IsName(environment, 64) && ProtectedWebPipeline(env, source.privateSha)
                  && (mode == "plan" || mode == "ci") && FixedJob(env, operation, mode))
            && (r.Accepted? ==>
                  r.value == Context(source, environment, "gitlab", Get(env, "CI_PROJECT_ID"),
                                     Get(env, "CI_PIPELINE_ID"), Get(env, "CI_JOB_IMAGE"),
                                     PlanJobOf(Get(env, "CI_JOB_NAME"), mode)))
  {
    hide IsName, ProtectedWebPipeline, IsPositive, IsPinnedImage;
  }

  lemma JobMeaning(env: Env, privateSha: string, prefix: string, operation: string, mode: string)
    requires JobEnvironment(env, privateSha, prefix, operation, mode)
    ensures ProtectedWebPipeline(env, privateSha) && (mode == "plan" || mode == "ci") && FixedJob(env, operation, mode)
    ensures "CI_PROJECT_ID" in env && "CI_PIPELINE_ID" in env && "CI_JOB_IMAGE" in env
    ensures PlanJobOf(Get(env, "CI_JOB_NAME"), mode) == prefix + ("-" + operation + "-plan")
  {
    assert IdentityVariables(env);
    hide ProtectedWebPipeline, PipelineVariables, FixedJob, JobVariables, Ending, PlanJobOf, PositiveNumber,
      ImageWithDigest;
    PipelineExactly(env, privateSha);
    FixedJobVariables(env, operation, mode);
    JobNamesPlan(env, prefix, operation, mode);
  }

  lemma FindPrefix(env: Env, privateSha: string, operation: string, mode: string) returns (prefix: string)
    requires ProtectedWebPipeline(env, privateSha) && (mode == "plan" || mode == "ci") && FixedJob(env, operation, mode)
    ensures JobEnvironment(env, privateSha, prefix, operation, mode)
  {
    hide ProtectedWebPipeline, PipelineVariables, FixedJob, JobVariables, IdentityVariables, Ending;
    PipelineExactly(env, privateSha);
    FixedJobVariables(env, operation, mode);
    var ending := Ending(mode);
    prefix :| JobVariables(env, prefix, operation, ending);
  }

  /** The plan job a job name stands for. */
  function PlanJobOf(name: string, mode: string): string {
    if mode == "plan" then name else if |name| > 9 then name[..|name| - 9] + "-plan" else ""
  }

  lemma JobNamesPlan(env: Env, prefix: string, operation: string, mode: string)
    requires JobVariables(env, prefix, operation, Ending(mode))
    ensures PlanJobOf(Get(env, "CI_JOB_NAME"), mode) == prefix + ("-" + operation + "-plan")
  {
    hide Over, NAME_CHARS;
    FixedPlanJobName(prefix, operation);
  }

  /** A protected environment, apart from the name of the job. */
  ghost predicate ProtectedEnv(source: Source, env: Env) {
    PipelineVariables(env, source.privateSha) && IdentityVariables(env)
  }

  lemma ProtectedParts(source: Source, env: Env)
    requires ProtectedEnv(source, env)
    ensures "CI" in env && ProtectedWebPipeline(env, source.privateSha)
    ensures IsPositive(Get(env, "CI_PROJECT_ID")) && IsPositive(Get(env, "CI_PIPELINE_ID"))
    ensures IsPinnedImage(Get(env, "CI_JOB_IMAGE"))
  {
    PipelineExactly(env, source.privateSha);
    IdentityExactly(env);
    hide IdentityVariables, IsPositive, IsPinnedImage;
  }

  /** The environment of the job with this prefix. */
  function FixedJobEnv(env: Env, prefix: string, operation: string, mode: string): Env {
    env["CI_JOB_NAME" := prefix + JobSuffix(operation, mode)]
  }

  lemma ProtectionIgnoresJob(env: Env, name: string, sha: string)
    ensures ProtectedWebPipeline(env["CI_JOB_NAME" := name], sha) == ProtectedWebPipeline(env, sha)
  {
  }

  lemma SuffixChars(prefix: string, operation: string, mode: string)
    ensures NameChars(prefix + JobSuffix(operation, mode)) <==> NameChars(prefix) && NameChars(operation)
    ensures |JobSuffix(operation, mode)| == |operation| + (if mode == "plan" then 6 else 10)
  {
    var ending := if mode == "plan" then "-plan" else "-activate";
    assert NameChars("-") && NameChars(ending);
    NameCharsConcat(prefix, JobSuffix(operation, mode));
    NameCharsConcat("-" + operation, ending);
    NameCharsConcat("-", operation);
    hide NameChars;
  }

  lemma FixedJobExactly(env: Env, prefix: string, operation: string, mode: string)
    requires mode == "plan" || mode == "ci"
    ensures FixedJob(FixedJobEnv(env, prefix, operation, mode), operation, mode) <==>
            && prefix != "" && |prefix| + |operation| + (if mode == "plan" then 6 else 10) <= 128
            && NameChars(prefix) && NameChars(operation) && IsPositive(Get(env, "CI_PROJECT_ID"))
            && IsPositive(Get(env, "CI_PIPELINE_ID")) && IsPinnedImage(Get(env, "CI_JOB_IMAGE"))
            && (mode == "ci" ==> Get(env, "CI_JOB_MANUAL") == "true")
  {
    hide IsPositive, IsPinnedImage, NameChars, JobSuffix, EndsWith;
    EndsWithAppend(prefix, JobSuffix(operation, mode));
    SuffixChars(prefix, operation, mode);
  }

  /** Both jobs name the plan job. */
  lemma FixedPlanJobName(prefix: string, operation: string)
    ensures var name := prefix + JobSuffix(operation, "ci");
            |name| > 9 && name[..|name| - 9] + "-plan" == prefix + JobSuffix(operation, "plan")
  {
    var name := prefix + JobSuffix(operation, "ci");
    assert name == prefix + ("-" + operation) + "-activate";
    assert name[..|name| - 9] == prefix + ("-" + operation);
  }

  /** Up to the length the activate job allows, the plan job and the activate job
      of a prefix see the same context or the same refusal. */
  lemma JobContextsAgree(source: Source, environment: string, operation: string, prefix: string, env: Env)
    requires "CI" in env && Get(env, "CI_JOB_MANUAL") == "true" && |prefix| + |operation| + 10 <= 128
    ensures CurrentContext(source, environment, operation, "plan", FixedJobEnv(env, prefix, operation, "plan")) ==
            CurrentContext(source, environment, operation, "ci", FixedJobEnv(env, prefix, operation, "ci"))
  {
    hide FixedJob, ProtectedWebPipeline, IsName, JobSuffix, NameChars, IsPositive, IsPinnedImage, ProtectedEnv;
    ProtectionIgnoresJob(env, prefix + JobSuffix(operation, "plan"), source.privateSha);
    ProtectionIgnoresJob(env, prefix + JobSuffix(operation, "ci"), source.privateSha);
    FixedJobExactly(env, prefix, operation, "plan");
    FixedJobExactly(env, prefix, operation, "ci");
    FixedPlanJobName(prefix, operation);
  }

  /** The exact lengths: the plan job has a context for prefixes four characters
      longer than the activate job does, whose plans then no job can apply. */
  lemma JobLengths(source: Source, environment: string, operation: string, prefix: string, env: Env)
    requires 1 <= |environment| <= 64 && Over(environment, NAME_CHARS)
    requires ProtectedEnv(source, env) && Set(env, "CI_JOB_MANUAL", "true")
    requires Over(operation, NAME_CHARS) && Over(prefix, NAME_CHARS)
    ensures var env' := FixedJobEnv(env, prefix, operation, "plan");
            CurrentContext(source, environment, operation, "plan", env').Accepted? <==>
            1 <= |prefix| <= 122 - |operation|
    ensures var env' := FixedJobEnv(env, prefix, operation, "ci");
            CurrentContext(source, environment, operation, "ci", env').Accepted? <==>
            1 <= |prefix| <= 118 - |operation|
  {
    NameExactly(environment, 64);
    NameExactly(operation, 128);
    NameExactly(prefix, 128);
    ProtectedParts(source, env);
    hide NAME_CHARS, Over, FixedJob, ProtectedWebPipeline, IsName, JobSuffix, NameChars, IsPositive, IsPinnedImage,
      ProtectedEnv;
    ProtectionIgnoresJob(env, prefix + JobSuffix(operation, "plan"), source.privateSha);
    ProtectionIgnoresJob(env, prefix + JobSuffix(operation, "ci"), source.privateSha);
    FixedJobExactly(env, prefix, operation, "plan");
    FixedJobExactly(env, prefix, operation, "ci");
    FixedPlanJobName(prefix, operation);
  }

  // ------------------------------------------------------------------- plan

  type Fields = map<string, Value>

  function Digest(h: Hash, m: Fields): string {
    h(Canonical(Dict(m - {"digest"})))
  }

  function HostsValue(hosts: seq<string>): Value {
    List(seq(|hosts|, i requires 0 <= i < |hosts| => Str(hosts[i])))
  }

  lemma HostsValueInjective(a: seq<string>, b: seq<string>)
    requires HostsValue(a) == HostsValue(b)
    ensures a == b
  {
    var x, y := HostsValue(a).elems, HostsValue(b).elems;
    assert |a| == |x| == |y| == |b|;
    forall i | 0 <= i < |a| ensures a[i] == b[i] { assert x[i] == Str(a[i]) && y[i] == Str(b[i]); }
  }

  predicate WellTimed(m: Fields, now: int)
    requires "created" in m && "expires" in m
  {
    && m["created"].Int? && m["expires"].Int?
    && m["expires"].n - m["created"].n == TTL
    && m["created"].n <= now < m["expires"].n
  }

  function Validate(h: Hash, plan: Value, operation: string, hosts: seq<string>, context: Value,
                    evidence: Value, now: int): Outcome<Value>
  {
    if !(plan.Dict? && plan.members.Keys == KEYS && plan.members["schema"] == Int(1)) then
      Refused(UnsupportedSchema)
    else
      var m := plan.members;
      if !(&& m["operation"] == Str(operation)
           && m["plan_id"].Str? && IsHex(m["plan_id"].s, 32)
           && WellTimed(m, now)) then
        Refused(StaleOrOtherOperation)
      else if !(&& m["digest"].Str? && m["digest"].s == Digest(h, m)
                && Canonical(m["hosts"]) == Canonical(HostsValue(hosts))
                && Canonical(m["context"]) == Canonical(context)
                && Canonical(m["evidence"]) == Canonical(evidence)) then
        Refused(BindingChanged)
      else Accepted(plan)
  }

  function Unsigned(operation: string, planId: string, now: int, hosts: seq<string>, context: Value,
                    evidence: Value): Fields
  {
    map["schema" := Int(1), "operation" := Str(operation), "plan_id" := Str(planId),
        "created" := Int(now), "expires" := Int(now + TTL), "hosts" := HostsValue(hosts),
        "context" := context, "evidence" := evidence]
  }

  function NewPlan(h: Hash, operation: string, planId: string, now: int, hosts: seq<string>, context: Value,
                   evidence: Value): Value
  {
    var m := Unsigned(operation, planId, now, hosts, context, evidence);
    Dict(m["digest" := Str(Digest(h, m))])
  }

  /** Exactly three sorted hosts and nonempty evidence. */
  predicate Bindable(hosts: seq<string>, evidence: Value) {
    && |hosts| == 3 && |Elements(hosts)| == 3 && hosts == Sorted(Elements(hosts))
    && evidence.Dict? && evidence.members != map[]
  }

  // ------------------------------------------------------------- properties

  lemma UnsignedFields(operation: string, planId: string, now: int, hosts: seq<string>,
                       context: Value, evidence: Value)
    ensures var m := Unsigned(operation, planId, now, hosts, context, evidence);
            && m.Keys == UNSIGNED_KEYS
            && m["schema"] == Int(1) && m["operation"] == Str(operation) && m["plan_id"] == Str(planId)
            && m["created"] == Int(now) && m["expires"] == Int(now + TTL) && m["hosts"] == HostsValue(hosts)
            && m["context"] == context && m["evidence"] == evidence
  {
    hide HostsValue;
  }

  /** Signing adds the digest field and changes no other. */
  lemma SignedFields(h: Hash, u: Fields)
    requires "digest" !in u
    ensures var m := u["digest" := Str(Digest(h, u))];
            && m.Keys == u.Keys + {"digest"}
            && m["digest"] == Str(Digest(h, m))
            && forall k :: k in u ==> m[k] == u[k]
  {
    var m := u["digest" := Str(Digest(h, u))];
    assert m - {"digest"} == u == u - {"digest"};
  }

  lemma NewPlanFields(h: Hash, operation: string, planId: string, now: int, hosts: seq<string>,
                      context: Value, evidence: Value)
    ensures NewPlan(h, operation, planId, now, hosts, context, evidence).Dict?
    ensures var m := NewPlan(h, operation, planId, now, hosts, context, evidence).members;
            && m.Keys == KEYS && m["digest"] == Str(Digest(h, m))
            && m["schema"] == Int(1) && m["operation"] == Str(operation) && m["plan_id"] == Str(planId)
            && m["created"] == Int(now) && m["expires"] == Int(now + 1800) && m["hosts"] == HostsValue(hosts)
            && m["context"] == context && m["evidence"] == evidence
  {
    hide HostsValue, Unsigned, Digest, Canonical;
    UnsignedFields(operation, planId, now, hosts, context, evidence);
    assert "digest" !in UNSIGNED_KEYS;
    SignedFields(h, Unsigned(operation, planId, now, hosts, context, evidence));
  }

  /** A new plan is accepted for its own operation, hosts, context and evidence
      exactly during the 1800 seconds from its creation. */
  lemma NewPlanWindow(h: Hash, operation: string, planId: string, created: int, hosts: seq<string>,
                      context: Value, evidence: Value, now: int)
    requires IsHex(planId, 32)
    ensures var plan := NewPlan(h, operation, planId, created, hosts, context, evidence);
            Validate(h, plan, operation, hosts, context, evidence, now) ==
            (if created <= now < created + 1800 then Accepted(plan) else Refused(StaleOrOtherOperation))
  {
    NewPlanFields(h, operation, planId, created, hosts, context, evidence);
    hide NewPlan, HostsValue, Canonical, Digest, IsHex, UNSIGNED_KEYS;
  }

  /** What acceptance means, without reference to canonical texts: the plan has
      the exact shape, is live, carries its own digest, and binds exactly these
      hosts, context and evidence. */
  lemma AcceptedParts(h: Hash, plan: Value, operation: string, hosts: seq<string>, context: Value,
                        evidence: Value, now: int)
    ensures Validate(h, plan, operation, hosts, context, evidence, now).Accepted? <==>
            && plan.Dict? && plan.members.Keys == KEYS
            && var m := plan.members;
            && m["schema"] == Int(1) && m["operation"] == Str(operation)
            && m["plan_id"].Str? && IsHex(m["plan_id"].s, 32) && WellTimed(m, now)
            && m["digest"] == Str(Digest(h, m))
            && m["hosts"] == HostsValue(hosts) && m["context"] == context && m["evidence"] == evidence
  {
    hide Canonical, Digest, HostsValue, IsHex, WellTimed;
    if plan.Dict? && plan.members.Keys == KEYS {
      var m := plan.members;
      CanonicalInjective(m["hosts"], HostsValue(hosts));
      CanonicalInjective(m["context"], context);
      CanonicalInjective(m["evidence"], evidence);
    }
  }

  /** Acceptance spelled out: exactly nine fields, version 1, an identifier of 32
      hexadecimal digits, a window of 1800 seconds around now, the digest of all
      other fields, and exactly these hosts, context and evidence. */
  lemma AcceptedExactly(h: Hash, plan: Value, operation: string, hosts: seq<string>, context: Value,
                        evidence: Value, now: int)
    ensures Validate(h, plan, operation, hosts, context, evidence, now).Accepted? <==>
            && plan.Dict?
            && var m := plan.members;
            && m.Keys == {"schema", "operation", "plan_id", "created", "expires", "hosts", "context", "evidence",
                          "digest"}
            && m["schema"] == Int(1) && m["operation"] == Str(operation)
            && m["plan_id"].Str? && |m["plan_id"].s| == 32 && Over(m["plan_id"].s, HEX_DIGITS)
            && (exists created :: Lives(m, created) && created <= now < created + 1800)
            && m["digest"] == Str(h(Canonical(Dict(m - {"digest"}))))
            && m["hosts"].List? && |m["hosts"].elems| == |hosts|
            && (forall i :: 0 <= i < |hosts| ==> m["hosts"].elems[i] == Str(hosts[i]))
            && m["context"] == context && m["evidence"] == evidence
  {
    AcceptedParts(h, plan, operation, hosts, context, evidence, now);
    hide Validate, Canonical, IsHex, HEX_DIGITS, HostsValue, Over, WellTimed;
    if plan.Dict? && plan.members.Keys == KEYS {
      var m := plan.members;
      TimesExactly(m, now);
      if m["plan_id"].Str? { HexExactly(m["plan_id"].s, 32); }
      HostsExactly(m["hosts"], hosts);
    }
  }

  /** The plan was created then and expires 1800 seconds later. */
  predicate Lives(m: Fields, created: int)
    requires "created" in m && "expires" in m
  {
    m["created"] == Int(created) && m["expires"] == Int(created + 1800)
  }

  lemma TimesExactly(m: Fields, now: int)
    requires "created" in m && "expires" in m
    ensures WellTimed(m, now) <==> exists created :: Lives(m, created) && created <= now < created + 1800
  {
    if WellTimed(m, now) { assert Lives(m, m["created"].n); }
  }

  lemma HostsExactly(v: Value, hosts: seq<string>)
    ensures v == HostsValue(hosts) <==>
            v.List? && |v.elems| == |hosts| && forall i :: 0 <= i < |hosts| ==> v.elems[i] == Str(hosts[i])
  {
    if v.List? && |v.elems| == |hosts| && forall i :: 0 <= i < |hosts| ==> v.elems[i] == Str(hosts[i]) {
      assert v.elems == HostsValue(hosts).elems;
    }
  }

  /** prepare() binds exactly three hosts, each before the next in code-point
      order, and nonempty evidence. */
  lemma BindableExactly(hosts: seq<string>, evidence: Value)
    ensures Bindable(hosts, evidence) <==>
            && |hosts| == 3 && Before(hosts[0], hosts[1]) && Before(hosts[1], hosts[2])
            && evidence.Dict? && |evidence.members| > 0
  {
    hide Before, Sorted;
    BeforeIsSorted(hosts);
    if |hosts| == 3 {
      assert hosts[0] in Elements(hosts) && hosts[1] in Elements(hosts) && hosts[2] in Elements(hosts);
      assert Elements(hosts) == {hosts[0], hosts[1], hosts[2]};
      BeforeChain(hosts[0], hosts[1], hosts[2]);
    }
  }

  lemma BeforeChain(a: string, b: string, c: string)
    ensures Before(a, b) && Before(b, c) ==> Before(a, c) && a != b && b != c && a != c
  {
    hide Before, Less;
    LessExactly(a, b);
    LessExactly(b, c);
    LessExactly(a, c);
    LessIrreflexive(a);
    LessIrreflexive(b);
    if Less(a, b) && Less(b, c) { LessTransitive(a, b, c); }
  }

  /** The texts whose digests these dictionaries carry are a collision of h. */
  ghost predicate Collision(h: Hash, a: Fields, b: Fields) {
    var x, y := Canonical(Dict(a - {"digest"})), Canonical(Dict(b - {"digest"}));
    x != y && h(x) == h(y)
  }

  /** Unless two canonical texts collide, the digest field determines every
      other field. */
  lemma DigestDeterminesFields(h: Hash, a: Fields, b: Fields)
    requires "digest" in a && "digest" in b
    requires a["digest"] == Str(Digest(h, a)) && b["digest"] == Str(Digest(h, b))
    requires a["digest"] == b["digest"]
    ensures a == b || Collision(h, a, b)
  {
    CanonicalInjective(Dict(a - {"digest"}), Dict(b - {"digest"}));
    if a - {"digest"} == b - {"digest"} {
      assert a == (a - {"digest"})["digest" := a["digest"]];
      assert b == (b - {"digest"})["digest" := b["digest"]];
    }
  }

  /** f"activate-openbao-{operation}|{','.join(hosts)}|{plan['digest']}" */
  function Approval(operation: string, hosts: seq<string>, digest: string): string {
    "activate-openbao-" + operation + "|" + JoinWith(hosts, ",") + "|" + digest
  }

  /** An approval names the operation, the hosts and the digest, in this order. */
  lemma ApprovalParts(operation: string, hosts: seq<string>, digest: string)
    requires '|' !in operation && '|' !in digest && hosts != []
    requires forall i :: 0 <= i < |hosts| ==> '|' !in hosts[i] && ',' !in hosts[i]
    ensures var parts := Split(Approval(operation, hosts, digest), '|');
            && |parts| == 3 && parts[0] == "activate-openbao-" + operation
            && Split(parts[1], ',') == hosts && parts[2] == digest
  {
    var head, list := "activate-openbao-" + operation, JoinWith(hosts, ",");
    assert '|' !in "activate-openbao-";
    NoBarInJoin(hosts);
    hide JoinWith, Split;
    assert Approval(operation, hosts, digest) == head + ['|'] + (list + ['|'] + digest);
    SplitHead(head, list + ['|'] + digest, '|');
    SplitHead(list, digest, '|');
    SplitNone(digest, '|');
    SplitJoin(hosts, ',');
  }

  lemma {:induction false} NoBarInJoin(hosts: seq<string>)
    requires forall i :: 0 <= i < |hosts| ==> '|' !in hosts[i]
    ensures '|' !in JoinWith(hosts, ",")
  {
    if |hosts| > 1 {
      NoBarInJoin(hosts[1..]);
    }
  }

  /** hexdigest() of SHA-256: always 64 hexadecimal digits. */
  ghost predicate HexDigests(h: Hash) {
    forall t :: IsHex(h(t), 64)
  }

  lemma HexDigestsExist()
    ensures exists h: Hash :: HexDigests(h)
  {
    var h: Hash := t => seq(64, _ => '0');
    assert HexDigests(h);
  }

  /** Equal approval strings of two accepted plans approve the same plan, unless
      its two canonical texts collide.  Host names are not restricted here, so
      the argument reads the digest from the right. */
  lemma ApprovalBindsPlan(h: Hash, a: Value, operationA: string, hostsA: seq<string>, contextA: Value,
                          evidenceA: Value, nowA: int,
                          b: Value, operationB: string, hostsB: seq<string>, contextB: Value,
                          evidenceB: Value, nowB: int)
    requires HexDigests(h)
    requires Validate(h, a, operationA, hostsA, contextA, evidenceA, nowA).Accepted?
    requires Validate(h, b, operationB, hostsB, contextB, evidenceB, nowB).Accepted?
    requires Approval(operationA, hostsA, a.members["digest"].s) ==
             Approval(operationB, hostsB, b.members["digest"].s)
    ensures a.members["digest"] == b.members["digest"]
    ensures || Collision(h, a.members, b.members)
            || (&& a == b && operationA == operationB && hostsA == hostsB
                && contextA == contextB && evidenceA == evidenceB)
  {
    AcceptedParts(h, a, operationA, hostsA, contextA, evidenceA, nowA);
    AcceptedParts(h, b, operationB, hostsB, contextB, evidenceB, nowB);
    hide Validate, Canonical, HostsValue, WellTimed, JoinWith;
    var x, y := a.members["digest"].s, b.members["digest"].s;
    var s, t := Approval(operationA, hostsA, x), Approval(operationB, hostsB, y);
    assert x == s[|s| - 64..] && y == t[|t| - 64..];
    DigestDeterminesFields(h, a.members, b.members);
    if a == b { HostsValueInjective(hostsA, hostsB); }
  }
}

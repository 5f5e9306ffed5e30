/** Failover plans: job-name translation, plan shape, and the test and recover
    verdicts (plugins/module_utils/platform_openbao_failover_plan.py). */
module FailoverPlan {
  import opened Patterns
  import opened CanonicalJson
  import opened A = ActivationPlan

  const OPERATION := "haproxy-failover"
  const FAILOVER_KEYS: set<string> := KEYS + {"owner", "service", "nonce"}

  // ---------------------------------------------------------------- context

  predicate HexField(v: Value, n: nat) {
    v.Str? && IsHex(v.s, n)
  }

  /** [A-Za-z0-9_.-]+-haproxy-failover-plan, at most 128 characters. */
  predicate IsPlanJob(s: string) {
    var suffix := "-haproxy-failover-plan";
    EndsWith(s, suffix) && |s| > |suffix| && NameChars(s[..|s| - |suffix|]) && |s| <= 128
  }

  predicate IsInventoryName(s: string) {
    s != "" && s[0] != '/' && ".." !in Split(s, '/')
  }

  predicate ValidContext(v: Value) {
    && v.Dict? && v.members.Keys == CONTEXT_KEYS
    && var m := v.members;
    && HexField(m["config_sha"], 40) && HexField(m["private_sha"], 40)
    && m["environment"].Str? && IsName(m["environment"].s, 64)
    && m["inventory"].Str? && IsInventoryName(m["inventory"].s)
    && (if m["lane"] == Str("operator") then
          m["project"] == Str("") && m["pipeline"] == Str("") && m["image"] == Str("") && m["plan_job"] == Str("")
        else
          && m["lane"] == Str("gitlab")
          && m["project"].Str? && IsPositive(m["project"].s)
          && m["pipeline"].Str? && IsPositive(m["pipeline"].s)
          && m["image"].Str? && IsPinnedImage(m["image"].s)
          && m["plan_job"].Str? && IsPlanJob(m["plan_job"].s))
  }

  predicate SupportedMode(mode: string) {
    mode == "plan" || mode == "test" || mode == "recover"
  }

  /** The suffix the job of this mode must have; a test job may also recover. */
  function ExpectedSuffix(mode: string, name: string): string {
    if mode == "recover" && EndsWith(name, "-haproxy-failover-test") then "-haproxy-failover-test"
    else "-haproxy-failover-" + mode
  }

  function TranslatedSuffix(mode: string): string {
    if mode == "plan" then "-haproxy-failover-plan" else "-haproxy-failover-activate"
  }

  function CheckedContext(c: Outcome<Context>): Outcome<Context> {
    if c.Accepted? && !ValidContext(ContextValue(c.value)) then Refused(InvalidContext) else c
  }

  function FailoverContext(source: Source, environment: string, mode: string, env: Env): Outcome<Context> {
    if !SupportedMode(mode) then Refused(UnsupportedRequest)
    else if "CI" !in env then
      var inner := if mode == "plan" then "plan" else "interactive";
      CheckedContext(CurrentContext(source, environment, OPERATION, inner, env))
    else
      var name := Get(env, "CI_JOB_NAME");
      var suffix := ExpectedSuffix(mode, name);
      if !EndsWith(name, suffix) || |name| <= |suffix| then Refused(WrongJob) else
        var job := name[..|name| - |suffix|] + TranslatedSuffix(mode);
        CheckedContext(CurrentContext(source, environment, OPERATION, if mode == "plan" then "plan" else "ci",
                                      env["CI_JOB_NAME" := job]))
  }

  function JobEnv(env: Env, prefix: string, kind: string): Env {
    env["CI_JOB_NAME" := prefix + "-haproxy-failover-" + kind]
  }

  /** The context of a gitlab job with this prefix, apart from the job name and
      the manual flag; every mode ends here. */
  function GitlabContext(source: Source, environment: string, prefix: string, env: Env): Outcome<Context> {
    if !IsName(environment, 64) then Refused(BadEnvironment)
    else if !ProtectedWebPipeline(env, source.privateSha) then Refused(UnprotectedPipeline)
    else if !(&& prefix != "" && NameChars(prefix) && IsPositive(Get(env, "CI_PROJECT_ID"))
              && IsPositive(Get(env, "CI_PIPELINE_ID")) && IsPinnedImage(Get(env, "CI_JOB_IMAGE"))) then
      Refused(WrongJob)
    else
      CheckedContext(Accepted(Context(source, environment, "gitlab", Get(env, "CI_PROJECT_ID"),
                                      Get(env, "CI_PIPELINE_ID"), Get(env, "CI_JOB_IMAGE"),
                                      prefix + "-haproxy-failover-plan")))
  }

  lemma TranslatedJob(env: Env, prefix: string, mode: string, kind: string)
    requires SupportedMode(mode) && prefix != ""
    requires kind == mode || (mode == "recover" && kind == "test")
    ensures var name := Get(JobEnv(env, prefix, kind), "CI_JOB_NAME");
            var suffix := ExpectedSuffix(mode, name);
            && EndsWith(name, suffix) && |name| > |suffix|
            && name[..|name| - |suffix|] == prefix
  {
    var name := prefix + "-haproxy-failover-" + kind;
    var suffix := "-haproxy-failover-" + kind;
    assert name == prefix + suffix;
    EndsWithAppend(prefix, suffix);
    if kind == "recover" {
      assert name[|name| - 1] == 'r';
      var t := "-haproxy-failover-test";
      assert t[|t| - 1] == 't';
      assert |name| >= |t| ==> name[|name| - |t|..][|t| - 1] == 'r';
    }
    assert ExpectedSuffix(mode, name) == suffix;
  }

  lemma FixedFailoverJob(env: Env, prefix: string, mode: string)
    requires mode == "plan" || mode == "ci"
    requires mode == "ci" ==> Get(env, "CI_JOB_MANUAL") == "true"
    requires prefix != "" && |prefix| + (if mode == "plan" then 22 else 26) <= 128
    ensures FixedJob(env["CI_JOB_NAME" := prefix + JobSuffix(OPERATION, mode)], OPERATION, mode) <==>
            && NameChars(prefix) && IsPositive(Get(env, "CI_PROJECT_ID"))
            && IsPositive(Get(env, "CI_PIPELINE_ID")) && IsPinnedImage(Get(env, "CI_JOB_IMAGE"))
  {
    FixedJobExactly(env, prefix, OPERATION, mode);
    assert NameChars(OPERATION);
    hide FixedJob, IsPositive, IsPinnedImage, NameChars;
  }

  /** Translation and the shared checks reduce every mode to GitlabContext. */
  lemma ModeContext(source: Source, environment: string, mode: string, kind: string, prefix: string, env: Env)
    requires SupportedMode(mode) && (kind == mode || (mode == "recover" && kind == "test"))
    requires "CI" in env && prefix != "" && |prefix| + (if mode == "plan" then 22 else 26) <= 128
    requires mode != "plan" ==> Get(env, "CI_JOB_MANUAL") == "true"
    ensures FailoverContext(source, environment, mode, JobEnv(env, prefix, kind)) ==
            GitlabContext(source, environment, prefix, env)
  {
    hide CurrentContext, GitlabContext, CheckedContext, ExpectedSuffix, EndsWith, JobSuffix, TranslatedSuffix;
    TranslatedJob(env, prefix, mode, kind);
    SuffixAgrees(mode);
    var inner := if mode == "plan" then "plan" else "ci";
    var job := prefix + TranslatedSuffix(mode);
    assert JobEnv(env, prefix, kind)["CI_JOB_NAME" := job] == env["CI_JOB_NAME" := job];
    SharedContext(source, environment, inner, prefix, env);
  }

  lemma SuffixAgrees(mode: string)
    ensures TranslatedSuffix(mode) == JobSuffix(OPERATION, if mode == "plan" then "plan" else "ci")
  {
    assert "-" + OPERATION + "-plan" == "-haproxy-failover-plan";
    assert "-" + OPERATION + "-activate" == "-haproxy-failover-activate";
  }

  lemma PlanJobName(prefix: string, inner: string)
    requires inner == "plan" || inner == "ci"
    ensures var name := prefix + JobSuffix(OPERATION, inner);
            && |name| > 9
            && (if inner == "plan" then name else name[..|name| - 9] + "-plan") == prefix + "-haproxy-failover-plan"
  {
    var name := prefix + JobSuffix(OPERATION, inner);
    if inner == "ci" {
      assert "-" + OPERATION + "-plan" == "-haproxy-failover-plan";
      assert name == prefix + ("-" + OPERATION) + "-activate";
      assert name[..|name| - 9] == prefix + ("-" + OPERATION);
    } else {
      assert "-" + OPERATION + "-plan" == "-haproxy-failover-plan";
    }
  }

  lemma SharedContext(source: Source, environment: string, inner: string, prefix: string, env: Env)
    requires inner == "plan" || inner == "ci"
    requires "CI" in env && prefix != "" && |prefix| + (if inner == "plan" then 22 else 26) <= 128
    requires inner == "ci" ==> Get(env, "CI_JOB_MANUAL") == "true"
    ensures CheckedContext(CurrentContext(source, environment, OPERATION, inner,
                                          env["CI_JOB_NAME" := prefix + JobSuffix(OPERATION, inner)])) ==
            GitlabContext(source, environment, prefix, env)
  {
    hide FixedJob, IsPositive, IsPinnedImage, IsName, NameChars, ValidContext, ProtectedWebPipeline, JobSuffix;
    ProtectionIgnoresJob(env, prefix + JobSuffix(OPERATION, inner), source.privateSha);
    FixedFailoverJob(env, prefix, inner);
    PlanJobName(prefix, inner);
  }

  /** For a job prefix of 1 to 102 characters the plan, test and recover jobs,
      and recovery from the test job, see the same context or the same refusal. */
  lemma ContextsAgree(source: Source, environment: string, prefix: string, env: Env)
    requires "CI" in env && Get(env, "CI_JOB_MANUAL") == "true"
    requires 1 <= |prefix| <= 102
    ensures var plan := FailoverContext(source, environment, "plan", JobEnv(env, prefix, "plan"));
            && FailoverContext(source, environment, "test", JobEnv(env, prefix, "test")) == plan
            && FailoverContext(source, environment, "recover", JobEnv(env, prefix, "recover")) == plan
            && FailoverContext(source, environment, "recover", JobEnv(env, prefix, "test")) == plan
  {
    ModeContext(source, environment, "plan", "plan", prefix, env);
    ModeContext(source, environment, "test", "test", prefix, env);
    ModeContext(source, environment, "recover", "recover", prefix, env);
    ModeContext(source, environment, "recover", "test", prefix, env);
  }

  predicate ValidSource(s: Source) {
    IsHex(s.configSha, 40) && IsHex(s.privateSha, 40) && IsInventoryName(s.inventory)
  }

  lemma AcceptedContextValid(source: Source, environment: string, mode: string, env: Env)
    requires FailoverContext(source, environment, mode, env).Accepted?
    ensures ValidContext(ContextValue(FailoverContext(source, environment, mode, env).value))
  {
    hide CurrentContext, ValidContext, ContextValue;
  }

  /** In a protected pipeline a plan job is accepted exactly for prefixes of 1
      to 106 allowed characters, although test and recover stop at 102. */
  lemma PlanJobAccepted(source: Source, environment: string, prefix: string, env: Env)
    requires SourceIdentity(source) && 1 <= |environment| <= 64 && Over(environment, NAME_CHARS)
    requires ProtectedEnv(source, env)
    ensures FailoverContext(source, environment, "plan", JobEnv(env, prefix, "plan")).Accepted? <==>
            1 <= |prefix| <= 106 && Over(prefix, NAME_CHARS)
  {
    SourceExactly(source);
    NameExactly(environment, 64);
    NameExactly(prefix, 106);
    ProtectedParts(source, env);
    hide SourceIdentity, ValidSource, Over, NAME_CHARS, IsName, NameChars, ProtectedEnv, JobEnv, GitlabContext;
    if 1 <= |prefix| <= 106 {
      ModeContext(source, environment, "plan", "plan", prefix, env);
      GitlabContextIs(source, environment, prefix, env);
      if NameChars(prefix) {
        GitlabContextValid(source, environment, prefix, env);
      }
    } else {
      LongJobRefused(source, environment, "plan", "plan", prefix, env);
    }
  }

  lemma GitlabContextValid(source: Source, environment: string, prefix: string, env: Env)
    requires ValidSource(source) && IsName(environment, 64) && ProtectedEnv(source, env)
    requires 1 <= |prefix| <= 106 && NameChars(prefix)
    ensures GitlabContext(source, environment, prefix, env).Accepted?
  {
    ProtectedParts(source, env);
    hide IsPositive, IsPinnedImage, IsName, NameChars, IsHex, IsInventoryName, ProtectedWebPipeline, ContextValue;
    var job := prefix + "-haproxy-failover-plan";
    EndsWithAppend(prefix, "-haproxy-failover-plan");
    assert IsPlanJob(job);
    var c := Context(source, environment, "gitlab", Get(env, "CI_PROJECT_ID"), Get(env, "CI_PIPELINE_ID"),
                     Get(env, "CI_JOB_IMAGE"), job);
    ContextFields(c);
    assert ContextValue(c).members["lane"] != Str("operator");
  }

  /** A translated job name over 128 characters is always refused: 107 and more
      for plan, 103 and more for test and recover. */
  lemma LongJobRefused(source: Source, environment: string, mode: string, kind: string, prefix: string, env: Env)
    requires SupportedMode(mode) && (kind == mode || (mode == "recover" && kind == "test"))
    requires "CI" in env
    requires prefix == "" || |prefix| + (if mode == "plan" then 22 else 26) > 128
    ensures FailoverContext(source, environment, mode, JobEnv(env, prefix, kind)).Refused?
  {
    hide ProtectedWebPipeline, IsPositive, IsPinnedImage, ValidContext;
    if prefix != "" {
      TranslatedJob(env, prefix, mode, kind);
    } else {
      EmptyPrefixRefused(env, mode, kind);
    }
  }

  lemma EmptyPrefixRefused(env: Env, mode: string, kind: string)
    requires SupportedMode(mode) && (kind == mode || (mode == "recover" && kind == "test"))
    ensures var name := Get(JobEnv(env, "", kind), "CI_JOB_NAME"); |name| <= |ExpectedSuffix(mode, name)|
  {
    var name := Get(JobEnv(env, "", kind), "CI_JOB_NAME");
    assert name == "-haproxy-failover-" + kind;
    if mode == "recover" && kind == "test" {
      assert name == "-haproxy-failover-test";
      assert EndsWith(name, name);
    } else if mode == "recover" {
      assert |name| == 25 && |ExpectedSuffix(mode, name)| >= 22;
      assert name[|name| - 22..][21] == 'r';
    }
  }

  /** A job named for recovery never authorises a fault. */
  lemma RecoverJobNeverTests(source: Source, environment: string, env: Env)
    requires "CI" in env && EndsWith(Get(env, "CI_JOB_NAME"), "-haproxy-failover-recover")
    ensures FailoverContext(source, environment, "test", env) == Refused(WrongJob)
  {
    var name := Get(env, "CI_JOB_NAME");
    var suffix := ExpectedSuffix("test", name);
    assert suffix[|suffix| - 1] == 't';
    assert name[|name| - 1] == name[|name| - 25..][24] == 'r';
    assert name[|name| - |suffix|..][|suffix| - 1] == 'r';
  }

  // ------------------------------------------------- contexts, spelled out

  /** 40 hexadecimal digits. */
  predicate Revision(s: string) {
    |s| == 40 && Over(s, HEX_DIGITS)
  }

  /** A nonempty relative path without a ".." component. */
  ghost predicate RelativePath(s: string) {
    s != "" && s[0] != '/' && forall p, q :: !StandsIn(s, "..", '/', p, q)
  }

  ghost predicate SourceIdentity(s: Source) {
    Revision(s.configSha) && Revision(s.privateSha) && RelativePath(s.inventory)
  }

  lemma SourceExactly(s: Source)
    ensures ValidSource(s) <==> SourceIdentity(s)
  {
    HexExactly(s.configSha, 40);
    HexExactly(s.privateSha, 40);
    SplitExactly(s.inventory, '/', "..");
    hide IsHex, Over, HEX_DIGITS, StandsIn, Split;
  }

  /** The plan job of a prefix of 1 to 106 name characters. */
  ghost predicate NamesPlanJob(job: string) {
    exists prefix :: && job == prefix + "-haproxy-failover-plan"
                     && 1 <= |prefix| <= 106 && Over(prefix, NAME_CHARS)
  }

  lemma PlanJobExactly(job: string)
    ensures IsPlanJob(job) <==> NamesPlanJob(job)
  {
    hide NAME_CHARS, Over, NameChars;
    var suffix := "-haproxy-failover-plan";
    if IsPlanJob(job) {
      var prefix := job[..|job| - |suffix|];
      NameExactly(prefix, 106);
      assert job == prefix + suffix;
    }
    forall prefix | job == prefix + suffix && 1 <= |prefix| <= 106 && Over(prefix, NAME_CHARS) ensures IsPlanJob(job) {
      NameExactly(prefix, 106);
      EndsWithAppend(prefix, suffix);
    }
  }

  /** What validate_context() accepts: an operator without CI identity, or a
      GitLab job with positive identifiers, a pinned image and a plan job. */
  ghost predicate ContextFacts(c: Context) {
    && SourceIdentity(c.source) && 1 <= |c.environment| <= 64 && Over(c.environment, NAME_CHARS)
    && ((c.lane == "operator" && c.project == "" && c.pipeline == "" && c.image == "" && c.planJob == "") ||
        (&& c.lane == "gitlab" && PositiveNumber(c.project) && PositiveNumber(c.pipeline)
         && ImageWithDigest(c.image) && NamesPlanJob(c.planJob)))
  }

  lemma ContextFactsExactly(c: Context)
    ensures ValidContext(ContextValue(c)) <==> ContextFacts(c)
  {
    hide ContextValue, SourceIdentity, IsName, Over, NAME_CHARS, IsPositive, PositiveNumber, IsPinnedImage,
      ImageWithDigest, IsPlanJob, NamesPlanJob, IsHex, IsInventoryName;
    ContextFields(c);
    SourceExactly(c.source);
    NameExactly(c.environment, 64);
    PositiveExactly(c.project);
    PositiveExactly(c.pipeline);
    PinnedImageExactly(c.image);
    PlanJobExactly(c.planJob);
  }

  /** A valid context is the dictionary of such a context and of nothing else. */
  lemma ValidContextExactly(v: Value)
    ensures ValidContext(v) <==> exists c :: v == ContextValue(c) && ContextFacts(c)
  {
    hide ContextFacts, IsHex, IsName, IsPositive, IsPinnedImage, IsPlanJob, IsInventoryName;
    if ValidContext(v) {
      var c := ContextOf(v);
      ContextOfValue(v);
      ContextFactsExactly(c);
    }
    forall c | v == ContextValue(c) && ContextFacts(c) ensures ValidContext(v) { ContextFactsExactly(c); }
  }

  /** The context of a dictionary of nine strings. */
  function ContextOf(v: Value): Context
    requires v.Dict? && v.members.Keys == CONTEXT_KEYS && forall k :: k in v.members ==> v.members[k].Str?
  {
    var m := v.members;
    Context(Source(m["config_sha"].s, m["private_sha"].s, m["inventory"].s), m["environment"].s, m["lane"].s,
            m["project"].s, m["pipeline"].s, m["image"].s, m["plan_job"].s)
  }

  lemma ContextOfValue(v: Value)
    requires v.Dict? && v.members.Keys == CONTEXT_KEYS && forall k :: k in v.members ==> v.members[k].Str?
    ensures ContextValue(ContextOf(v)) == v
  {
    ContextFields(ContextOf(v));
    hide ContextValue;
    var m := ContextValue(ContextOf(v)).members;
    assert forall k :: k in CONTEXT_KEYS ==> m[k] == v.members[k];
    assert m == v.members;
  }

  /** A job `<prefix>-haproxy-failover-<kind>` that may run this mode. */
  predicate FailoverJob(env: Env, mode: string, prefix: string, kind: string) {
    && (mode == "plan" || mode == "test" || mode == "recover")
    && (kind == mode || (mode == "recover" && kind == "test"))
    && Set(env, "CI_JOB_NAME", prefix + "-haproxy-failover-" + kind)
    && 1 <= |prefix| <= (if mode == "plan" then 106 else 102) && Over(prefix, NAME_CHARS)
    && (mode == "plan" || Set(env, "CI_JOB_MANUAL", "true"))
  }

  /** c is the failover context of such a job in a protected pipeline. */
  ghost predicate FailoverJobContext(c: Context, source: Source, environment: string, mode: string, env: Env,
                                     prefix: string, kind: string)
  {
    && FailoverJob(env, mode, prefix, kind)
    && PipelineVariables(env, source.privateSha) && IdentityVariables(env)
    && c.source == source && c.environment == environment && c.lane == "gitlab"
    && Set(env, "CI_PROJECT_ID", c.project) && Set(env, "CI_PIPELINE_ID", c.pipeline)
    && Set(env, "CI_JOB_IMAGE", c.image) && c.planJob == prefix + "-haproxy-failover-plan"
  }

  /** When a failover context is accepted in CI and which one it is, variable by
      variable. */
  lemma FailoverContextExactly(source: Source, environment: string, mode: string, env: Env, c: Context)
    requires "CI" in env
    ensures FailoverContext(source, environment, mode, env) == Accepted(c) <==>
            && SourceIdentity(source) && 1 <= |environment| <= 64 && Over(environment, NAME_CHARS)
            && exists prefix, kind :: FailoverJobContext(c, source, environment, mode, env, prefix, kind)
  {
    NameExactly(environment, 64);
    SourceExactly(source);
    hide SourceIdentity, Over, NAME_CHARS, FailoverContext, FailoverJobContext, ValidSource, IsName;
    if FailoverContext(source, environment, mode, env) == Accepted(c) {
      var prefix, kind := FindFailoverJob(source, environment, mode, env, c);
    }
    if ValidSource(source) && IsName(environment, 64) {
      forall prefix, kind | FailoverJobContext(c, source, environment, mode, env, prefix, kind)
        ensures FailoverContext(source, environment, mode, env) == Accepted(c)
      {
        FailoverJobAccepted(source, environment, mode, env, c, prefix, kind);
      }
    }
  }

  /** The operator lane of failover: any of the three modes, and no CI identity. */
  lemma FailoverOperatorExactly(source: Source, environment: string, mode: string, env: Env, c: Context)
    requires "CI" !in env
    ensures FailoverContext(source, environment, mode, env) == Accepted(c) <==>
            && (mode == "plan" || mode == "test" || mode == "recover")
            && SourceIdentity(source) && 1 <= |environment| <= 64 && Over(environment, NAME_CHARS)
            && c == Context(source, environment, "operator", "", "", "", "")
  {
    var operator := Context(source, environment, "operator", "", "", "", "");
    ContextFactsExactly(operator);
    var inner := if mode == "plan" then "plan" else "interactive";
    OperatorContextExactly(source, environment, OPERATION, inner, env, c);
    OperatorContextExactly(source, environment, OPERATION, inner, env, operator);
    hide CurrentContext, SourceIdentity, ValidContext, ContextValue, Over, NAME_CHARS;
  }

  lemma FailoverJobAccepted(source: Source, environment: string, mode: string, env: Env, c: Context, prefix: string,
                            kind: string)
    requires ValidSource(source) && IsName(environment, 64)
    requires FailoverJobContext(c, source, environment, mode, env, prefix, kind)
    ensures FailoverContext(source, environment, mode, env) == Accepted(c)
  {
    NameExactly(prefix, 106);
    assert JobEnv(env, prefix, kind) == env;
    assert "CI" in env && SupportedMode(mode);
    hide FailoverContext, ValidSource, IsName, NameChars, Over, NAME_CHARS, PipelineVariables, IdentityVariables;
    ModeContext(source, environment, mode, kind, prefix, env);
    GitlabContextValid(source, environment, prefix, env);
    GitlabContextIs(source, environment, prefix, env);
  }

  lemma GitlabContextIs(source: Source, environment: string, prefix: string, env: Env)
    ensures var r := GitlabContext(source, environment, prefix, env);
            r.Accepted? ==>
              && r.value == Context(source, environment, "gitlab", Get(env, "CI_PROJECT_ID"),
                                    Get(env, "CI_PIPELINE_ID"), Get(env, "CI_JOB_IMAGE"),
                                    prefix + "-haproxy-failover-plan")
              && ValidContext(ContextValue(r.value)) && IsName(environment, 64)
              && ProtectedWebPipeline(env, source.privateSha) && prefix != "" && NameChars(prefix)
              && IsPositive(Get(env, "CI_PROJECT_ID")) && IsPositive(Get(env, "CI_PIPELINE_ID"))
              && IsPinnedImage(Get(env, "CI_JOB_IMAGE"))
  {
    hide ValidContext, ContextValue, IsName, ProtectedWebPipeline, NameChars, IsPositive, IsPinnedImage;
  }

  /** A manual mode without the manual flag is refused. */
  lemma ManualNeeded(source: Source, environment: string, mode: string, env: Env)
    requires "CI" in env && (mode == "test" || mode == "recover") && Get(env, "CI_JOB_MANUAL") != "true"
    ensures FailoverContext(source, environment, mode, env).Refused?
  {
    hide ValidContext, ContextValue, ProtectedWebPipeline, IsName, NameChars, IsPositive, IsPinnedImage, EndsWith,
      JobSuffix;
  }

  lemma FindFailoverJob(source: Source, environment: string, mode: string, env: Env, c: Context)
    returns (prefix: string, kind: string)
    requires "CI" in env && FailoverContext(source, environment, mode, env) == Accepted(c)
    ensures FailoverJobContext(c, source, environment, mode, env, prefix, kind)
    ensures ValidSource(source) && IsName(environment, 64)
  {
    prefix, kind := JobParts(source, environment, mode, env);
    assert SupportedMode(mode);
    hide *;
    JobReduced(source, environment, mode, env, prefix, kind);
    JobContextFacts(source, environment, mode, env, c, prefix, kind);
  }

  /** An accepted job is short enough, manual where needed, and seen through
      GitlabContext. */
  lemma JobReduced(source: Source, environment: string, mode: string, env: Env, prefix: string, kind: string)
    requires "CI" in env && FailoverContext(source, environment, mode, env).Accepted?
    requires SupportedMode(mode) && (kind == mode || (mode == "recover" && kind == "test"))
    requires Set(env, "CI_JOB_NAME", prefix + "-haproxy-failover-" + kind)
    ensures 1 <= |prefix| <= (if mode == "plan" then 106 else 102)
    ensures mode == "plan" || Set(env, "CI_JOB_MANUAL", "true")
    ensures FailoverContext(source, environment, mode, env) == GitlabContext(source, environment, prefix, env)
  {
    assert JobEnv(env, prefix, kind) == env;
    hide FailoverContext, GitlabContext, JobEnv;
    if mode != "plan" && Get(env, "CI_JOB_MANUAL") != "true" {
      ManualNeeded(source, environment, mode, env);
    }
    if prefix == "" || |prefix| + (if mode == "plan" then 22 else 26) > 128 {
      LongJobRefused(source, environment, mode, kind, prefix, env);
    }
    ModeContext(source, environment, mode, kind, prefix, env);
  }

  lemma JobContextFacts(source: Source, environment: string, mode: string, env: Env, c: Context, prefix: string,
                        kind: string)
    requires SupportedMode(mode) && (kind == mode || (mode == "recover" && kind == "test"))
    requires Set(env, "CI_JOB_NAME", prefix + "-haproxy-failover-" + kind)
    requires 1 <= |prefix| <= (if mode == "plan" then 106 else 102)
    requires mode == "plan" || Set(env, "CI_JOB_MANUAL", "true")
    requires GitlabContext(source, environment, prefix, env) == Accepted(c)
    ensures FailoverJobContext(c, source, environment, mode, env, prefix, kind)
    ensures ValidSource(source) && IsName(environment, 64)
  {
    hide GitlabContext, NAME_CHARS, Over, PipelineVariables, IdentityVariables, IsName, NameChars,
      ProtectedWebPipeline, IsPositive, IsPinnedImage, ValidSource, ValidContext, ContextValue;
    GitlabContextIs(source, environment, prefix, env);
    ContextSource(c);
    PipelineExactly(env, source.privateSha);
    IdentityExactly(env);
    IdentityPresent(env);
    NameExactly(prefix, 106);
  }

  lemma IdentityPresent(env: Env)
    requires IdentityVariables(env)
    ensures "CI_PROJECT_ID" in env && "CI_PIPELINE_ID" in env && "CI_JOB_IMAGE" in env
  {
  }

  lemma ContextSource(c: Context)
    requires ValidContext(ContextValue(c))
    ensures ValidSource(c.source)
  {
    ContextFields(c);
    hide ContextValue, IsHex, IsInventoryName, IsName, IsPositive, IsPinnedImage, IsPlanJob;
  }

  lemma JobParts(source: Source, environment: string, mode: string, env: Env) returns (prefix: string, kind: string)
    requires "CI" in env && FailoverContext(source, environment, mode, env).Accepted?
    ensures SupportedMode(mode) && (kind == mode || (mode == "recover" && kind == "test"))
    ensures Set(env, "CI_JOB_NAME", prefix + "-haproxy-failover-" + kind)
  {
    hide CurrentContext, CheckedContext;
    var name := Get(env, "CI_JOB_NAME");
    var suffix := ExpectedSuffix(mode, name);
    kind := if mode == "recover" && EndsWith(name, "-haproxy-failover-test") then "test" else mode;
    prefix := name[..|name| - |suffix|];
    assert suffix == "-haproxy-failover-" + kind;
    assert name == prefix + suffix;
    assert name == prefix + "-haproxy-failover-" + kind;
  }
}

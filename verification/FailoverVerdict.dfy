/** Shape of a failover plan and the verdicts that authorise a fault or a
    recovery (plugins/module_utils/platform_openbao_failover_plan.py and
    plugins/action/openbao_failover_plan.py). */
module FailoverVerdict {
  import opened Text
  import opened Patterns
  import opened CanonicalJson
  import opened A = ActivationPlan
  import opened F = FailoverPlan

  /** [A-Za-z0-9_][A-Za-z0-9_.-]{0,252} */
  predicate IsHostName(s: string) {
    1 <= |s| <= 253 && NameChars(s) && s[0] != '.' && s[0] != '-'
  }

  /** The names in a list value, if all its elements are strings. */
  function NamesOf(v: Value): Option<seq<string>> {
    if v.List? && forall i :: 0 <= i < |v.elems| ==> v.elems[i].Str? then
      Some(seq(|v.elems|, i requires 0 <= i < |v.elems| => v.elems[i].s))
    else None
  }

  lemma NamesOfHosts(hosts: seq<string>)
    ensures NamesOf(HostsValue(hosts)) == Some(hosts)
  {
    var v := HostsValue(hosts);
    assert forall i :: 0 <= i < |hosts| ==> v.elems[i] == Str(hosts[i]);
    assert NamesOf(v).value == hosts;
  }

  /** Exactly three distinct sorted host names, and nonempty evidence. */
  predicate ValidHosts(hosts: seq<string>) {
    && |hosts| == 3 && |Elements(hosts)| == 3 && hosts == Sorted(Elements(hosts))
    && forall i :: 0 <= i < |hosts| ==> IsHostName(hosts[i])
  }

  predicate ValidHeader(m: Fields)
    requires m.Keys == FAILOVER_KEYS
  {
    && m["schema"] == Int(1) && m["operation"] == Str(OPERATION) && m["service"] == Str("haproxy.service")
    && HexField(m["plan_id"], 32) && HexField(m["nonce"], 32)
    && m["created"].Int? && m["expires"].Int? && m["created"].n >= 0
    && m["expires"].n - m["created"].n == TTL
  }

  predicate ValidBaseline(m: Fields)
    requires m.Keys == FAILOVER_KEYS
  {
    && NamesOf(m["hosts"]).Some? && ValidHosts(NamesOf(m["hosts"]).value)
    && m["owner"] in m["hosts"].elems
    && m["evidence"].Dict? && m["evidence"].members != map[]
  }

  predicate ValidShape(h: Hash, plan: Value) {
    && plan.Dict? && plan.members.Keys == FAILOVER_KEYS
    && ValidHeader(plan.members) && ValidBaseline(plan.members)
    && ValidContext(plan.members["context"])
    && |Canonical(plan)| <= MAX_BYTES
    && plan.members["digest"] == Str(Digest(h, plan.members))
  }

  function WithoutPipeline(context: Value): Value {
    if context.Dict? then Dict(context.members - {"pipeline"}) else context
  }

  function Validate(h: Hash, plan: Value, mode: string, hosts: seq<string>, context: Value,
                    owner: Value, evidence: Value, now: int): Outcome<Value>
  {
    if !ValidShape(h, plan) then Refused(InvalidShape)
    else if !ValidContext(context) then Refused(InvalidContext)
    else if mode != "test" && mode != "recover" then Refused(UnsupportedRequest)
    else
      var m := plan.members;
      if mode == "test" && now >= m["expires"].n then Refused(PlanExpired)
      else if mode == "test" && now < m["created"].n then Refused(PlanNotYetValid)
      else if mode == "test" && Canonical(owner) != Canonical(m["owner"]) then Refused(VipOwnerChanged)
      else if mode == "test" && Canonical(evidence) != Canonical(m["evidence"]) then Refused(BaselineChanged)
      else
        var original := if mode == "recover" then WithoutPipeline(m["context"]) else m["context"];
        var current := if mode == "recover" then WithoutPipeline(context) else context;
        if Canonical(HostsValue(hosts)) != Canonical(m["hosts"]) || Canonical(current) != Canonical(original) then
          Refused(IdentityChanged)
        else Accepted(plan)
  }

  // ------------------------------------------------------------- properties

  predicate SameButPipeline(a: Value, b: Value)
    requires ValidContext(a) && ValidContext(b)
  {
    forall k :: k in CONTEXT_KEYS && k != "pipeline" ==> a.members[k] == b.members[k]
  }

  lemma PipelineRest(a: Value, b: Value)
    requires ValidContext(a) && ValidContext(b)
    ensures WithoutPipeline(a) == WithoutPipeline(b) <==> SameButPipeline(a, b)
    ensures a == b <==> SameButPipeline(a, b) && a.members["pipeline"] == b.members["pipeline"]
  {
    var m, n := a.members, b.members;
    var x, y := m - {"pipeline"}, n - {"pipeline"};
    assert m.Keys == n.Keys == CONTEXT_KEYS;
    assert "pipeline" in CONTEXT_KEYS;
    if SameButPipeline(a, b) {
      assert x == y;
      if m["pipeline"] == n["pipeline"] { assert m == n; }
    }
    if x == y {
      forall k | k in CONTEXT_KEYS && k != "pipeline" ensures m[k] == n[k] {
        assert x[k] == y[k];
      }
    }
  }

  /** Recovery is accepted exactly for a well-formed plan with the same hosts
      and the same context apart from the pipeline. */
  lemma RecoverExactly(h: Hash, plan: Value, hosts: seq<string>, context: Value, owner: Value, evidence: Value,
                       now: int)
    ensures Validate(h, plan, "recover", hosts, context, owner, evidence, now).Accepted? <==>
            && ValidShape(h, plan) && ValidContext(context)
            && plan.members["hosts"] == HostsValue(hosts)
            && SameButPipeline(plan.members["context"], context)
  {
    hide ValidContext, ValidHeader, ValidBaseline, HostsValue, Canonical, WithoutPipeline, Digest;
    if ValidShape(h, plan) && ValidContext(context) {
      var m := plan.members;
      CanonicalInjective(HostsValue(hosts), m["hosts"]);
      CanonicalInjective(WithoutPipeline(context), WithoutPipeline(m["context"]));
      PipelineRest(m["context"], context);
    }
  }

  /** A fault is authorised exactly when recovery would be and, in addition, the
      time window, the owner, the baseline evidence and the pipeline match. */
  lemma TestIsRecoverPlus(h: Hash, plan: Value, hosts: seq<string>, context: Value, owner: Value, evidence: Value,
                          now: int)
    ensures Validate(h, plan, "test", hosts, context, owner, evidence, now).Accepted? <==>
            && Validate(h, plan, "recover", hosts, context, owner, evidence, now).Accepted?
            && plan.members["created"].n <= now < plan.members["created"].n + 1800
            && plan.members["owner"] == owner && plan.members["evidence"] == evidence
            && plan.members["context"].members["pipeline"] == context.members["pipeline"]
  {
    RecoverExactly(h, plan, hosts, context, owner, evidence, now);
    hide ValidContext, ValidBaseline, HostsValue, Canonical, WithoutPipeline, Digest, SameButPipeline;
    if ValidShape(h, plan) && ValidContext(context) {
      var m := plan.members;
      CanonicalInjective(owner, m["owner"]);
      CanonicalInjective(evidence, m["evidence"]);
      CanonicalInjective(HostsValue(hosts), m["hosts"]);
      CanonicalInjective(context, m["context"]);
      PipelineRest(m["context"], context);
    }
  }

  /** Recovery does not depend on time, owner, evidence or pipeline. */
  lemma RecoverIndependent(h: Hash, plan: Value, hosts: seq<string>,
                           context: Value, owner: Value, evidence: Value, now: int,
                           context': Value, owner': Value, evidence': Value, now': int)
    requires ValidContext(context) && ValidContext(context') && SameButPipeline(context, context')
    ensures Validate(h, plan, "recover", hosts, context, owner, evidence, now) ==
            Validate(h, plan, "recover", hosts, context', owner', evidence', now')
  {
    hide ValidContext, ValidShape, HostsValue, Canonical;
    PipelineRest(context, context');
    hide WithoutPipeline;
  }

  /** No mode accepts a plan across lanes, environments, projects, images or
      revisions. */
  lemma NeverAcrossLanes(h: Hash, plan: Value, mode: string, hosts: seq<string>, context: Value,
                         owner: Value, evidence: Value, now: int)
    requires Validate(h, plan, mode, hosts, context, owner, evidence, now).Accepted?
    ensures ValidShape(h, plan) && ValidContext(context) && SameButPipeline(plan.members["context"], context)
    ensures plan.members["context"].members["lane"] == context.members["lane"]
  {
    RecoverExactly(h, plan, hosts, context, owner, evidence, now);
    TestIsRecoverPlus(h, plan, hosts, context, owner, evidence, now);
    assert mode == "test" || mode == "recover";
    assert "lane" in CONTEXT_KEYS && "lane" != "pipeline";
  }

  /** Two well-formed plans with the same digest are the same plan, unless their
      canonical texts collide. */
  lemma SameDigestSamePlan(h: Hash, a: Value, b: Value)
    requires ValidShape(h, a) && ValidShape(h, b)
    requires a.members["digest"] == b.members["digest"]
    ensures a == b || Collision(h, a.members, b.members)
  {
    DigestDeterminesFields(h, a.members, b.members);
  }

  // ------------------------------------------------------- shape, spelled out

  /** 1 to 253 name characters, the first neither a dot nor a dash. */
  predicate HostName(s: string) {
    1 <= |s| <= 253 && Over(s, NAME_CHARS) && s[0] !in {'.', '-'}
  }

  lemma HostNameExactly(s: string)
    ensures IsHostName(s) <==> HostName(s)
  {
    NameExactly(s, 253);
    hide NameChars, Over, NAME_CHARS;
  }

  /** Three host names, each before the next in code-point order. */
  ghost predicate ThreeHosts(hosts: seq<string>) {
    && |hosts| == 3 && HostName(hosts[0]) && HostName(hosts[1]) && HostName(hosts[2])
    && Before(hosts[0], hosts[1]) && Before(hosts[1], hosts[2])
  }

  lemma ThreeHostsExactly(hosts: seq<string>)
    ensures ValidHosts(hosts) <==> ThreeHosts(hosts)
  {
    hide IsHostName, HostName, Before, Sorted;
    var evidence := Dict(map["" := Null]);
    assert "" in evidence.members;
    BindableExactly(hosts, evidence);
    forall i | 0 <= i < |hosts| ensures IsHostName(hosts[i]) <==> HostName(hosts[i]) { HostNameExactly(hosts[i]); }
  }

  ghost predicate HeaderFacts(m: Fields)
    requires m.Keys == FAILOVER_KEYS
  {
    && m["schema"] == Int(1) && m["operation"] == Str("haproxy-failover") && m["service"] == Str("haproxy.service")
    && m["plan_id"].Str? && |m["plan_id"].s| == 32 && Over(m["plan_id"].s, HEX_DIGITS)
    && m["nonce"].Str? && |m["nonce"].s| == 32 && Over(m["nonce"].s, HEX_DIGITS)
    && exists created: nat :: Lives(m, created)
  }

  ghost predicate BaselineFacts(m: Fields, hosts: seq<string>)
    requires m.Keys == FAILOVER_KEYS
  {
    && ThreeHosts(hosts) && m["hosts"] == List([Str(hosts[0]), Str(hosts[1]), Str(hosts[2])])
    && (m["owner"] == Str(hosts[0]) || m["owner"] == Str(hosts[1]) || m["owner"] == Str(hosts[2]))
    && m["evidence"].Dict? && |m["evidence"].members| > 0
  }

  lemma HeaderExactly(m: Fields)
    requires m.Keys == FAILOVER_KEYS
    ensures ValidHeader(m) <==> HeaderFacts(m)
  {
    hide IsHex, Over, HEX_DIGITS;
    if m["plan_id"].Str? { HexExactly(m["plan_id"].s, 32); }
    if m["nonce"].Str? { HexExactly(m["nonce"].s, 32); }
    if ValidHeader(m) { assert Lives(m, m["created"].n); }
  }

  lemma BaselineExactly(m: Fields)
    requires m.Keys == FAILOVER_KEYS
    ensures ValidBaseline(m) <==> exists hosts :: BaselineFacts(m, hosts)
  {
    hide ValidHosts, ThreeHosts, NamesOf;
    if ValidBaseline(m) {
      var hosts := NamesOf(m["hosts"]).value;
      ThreeHostsExactly(hosts);
      ThreeIs(hosts);
      ThreeNames(m["hosts"], hosts);
      assert BaselineFacts(m, hosts);
    }
    forall hosts | BaselineFacts(m, hosts) ensures ValidBaseline(m) {
      ThreeHostsExactly(hosts);
      ThreeIs(hosts);
      ThreeNames(m["hosts"], hosts);
    }
  }

  lemma ThreeNames(v: Value, hosts: seq<string>)
    requires |hosts| == 3
    ensures NamesOf(v) == Some(hosts) <==> v == List([Str(hosts[0]), Str(hosts[1]), Str(hosts[2])])
    ensures NamesOf(v) == Some(hosts) ==>
              v.List? && forall x :: x in v.elems <==> x == Str(hosts[0]) || x == Str(hosts[1]) || x == Str(hosts[2])
  {
    if NamesOf(v) == Some(hosts) {
      assert NamesOf(v).value[0] == v.elems[0].s && NamesOf(v).value[1] == v.elems[1].s;
      assert NamesOf(v).value[2] == v.elems[2].s;
      assert v.elems == [Str(hosts[0]), Str(hosts[1]), Str(hosts[2])];
    }
    if v == List([Str(hosts[0]), Str(hosts[1]), Str(hosts[2])]) {
      assert NamesOf(v).value == hosts;
    }
  }

  lemma ThreeIs(hosts: seq<string>)
    requires ThreeHosts(hosts)
    ensures |hosts| == 3
  {
  }

  /** What a well-formed failover plan is, field by field. */
  lemma ShapeExactly(h: Hash, plan: Value)
    ensures ValidShape(h, plan) <==>
            && plan.Dict?
            && var m := plan.members;
            && m.Keys == {"schema", "operation", "plan_id", "created", "expires", "hosts", "context", "evidence",
                          "digest", "owner", "service", "nonce"}
            && HeaderFacts(m) && (exists hosts :: BaselineFacts(m, hosts))
            && (exists c :: m["context"] == ContextValue(c) && ContextFacts(c))
            && |Canonical(plan)| <= 262144
            && m["digest"] == Str(h(Canonical(Dict(m - {"digest"}))))
  {
    hide HeaderFacts, BaselineFacts, ContextFacts, ContextValue, Canonical, ValidHeader, ValidBaseline, ValidContext;
    if plan.Dict? && plan.members.Keys == FAILOVER_KEYS {
      HeaderExactly(plan.members);
      BaselineExactly(plan.members);
      ValidContextExactly(plan.members["context"]);
    }
  }

  // --------------------------------------------------------------- approval

  function Route(mode: string): string {
    if mode == "recover" then "recover" else "test"
  }

  /** f"{route}-openbao-haproxy-failover|{owner}|{','.join(hosts)}|{digest}" */
  function Approval(mode: string, owner: string, hosts: seq<string>, digest: string): string {
    (Route(mode) + "-openbao-haproxy-failover") + "|" + (owner + "|" + (JoinWith(hosts, ",") + "|" + digest))
  }

  /** An approval names the route, the owner, the hosts and the digest. */
  lemma FailoverApprovalParts(mode: string, owner: string, hosts: seq<string>, digest: string)
    requires ThreeHosts(hosts) && owner in hosts && '|' !in digest
    ensures var parts := Split(Approval(mode, owner, hosts, digest), '|');
            && |parts| == 4
            && parts[0] == (if mode == "recover" then "recover" else "test") + "-openbao-haproxy-failover"
            && parts[1] == owner && Split(parts[2], ',') == hosts && parts[3] == digest
  {
    ThreeHostsExactly(hosts);
    hide JoinWith, Split, ThreeHosts, IsHostName;
    forall i | 0 <= i < |hosts| ensures '|' !in hosts[i] && ',' !in hosts[i] { HostNamePlain(hosts[i]); }
    NoBarInJoin(hosts);
    RoutePlain(mode);
    FourParts(Route(mode) + "-openbao-haproxy-failover", owner, JoinWith(hosts, ","), digest);
    SplitJoin(hosts, ',');
  }

  lemma FourParts(a: string, b: string, c: string, d: string)
    requires '|' !in a && '|' !in b && '|' !in c && '|' !in d
    ensures Split(a + "|" + (b + "|" + (c + "|" + d)), '|') == [a, b, c, d]
  {
    hide Split;
    SplitHead(a, b + "|" + (c + "|" + d), '|');
    SplitHead(b, c + "|" + d, '|');
    SplitHead(c, d, '|');
    SplitNone(d, '|');
  }

  lemma HostNamePlain(s: string)
    requires IsHostName(s)
    ensures '|' !in s && ',' !in s
  {
    assert forall i :: 0 <= i < |s| ==> NameChar(s[i]);
  }

  /** Equal texts cut at the first bar have equal heads and tails. */
  lemma CutAtBar(a: string, b: string, c: string, d: string)
    requires '|' !in a && '|' !in c && a + "|" + b == c + "|" + d
    ensures a == c && b == d
  {
    SplitHead(a, b, '|');
    SplitHead(c, d, '|');
    assert ([a] + Split(b, '|'))[0] == a && ([c] + Split(d, '|'))[0] == c;
    assert b == (a + "|" + b)[|a| + 1..] && d == (c + "|" + d)[|c| + 1..];
  }

  lemma RoutePlain(mode: string)
    ensures '|' !in Route(mode) + "-openbao-haproxy-failover"
    ensures (Route(mode) + "-openbao-haproxy-failover")[0] == 'r' <==> mode == "recover"
  {
  }

  /** An approval string determines the route, the owner, the hosts and, unless
      two canonical texts collide, the whole plan. */
  lemma ApprovalBindsPlan(h: Hash, a: Value, modeA: string, ownerA: string, hostsA: seq<string>,
                          b: Value, modeB: string, ownerB: string, hostsB: seq<string>)
    requires ValidShape(h, a) && ValidShape(h, b)
    requires a.members["owner"] == Str(ownerA) && a.members["hosts"] == HostsValue(hostsA)
    requires b.members["owner"] == Str(ownerB) && b.members["hosts"] == HostsValue(hostsB)
    requires Approval(modeA, ownerA, hostsA, a.members["digest"].s) ==
             Approval(modeB, ownerB, hostsB, b.members["digest"].s)
    ensures ownerA == ownerB && hostsA == hostsB && Route(modeA) == Route(modeB)
    ensures a == b || Collision(h, a.members, b.members)
  {
    PlainBaseline(h, a, ownerA, hostsA);
    PlainBaseline(h, b, ownerB, hostsB);
    RoutePlain(modeA);
    RoutePlain(modeB);
    var x, y := a.members["digest"].s, b.members["digest"].s;
    var p, q := JoinWith(hostsA, ","), JoinWith(hostsB, ",");
    CutAtBar(Route(modeA) + "-openbao-haproxy-failover", ownerA + "|" + (p + "|" + x),
             Route(modeB) + "-openbao-haproxy-failover", ownerB + "|" + (q + "|" + y));
    CutAtBar(ownerA, p + "|" + x, ownerB, q + "|" + y);
    CutAtBar(p, x, q, y);
    SplitJoin(hostsA, ',');
    SplitJoin(hostsB, ',');
    SameDigestSamePlan(h, a, b);
  }

  lemma PlainBaseline(h: Hash, plan: Value, owner: string, hosts: seq<string>)
    requires ValidShape(h, plan) && plan.members["owner"] == Str(owner) && plan.members["hosts"] == HostsValue(hosts)
    ensures hosts != [] && '|' !in owner && '|' !in JoinWith(hosts, ",")
    ensures forall i :: 0 <= i < |hosts| ==> ',' !in hosts[i]
  {
    hide ValidContext, ValidHeader, Canonical, Digest;
    NamesOfHosts(hosts);
    forall i | 0 <= i < |hosts| ensures '|' !in hosts[i] && ',' !in hosts[i] { HostNamePlain(hosts[i]); }
    NoBarInJoin(hosts);
    var elems := HostsValue(hosts).elems;
    var i :| 0 <= i < |elems| && elems[i] == Str(owner);
    assert owner == hosts[i];
  }

  /** The same for plans as the action returns them: accepted for these hosts,
      in whatever modes, contexts and at whatever times. */
  lemma AcceptedApprovalBindsPlan(h: Hash, a: Value, modeA: string, hostsA: seq<string>, contextA: Value,
                                  ownA: Value, evidenceA: Value, nowA: int,
                                  b: Value, modeB: string, hostsB: seq<string>, contextB: Value,
                                  ownB: Value, evidenceB: Value, nowB: int)
    requires Validate(h, a, modeA, hostsA, contextA, ownA, evidenceA, nowA).Accepted?
    requires Validate(h, b, modeB, hostsB, contextB, ownB, evidenceB, nowB).Accepted?
    ensures a.members["owner"].Str? && b.members["owner"].Str?
    ensures Approval(modeA, a.members["owner"].s, hostsA, a.members["digest"].s) ==
            Approval(modeB, b.members["owner"].s, hostsB, b.members["digest"].s) ==>
            && hostsA == hostsB && Route(modeA) == Route(modeB)
            && a.members["owner"] == b.members["owner"] && (a == b || Collision(h, a.members, b.members))
  {
    AcceptedBaseline(h, a, modeA, hostsA, contextA, ownA, evidenceA, nowA);
    AcceptedBaseline(h, b, modeB, hostsB, contextB, ownB, evidenceB, nowB);
    hide Validate, ValidShape, HostsValue, Approval, Route, Collision;
    if Approval(modeA, a.members["owner"].s, hostsA, a.members["digest"].s) ==
       Approval(modeB, b.members["owner"].s, hostsB, b.members["digest"].s) {
      ApprovalBindsPlan(h, a, modeA, a.members["owner"].s, hostsA, b, modeB, b.members["owner"].s, hostsB);
    }
  }

  lemma OwnerIsName(h: Hash, plan: Value)
    requires ValidShape(h, plan)
    ensures plan.members["owner"].Str? && plan.members["digest"].Str?
  {
    hide ValidHeader, ValidContext, ValidHosts, Canonical, Digest;
    assert plan.members["owner"] in plan.members["hosts"].elems;
  }

  lemma AcceptedBaseline(h: Hash, plan: Value, mode: string, hosts: seq<string>, context: Value,
                         owner: Value, evidence: Value, now: int)
    requires Validate(h, plan, mode, hosts, context, owner, evidence, now).Accepted?
    ensures ValidShape(h, plan) && plan.members["hosts"] == HostsValue(hosts)
    ensures plan.members["owner"].Str? && plan.members["digest"].Str?
  {
    hide ValidHeader, ValidBaseline, ValidContext, HostsValue, Canonical, Digest, WithoutPipeline;
    OwnerIsName(h, plan);
    CanonicalInjective(HostsValue(hosts), plan.members["hosts"]);
  }
}

/**
The target-side access policy (`access_policy.rs`): rules as written, the compiled form that
decides requests, and the meaning that both share.
*/
module AccessPolicy {
  import opened Basics
  import opened Ipv4
  import opened Text
  import Decimal

  datatype Target = ThisPeer | Ip(ip: IpAddr) | Cidr(text: string) | Host(name: string)

  type PortNumber = p: nat | p < 65536

  datatype Port = AnyPort | Exact(number: PortNumber)

  datatype Protocol = Tcp | Udp

  datatype Rule = Rule(target: Target, protocol: Protocol, port: Port)

  datatype Policy = Policy(allow: seq<Rule>, deny: seq<Rule>)

  datatype TargetClass = OwnPeer(ownOverlay: Address) | Other(requestedHost: string)

  datatype Request = Request(kind: TargetClass, protocol: Protocol, ip: IpAddr, port: PortNumber)

  datatype Decision = AllowDirect | AllowThisPeer(finalTarget: string) | Deny

  // ---- Reading addresses and hosts ----

  /** The standard library's address parsers, of which only these facts are used. */
  datatype Parsers = Parsers(v4: string -> Option<Address>, v6: string -> Option<Address6>)

  predicate Standard(ps: Parsers)
  {
    ps.v4("0.0.0.0") == Some(0) && ps.v4("::") == None && ps.v6("::") == Some(0)
  }

  datatype Block = Block(ip: IpAddr, bits: nat)

  predicate BlockFits(b: Block)
  {
    b.bits <= match b.ip case V4(_) => 32 case V6(_) => 128
  }

  /** An address and a prefix length that fits its family. */
  function ReadCidr(ps: Parsers, text: string): (r: Option<Block>)
    ensures r.Some? ==> BlockFits(r.value)
  {
    match SplitOnce(text, '/')
    case None => None
    case Some((address, length)) =>
      match Decimal.ParseUnsigned(length, 255)
      case None => None
      case Some(bits) =>
        match ps.v4(address)
        case Some(ip) => if bits > 32 then None else Some(Block(V4(ip), bits))
        case None =>
          match ps.v6(address)
          case Some(ip) => if bits > 128 then None else Some(Block(V6(ip), bits))
          case None => None
  }

  function Lower(s: string): (r: string)
    ensures |r| == |s|
  {
    seq(|s|, i requires 0 <= i < |s| => if 'A' <= s[i] <= 'Z' then (s[i] as int + 32) as char else s[i])
  }

  function TrimDots(s: string): (r: string)
  {
    if s != "" && s[|s| - 1] == '.' then TrimDots(s[..|s| - 1]) else s
  }

  /** The form in which a requested host is compared. */
  function CanonicalHost(host: string): (r: string)
  {
    Lower(TrimDots(Trim(host)))
  }

  predicate EndsWith(s: string, suffix: string)
  {
    |suffix| <= |s| && s[|s| - |suffix|..] == suffix
  }

  predicate HostWellFormed(name: string)
  {
    var host := Lower(Trim(name));
    && host != "" && '/' !in host && ':' !in host && '\\' !in host
    && (forall i :: 0 <= i < |host| ==> !IsWhiteSpace(host[i]))
    && (if "*." <= host then host[2..] != "" && '*' !in host[2..] else '*' !in host)
  }

  // ---- What rules mean ----

  predicate AtOwnOverlay(req: Request)
  {
    req.kind.OwnPeer? && req.ip == V4(req.kind.ownOverlay)
  }

  /** The leading bits name a range, and the address lies in it. */
  predicate InRange(a: nat, base: nat, hostBits: nat)
  {
    var q := Shr(base, hostBits);
    Shl(q, hostBits) <= a < Shl(q + 1, hostBits)
  }

  predicate InBlock(b: Block, ip: IpAddr)
    requires BlockFits(b)
  {
    match (b.ip, ip)
    case (V4(base), V4(a)) => InRange(a, base, 32 - b.bits)
    case (V6(base), V6(a)) => InRange(a, base, 128 - b.bits)
    case _ => false
  }

  /** The labels of `suffix` are the last labels of `host`. */
  predicate AtOrBelow(host: string, suffix: string)
  {
    var labels, last := Split(host, '.'), Split(suffix, '.');
    |last| <= |labels| && labels[|labels| - |last|..] == last
  }

  /**
  `*.suffix` covers the suffix and every host below it, and any other name the host of that name.
  Requested hosts lose their trailing dots and names in rules do not, so a name that ends in a dot
  covers nothing.
  */
  predicate HostCovers(name: string, requested: string)
  {
    var pattern, host := Lower(Trim(name)), CanonicalHost(requested);
    if "*." <= pattern then AtOrBelow(host, pattern[2..]) else host == pattern
  }

  predicate TargetCovers(ps: Parsers, target: Target, req: Request)
  {
    match target
    case ThisPeer => AtOwnOverlay(req)
    case Ip(ip) => req.ip == ip
    case Cidr(text) => ReadCidr(ps, text).Some? && InBlock(ReadCidr(ps, text).value, req.ip)
    case Host(name) => req.kind.Other? && HostCovers(name, req.kind.requestedHost)
  }

  predicate Covers(ps: Parsers, rule: Rule, req: Request)
  {
    && rule.protocol == req.protocol
    && (rule.port == AnyPort || rule.port == Exact(req.port))
    && TargetCovers(ps, rule.target, req)
  }

  predicate AnyCovers(ps: Parsers, rules: seq<Rule>, req: Request)
  {
    exists rule :: rule in rules && Covers(ps, rule, req)
  }

  /** An allow list is a gate once it names anything but this Peer. */
  predicate IsGate(allow: seq<Rule>)
  {
    exists rule :: rule in allow && rule.target != ThisPeer
  }

  /** The first covering rule of the list is a mapping of this Peer. */
  predicate ThisPeerFirst(ps: Parsers, allow: seq<Rule>, req: Request)
  {
    allow != [] &&
    if Covers(ps, allow[0], req) then allow[0].target == ThisPeer else ThisPeerFirst(ps, allow[1..], req)
  }

  /** What the policy says about a request. */
  function Meaning(ps: Parsers, p: Policy, req: Request): (d: Decision)
  {
    if AnyCovers(ps, p.deny, req) then Deny
    else if AtOwnOverlay(req) then
      if ThisPeerFirst(ps, p.allow, req) then AllowThisPeer("127.0.0.1:" + Decimal.Print(req.port)) else Deny
    else if IsGate(p.allow) && !AnyCovers(ps, p.allow, req) then Deny
    else AllowDirect
  }

  // ---- The compiled form ----

  datatype HostPattern = ExactHost(name: string) | Suffix(suffix: string)

  datatype IpCidr = CidrV4(base4: Address, bits4: nat) | CidrV6(base6: Address6, bits6: nat)

  datatype CompiledTarget = OnThisPeer | OnIp(ip: IpAddr) | OnCidr(cidr: IpCidr) | OnHost(pattern: HostPattern)

  datatype CompiledRule = CompiledRule(target: CompiledTarget, protocol: Protocol, port: Port)

  datatype Compiled = Compiled(allowIsGate: bool, allow: seq<CompiledRule>, deny: seq<CompiledRule>)

  datatype RuleList = AllowList | DenyList

  datatype Reason = ZeroPort | InvalidCidr | InvalidHostPattern | InvalidHostSuffix | OnlySuffixWildcard

  datatype PolicyError = InvalidRule(list: RuleList, index: nat, reason: Reason)

  function Masked6(a: Address6, bits: nat): (r: Address6)
    requires bits <= 128
  {
    ShrBlock(a, Shr(a, 128 - bits), 128 - bits);
    Shl(Shr(a, 128 - bits), 128 - bits)
  }

  function CompileCidr(ps: Parsers, text: string): (r: Option<IpCidr>)
  {
    match ReadCidr(ps, text)
    case None => None
    case Some(Block(V4(ip), bits)) => Some(CidrV4(Masked(ip, bits), bits))
    case Some(Block(V6(ip), bits)) => Some(CidrV6(Masked6(ip, bits), bits))
  }

  function CompileTarget(ps: Parsers, target: Target): (r: Result<CompiledTarget, Reason>)
  {
    match target
    case ThisPeer => Ok(OnThisPeer)
    case Ip(ip) => Ok(OnIp(ip))
    case Cidr(text) => (match CompileCidr(ps, text) case None => Err(InvalidCidr) case Some(cidr) => Ok(OnCidr(cidr)))
    case Host(name) =>
      var host := Lower(Trim(name));
      if host == "" || '/' in host || ':' in host || '\\' in host ||
         exists i :: 0 <= i < |host| && IsWhiteSpace(host[i])
      then Err(InvalidHostPattern)
      else if "*." <= host then
        if host[2..] == "" || '*' in host[2..] then Err(InvalidHostSuffix) else Ok(OnHost(Suffix(host[2..])))
      else
        if '*' in host then Err(OnlySuffixWildcard) else Ok(OnHost(ExactHost(host)))
  }

  function CompileRule(ps: Parsers, rule: Rule): (r: Result<CompiledRule, Reason>)
  {
    if rule.port == Exact(0) then Err(ZeroPort) else
      match CompileTarget(ps, rule.target)
      case Err(reason) => Err(reason)
      case Ok(target) => Ok(CompiledRule(target, rule.protocol, rule.port))
  }

  function CompileRules(ps: Parsers, list: RuleList, rules: seq<Rule>): (r: Result<seq<CompiledRule>, PolicyError>)
  {
    if rules == [] then Ok([]) else
      var last := |rules| - 1;
      match CompileRules(ps, list, rules[..last])
      case Err(e) => Err(e)
      case Ok(before) =>
        match CompileRule(ps, rules[last])
        case Err(reason) => Err(InvalidRule(list, last, reason))
        case Ok(rule) => Ok(before + [rule])
  }

  function Compile(ps: Parsers, p: Policy): (r: Result<Compiled, PolicyError>)
  {
    match CompileRules(ps, AllowList, p.allow)
    case Err(e) => Err(e)
    case Ok(allow) =>
      match CompileRules(ps, DenyList, p.deny)
      case Err(e) => Err(e)
      case Ok(deny) => Ok(Compiled(exists rule :: rule in allow && rule.target != OnThisPeer, allow, deny))
  }

  predicate CidrContains(c: IpCidr, ip: IpAddr)
    requires c.CidrV4? ==> c.bits4 <= 32
    requires c.CidrV6? ==> c.bits6 <= 128
  {
    match (c, ip)
    case (CidrV4(base, bits), V4(a)) => Masked(a, bits) == base
    case (CidrV6(base, bits), V6(a)) => Masked6(a, bits) == base
    case _ => false
  }

  predicate PatternMatches(pattern: HostPattern, requested: string)
  {
    var host := CanonicalHost(requested);
    match pattern
    case ExactHost(name) => host == name
    case Suffix(suffix) => host == suffix || EndsWith(host, "." + suffix)
  }

  predicate WellSized(rule: CompiledRule)
  {
    rule.target.OnCidr? ==>
      match rule.target.cidr case CidrV4(_, bits) => bits <= 32 case CidrV6(_, bits) => bits <= 128
  }

  predicate Matches(rule: CompiledRule, req: Request)
    requires WellSized(rule)
  {
    if rule.protocol != req.protocol || (rule.port != AnyPort && rule.port != Exact(req.port)) then false
    else
      match rule.target
      case OnThisPeer => req.kind.OwnPeer? && req.ip == V4(req.kind.ownOverlay)
      case OnIp(ip) => req.ip == ip
      case OnCidr(cidr) => CidrContains(cidr, req.ip)
      case OnHost(pattern) => req.kind.Other? && PatternMatches(pattern, req.kind.requestedHost)
  }

  predicate AllWellSized(rules: seq<CompiledRule>)
  {
    forall i :: 0 <= i < |rules| ==> WellSized(rules[i])
  }

  predicate AnyMatches(rules: seq<CompiledRule>, req: Request)
    requires AllWellSized(rules)
  {
    exists i :: 0 <= i < |rules| && Matches(rules[i], req)
  }

  function FirstMatch(rules: seq<CompiledRule>, req: Request): (r: Option<CompiledRule>)
    requires AllWellSized(rules)
    ensures r.Some? <==> AnyMatches(rules, req)
  {
    if rules == [] then None
    else if Matches(rules[0], req) then Some(rules[0])
    else
      assert forall i :: 0 < i < |rules| ==> rules[i] == rules[1..][i - 1];
      FirstMatch(rules[1..], req)
  }

  function Decide(c: Compiled, req: Request): (d: Decision)
    requires AllWellSized(c.allow) && AllWellSized(c.deny)
  {
    if AnyMatches(c.deny, req) then Deny
    else
      var matching := FirstMatch(c.allow, req);
      if c.allowIsGate && matching.None? then Deny
      else if req.kind.OwnPeer? && req.ip == V4(req.kind.ownOverlay) then
        if matching.Some? && matching.value.target == OnThisPeer
        then AllowThisPeer("127.0.0.1:" + Decimal.Print(req.port)) else Deny
      else AllowDirect
  }

  predicate MappedFinalAllowed(c: Compiled, protocol: Protocol, finalHost: string, ip: IpAddr, port: PortNumber)
    requires AllWellSized(c.deny)
  {
    !AnyMatches(c.deny, Request(Other(finalHost), protocol, ip, port))
  }

  /** `deny_all`: a gate that nothing satisfies. */
  const DENY_ALL := Compiled(true, [], [])

  // ---- Compilation keeps the meaning ----

  predicate RuleWellFormed(ps: Parsers, rule: Rule)
  {
    && rule.port != Exact(0)
    && (rule.target.Cidr? ==> ReadCidr(ps, rule.target.text).Some?)
    && (rule.target.Host? ==> HostWellFormed(rule.target.name))
  }

  // A rule compiles exactly when it is well formed.
  lemma CompileRuleExactly(ps: Parsers, rule: Rule)
    ensures CompileRule(ps, rule).Ok? <==> RuleWellFormed(ps, rule)
    ensures CompileRule(ps, rule).Ok? ==>
              WellSized(CompileRule(ps, rule).value) &&
              (CompileRule(ps, rule).value.target == OnThisPeer <==> rule.target == ThisPeer)
  {
    hide Trim, Lower, SplitOnce, Decimal.ParseUnsigned, Masked, Masked6;
  }

  // The compiled rule matches exactly the requests the written rule covers.
  lemma CompiledRuleMeans(ps: Parsers, rule: Rule, req: Request)
    requires CompileRule(ps, rule).Ok?
    ensures WellSized(CompileRule(ps, rule).value)
    ensures Matches(CompileRule(ps, rule).value, req) <==> Covers(ps, rule, req)
  {
    hide Trim, Lower, ReadCidr, InBlock, CidrContains, CompileCidr, CanonicalHost, AtOrBelow, EndsWith;
    CompileRuleExactly(ps, rule);
    match rule.target
    case Cidr(text) => CompiledCidrMeans(ps, text, req.ip);
    case Host(name) =>
      var host := Lower(Trim(name));
      if "*." <= host && req.kind.Other? {
        BelowByText(CanonicalHost(req.kind.requestedHost), host[2..]);
      }
    case _ =>
  }

  // The text test for a suffix compares whole labels.
  lemma BelowByText(host: string, suffix: string)
    ensures AtOrBelow(host, suffix) <==> host == suffix || EndsWith(host, "." + suffix)
  {
    hide Split, Join;
    var labels, last := Split(host, '.'), Split(suffix, '.');
    JoinOfSplit(host, '.');
    JoinOfSplit(suffix, '.');
    if AtOrBelow(host, suffix) {
      var first := labels[..|labels| - |last|];
      assert labels == first + last;
      if first != [] {
        JoinOfBoth(first, '.', last);
        assert host == Join(first, '.') + ("." + suffix);
      } else {
        assert labels == last;
      }
    }
    if EndsWith(host, "." + suffix) {
      var head := host[..|host| - |suffix| - 1];
      assert host == head + ("." + suffix) == head + ['.'] + suffix;
      SplitOfBoth(head, '.', suffix);
    }
  }

  // ---- Rules that can match ----

  lemma {:induction false} TrimDotsLeaves(s: string)
    ensures var r := TrimDots(s); r == "" || r[|r| - 1] != '.'
  {
    if s != "" && s[|s| - 1] == '.' {
      TrimDotsLeaves(s[..|s| - 1]);
    }
  }

  lemma CanonicalHasNoDot(requested: string)
    ensures var host := CanonicalHost(requested); host == "" || host[|host| - 1] != '.'
  {
    hide Trim, TrimDots;
    TrimDotsLeaves(Trim(requested));
  }

  // A well-formed name is its own canonical form, unless it ends in a dot.
  lemma CanonicalStays(host: string)
    requires host != "" && host[|host| - 1] != '.' && Lower(host) == host
    requires forall i :: 0 <= i < |host| ==> !IsWhiteSpace(host[i])
    ensures CanonicalHost(host) == host
  {
    hide IsWhiteSpace, Lower;
    NothingToTrim(IsWhiteSpace, host);
  }

  lemma LowerTwice(s: string)
    ensures Lower(Lower(s)) == Lower(s)
  {
  }

  // A well-formed host rule covers some request exactly when its name does not end in a dot.
  lemma HostRuleLives(name: string)
    requires HostWellFormed(name)
    ensures (exists requested :: HostCovers(name, requested)) <==>
            var host := Lower(Trim(name)); host[|host| - 1] != '.'
  {
    hide Trim, Lower, IsWhiteSpace, CanonicalHost, AtOrBelow, EndsWith;
    var host := Lower(Trim(name));
    if host[|host| - 1] != '.' {
      LowerTwice(Trim(name));
      var request := if "*." <= host then host[2..] else host;
      assert Lower(request) == request by { LowerTail(host); }
      CanonicalStays(request);
      BelowByText(request, request);
      assert HostCovers(name, request);
    } else {
      forall requested ensures !HostCovers(name, requested) {
        DeadName(host, CanonicalHost(requested));
        CanonicalHasNoDot(requested);
      }
    }
  }

  lemma LowerTail(host: string)
    requires Lower(host) == host
    ensures |host| >= 2 ==> Lower(host[2..]) == host[2..]
  {
    if |host| >= 2 {
      forall i | 0 <= i < |host[2..]| ensures Lower(host[2..])[i] == host[2..][i] {
        assert Lower(host)[i + 2] == host[i + 2];
      }
    }
  }

  lemma DeadName(pattern: string, host: string)
    requires pattern != "" && pattern[|pattern| - 1] == '.' && ("*." <= pattern ==> pattern[2..] != "")
    ensures (if "*." <= pattern then AtOrBelow(host, pattern[2..]) else host == pattern) ==>
              host != "" && host[|host| - 1] == '.'
  {
    hide AtOrBelow;
    if "*." <= pattern {
      BelowByText(host, pattern[2..]);
      var dotted := "." + pattern[2..];
      assert dotted[|dotted| - 1] == '.';
    }
  }

  // Such a rule is accepted and never matches, not even the name it spells.
  lemma DottedNameNeverMatches()
    ensures HostWellFormed("evil.com.") && forall requested :: !HostCovers("evil.com.", requested)
  {
    hide IsWhiteSpace, AtOrBelow, CanonicalHost;
    var name := "evil.com.";
    assert Trim(name) == name by { PlainText(name); }
    assert Lower(name) == name;
    assert forall i :: 0 <= i < |name| ==> !IsWhiteSpace(name[i]) by { PlainText(name); }
    HostRuleLives(name);
  }

  lemma PlainText(s: string)
    requires s != "" && forall i :: 0 <= i < |s| ==> '!' <= s[i] <= '~'
    ensures Trim(s) == s && forall i :: 0 <= i < |s| ==> !IsWhiteSpace(s[i])
  {
    NothingToTrim(IsWhiteSpace, s);
  }

  lemma CompiledCidrMeans(ps: Parsers, text: string, ip: IpAddr)
    requires CompileCidr(ps, text).Some?
    ensures ReadCidr(ps, text).Some?
    ensures var c := CompileCidr(ps, text).value;
            && (c.CidrV4? ==> c.bits4 <= 32) && (c.CidrV6? ==> c.bits6 <= 128)
            && (CidrContains(c, ip) <==> InBlock(ReadCidr(ps, text).value, ip))
  {
    hide ReadCidr, Masked, Masked6, InRange;
    match (ReadCidr(ps, text).value.ip, ip)
    case (V4(base), V4(a)) => MaskedIsRange(a, base, ReadCidr(ps, text).value.bits);
    case (V6(base), V6(a)) => Masked6IsRange(a, base, ReadCidr(ps, text).value.bits);
    case _ =>
  }

  lemma MaskedIsRange(a: Address, base: Address, bits: nat)
    requires bits <= 32
    ensures Masked(a, bits) == Masked(base, bits) <==> InRange(a, base, 32 - bits)
  {
    BlockIsInterval(a, base, bits);
    ShrBlock(a, Shr(base, 32 - bits), 32 - bits);
  }

  lemma Masked6IsRange(a: Address6, base: Address6, bits: nat)
    requires bits <= 128
    ensures Masked6(a, bits) == Masked6(base, bits) <==> InRange(a, base, 128 - bits)
  {
    var k := 128 - bits;
    var p, q := Shr(a, k), Shr(base, k);
    ShrBlock(a, q, k);
    if p < q { ShlStrict(p, q, k); }
    if q < p { ShlStrict(q, p, k); }
  }

  // A list compiles exactly when every rule does, and the error names the first that does not.
  lemma {:induction false} CompileRulesExactly(ps: Parsers, list: RuleList, rules: seq<Rule>)
    ensures match CompileRules(ps, list, rules)
            case Ok(compiled) =>
              && |compiled| == |rules| && AllWellSized(compiled)
              && forall i :: 0 <= i < |rules| ==> CompileRule(ps, rules[i]) == Ok(compiled[i])
            case Err(InvalidRule(l, index, reason)) =>
              && l == list && index < |rules| && CompileRule(ps, rules[index]) == Err(reason)
              && forall i :: 0 <= i < index ==> CompileRule(ps, rules[i]).Ok?
  {
    hide CompileRule;
    if rules != [] {
      var last := |rules| - 1;
      CompileRulesExactly(ps, list, rules[..last]);
      CompileRuleExactly(ps, rules[last]);
    }
  }

  lemma CompiledListMeans(ps: Parsers, list: RuleList, rules: seq<Rule>, req: Request)
    requires CompileRules(ps, list, rules).Ok?
    ensures var compiled := CompileRules(ps, list, rules).value;
            && AllWellSized(compiled) && |compiled| == |rules|
            && (AnyMatches(compiled, req) <==> AnyCovers(ps, rules, req))
            && ((exists rule :: rule in compiled && rule.target != OnThisPeer) <==> IsGate(rules))
            && (ThisPeerFirst(ps, rules, req) <==>
                FirstMatch(compiled, req).Some? && FirstMatch(compiled, req).value.target == OnThisPeer)
  {
    hide CompileRule, Covers, Matches, WellSized, ThisPeerFirst, FirstMatch, CompileRules;
    CompileRulesExactly(ps, list, rules);
    var compiled := CompileRules(ps, list, rules).value;
    forall i | 0 <= i < |rules|
      ensures Matches(compiled[i], req) <==> Covers(ps, rules[i], req)
      ensures compiled[i].target == OnThisPeer <==> rules[i].target == ThisPeer
    {
      CompiledRuleMeans(ps, rules[i], req);
      CompileRuleExactly(ps, rules[i]);
    }
    SameCovered(ps, rules, compiled, req);
    SameGate(rules, compiled);
    SameFirst(ps, rules, compiled, req);
  }

  lemma SameCovered(ps: Parsers, rules: seq<Rule>, compiled: seq<CompiledRule>, req: Request)
    requires AllWellSized(compiled) && |compiled| == |rules|
    requires forall i :: 0 <= i < |rules| ==> (Matches(compiled[i], req) <==> Covers(ps, rules[i], req))
    ensures AnyMatches(compiled, req) <==> AnyCovers(ps, rules, req)
  {
    hide Covers, Matches;
    if AnyMatches(compiled, req) {
      var i :| 0 <= i < |compiled| && Matches(compiled[i], req);
      assert rules[i] in rules && Covers(ps, rules[i], req);
    }
  }

  lemma SameGate(rules: seq<Rule>, compiled: seq<CompiledRule>)
    requires |compiled| == |rules|
    requires forall i :: 0 <= i < |rules| ==> (compiled[i].target == OnThisPeer <==> rules[i].target == ThisPeer)
    ensures (exists rule :: rule in compiled && rule.target != OnThisPeer) <==> IsGate(rules)
  {
    if rule :| rule in compiled && rule.target != OnThisPeer {
      var i :| 0 <= i < |compiled| && compiled[i] == rule;
      assert rules[i] in rules;
    }
    if IsGate(rules) {
      var rule :| rule in rules && rule.target != ThisPeer;
      var i :| 0 <= i < |rules| && rules[i] == rule;
      assert compiled[i] in compiled;
    }
  }

  lemma {:induction false} SameFirst(ps: Parsers, rules: seq<Rule>, compiled: seq<CompiledRule>, req: Request)
    requires AllWellSized(compiled) && |compiled| == |rules|
    requires forall i :: 0 <= i < |rules| ==> (Matches(compiled[i], req) <==> Covers(ps, rules[i], req))
    requires forall i :: 0 <= i < |rules| ==> (compiled[i].target == OnThisPeer <==> rules[i].target == ThisPeer)
    ensures ThisPeerFirst(ps, rules, req) <==>
            FirstMatch(compiled, req).Some? && FirstMatch(compiled, req).value.target == OnThisPeer
  {
    hide Covers, Matches, WellSized;
    if rules != [] {
      SameFirst(ps, rules[1..], compiled[1..], req);
    }
  }

  // A policy compiles exactly when all its rules are well formed, and the compiled form decides
  // every request as the policy says.
  lemma CompileKeepsMeaning(ps: Parsers, p: Policy)
    ensures Compile(ps, p).Ok? <==> forall rule :: rule in p.allow + p.deny ==> RuleWellFormed(ps, rule)
    ensures Compile(ps, p).Ok? ==>
              var c := Compile(ps, p).value;
              && AllWellSized(c.allow) && AllWellSized(c.deny)
              && forall req :: Decide(c, req) == Meaning(ps, p, req)
  {
    hide CompileRules, RuleWellFormed, AnyMatches, AnyCovers, FirstMatch, ThisPeerFirst, IsGate, AllWellSized,
         Decimal.Print;
    ListWellFormed(ps, AllowList, p.allow);
    ListWellFormed(ps, DenyList, p.deny);
    if Compile(ps, p).Ok? {
      var c := Compile(ps, p).value;
      CompileRulesExactly(ps, AllowList, p.allow);
      CompileRulesExactly(ps, DenyList, p.deny);
      forall req ensures Decide(c, req) == Meaning(ps, p, req) {
        CompiledListMeans(ps, AllowList, p.allow, req);
        CompiledListMeans(ps, DenyList, p.deny, req);
        if ThisPeerFirst(ps, p.allow, req) {
          ThisPeerFirstCovers(ps, p.allow, req);
        }
      }
    }
  }

  lemma ListWellFormed(ps: Parsers, list: RuleList, rules: seq<Rule>)
    ensures CompileRules(ps, list, rules).Ok? <==> forall rule :: rule in rules ==> RuleWellFormed(ps, rule)
  {
    hide CompileRule, RuleWellFormed, CompileRules;
    CompileRulesExactly(ps, list, rules);
    forall rule ensures CompileRule(ps, rule).Ok? <==> RuleWellFormed(ps, rule) {
      CompileRuleExactly(ps, rule);
    }
  }

  lemma {:induction false} ThisPeerFirstCovers(ps: Parsers, allow: seq<Rule>, req: Request)
    requires ThisPeerFirst(ps, allow, req)
    ensures AnyCovers(ps, allow, req)
  {
    hide Covers;
    if Covers(ps, allow[0], req) {
      assert allow[0] in allow;
    } else {
      ThisPeerFirstCovers(ps, allow[1..], req);
    }
  }
}

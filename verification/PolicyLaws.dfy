/** What a policy author can rely on. */
module PolicyLaws {
  import opened Basics
  import opened Ipv4
  import opened Text
  import opened AccessPolicy
  import Decimal

  // ---- Closed policies ----

  predicate DeniesFamily(deny: seq<Rule>, protocol: Protocol, family: string)
  {
    Rule(Cidr(family), protocol, AnyPort) in deny
  }

  predicate IsClosed(p: Policy)
  {
    && DeniesFamily(p.deny, Tcp, "0.0.0.0/0") && DeniesFamily(p.deny, Tcp, "::/0")
    && DeniesFamily(p.deny, Udp, "0.0.0.0/0") && DeniesFamily(p.deny, Udp, "::/0")
  }

  const CLOSED := Policy([], [Rule(Cidr("0.0.0.0/0"), Tcp, AnyPort), Rule(Cidr("0.0.0.0/0"), Udp, AnyPort),
                              Rule(Cidr("::/0"), Tcp, AnyPort), Rule(Cidr("::/0"), Udp, AnyPort)])

  lemma ReadEverything(ps: Parsers)
    requires Standard(ps)
    ensures ReadCidr(ps, "0.0.0.0/0") == Some(Block(V4(0), 0))
    ensures ReadCidr(ps, "::/0") == Some(Block(V6(0), 0))
  {
    hide SplitOnce, Decimal.ParseUnsigned, Decimal.Value;
    SplitAt("0.0.0.0", '/', "0");
    SplitAt("::", '/', "0");
    assert "0.0.0.0/0" == "0.0.0.0" + ['/'] + "0" && "::/0" == "::" + ['/'] + "0";
    assert Decimal.Print(0) == "0";
    Decimal.PrintParses(0, 255);
  }

  // A zero-length prefix holds every address of its family.
  lemma ZeroBlock(ip: IpAddr)
    ensures ip.V4? ==> InBlock(Block(V4(0), 0), ip)
    ensures ip.V6? ==> InBlock(Block(V6(0), 0), ip)
  {
    hide Shl, Shr;
    match ip {
      case V4(a) =>
        ShlSizes(1);
        WholeRange(a, 32);
      case V6(a) =>
        Shl128(1);
        WholeRange(a, 128);
    }
  }

  lemma WholeRange(a: nat, k: nat)
    requires a < Shl(1, k)
    ensures InRange(a, 0, k)
  {
    ShlZero(k);
    ShrBlock(0, 0, k);
  }

  lemma {:induction false} ShlZero(k: nat)
    ensures Shl(0, k) == 0 && Shl(1, k) > 0
  {
    if k > 0 { ShlZero(k - 1); }
  }

  lemma Shl32(q: nat, k: nat)
    ensures Shl(q, k + 32) == 0x1_0000_0000 * Shl(q, k)
  {
    hide Shl;
    Shl16(q, k);
    Shl16(q, k + 16);
  }

  lemma Shl128(q: nat)
    ensures Shl(q, 128) == 0x1_0000_0000_0000_0000_0000_0000_0000_0000 * q
  {
    hide Shl;
    Shl32(q, 96);
    Shl32(q, 64);
    Shl32(q, 32);
    ShlSizes(q);
  }

  // A closed policy that compiles refuses every request, and every mapped final target.
  lemma ClosedDeniesAll(ps: Parsers, p: Policy, req: Request)
    requires Standard(ps) && IsClosed(p)
    ensures Meaning(ps, p, req) == Deny
    ensures Compile(ps, p).Ok? ==>
              var c := Compile(ps, p).value;
              && AllWellSized(c.allow) && AllWellSized(c.deny) && Decide(c, req) == Deny
              && forall host :: !MappedFinalAllowed(c, req.protocol, host, req.ip, req.port)
  {
    hide Compile, Decide, ReadCidr, InBlock, AnyMatches, CompileRules, AllWellSized;
    CompileKeepsMeaning(ps, p);
    ClosedCovers(ps, p, req);
    if Compile(ps, p).Ok? {
      var c := Compile(ps, p).value;
      forall host ensures !MappedFinalAllowed(c, req.protocol, host, req.ip, req.port) {
        var final := Request(Other(host), req.protocol, req.ip, req.port);
        ClosedCovers(ps, p, final);
        assert c.deny == CompileRules(ps, DenyList, p.deny).value && CompileRules(ps, DenyList, p.deny).Ok? by
        { CompiledDeny(ps, p); }
        CompiledListMeans(ps, DenyList, p.deny, final);
      }
    }
  }

  lemma CompiledDeny(ps: Parsers, p: Policy)
    requires Compile(ps, p).Ok?
    ensures CompileRules(ps, DenyList, p.deny) == Ok(Compile(ps, p).value.deny)
  {
    hide CompileRules;
  }

  lemma ClosedCovers(ps: Parsers, p: Policy, req: Request)
    requires Standard(ps) && IsClosed(p)
    ensures AnyCovers(ps, p.deny, req)
  {
    hide ReadCidr, InBlock;
    ReadEverything(ps);
    ZeroBlock(req.ip);
    var v4, v6 := Rule(Cidr("0.0.0.0/0"), req.protocol, AnyPort), Rule(Cidr("::/0"), req.protocol, AnyPort);
    assert req.protocol == Tcp || req.protocol == Udp;
    assert DeniesFamily(p.deny, req.protocol, "0.0.0.0/0") && DeniesFamily(p.deny, req.protocol, "::/0");
    assert if req.ip.V4? then Covers(ps, v4, req) else Covers(ps, v6, req);
  }

  // The policy the program writes to close a Client is closed and compiles.
  lemma ClosedIsClosed(ps: Parsers)
    requires Standard(ps)
    ensures IsClosed(CLOSED) && Compile(ps, CLOSED).Ok?
  {
    hide ReadCidr, Compile;
    ReadEverything(ps);
    CompileKeepsMeaning(ps, CLOSED);
  }

  lemma DenyAllDenies(req: Request)
    ensures Decide(DENY_ALL, req) == Deny
  {
  }

  // ---- Decisions of compiled policies ----

  /** What the program decides once it has compiled the policy. */
  function Decided(ps: Parsers, p: Policy, req: Request): (d: Decision)
    requires Compile(ps, p).Ok?
    ensures d == Meaning(ps, p, req)
  {
    CompileKeepsMeaning(ps, p);
    Decide(Compile(ps, p).value, req)
  }

  // ---- Address ranges ----

  /** The text before the slash is an address of either family, and the length fits it. */
  predicate Fits(ps: Parsers, address: string, bits: nat)
  {
    if ps.v4(address).Some? then bits <= 32 else ps.v6(address).Some? && bits <= 128
  }

  function BaseOf(ps: Parsers, address: string, bits: nat): (ip: IpAddr)
    requires Fits(ps, address, bits)
    ensures BlockFits(Block(ip, bits))
  {
    if ps.v4(address).Some? then V4(ps.v4(address).value) else V6(ps.v6(address).value)
  }

  /** From the first to the last address of the range that `base` and its leading bits name. */
  predicate Within(base: IpAddr, bits: nat, ip: IpAddr)
    requires BlockFits(Block(base, bits))
  {
    match base
    case V4(b) => ip.V4? && Masked(b, bits) <= ip.v4 <= LastOf(b, bits)
    case V6(b) => ip.V6? && Masked6(b, bits) <= ip.v6 < Masked6(b, bits) + Pow2(128 - bits)
  }

  lemma MaskedBlock6(a: Address6, bits: nat) returns (q: nat)
    requires bits <= 128
    ensures Masked6(a, bits) == q * Pow2(128 - bits) <= a < Masked6(a, bits) + Pow2(128 - bits)
  {
    hide Shl, Shr;
    var k := 128 - bits;
    q := Shr(a, k);
    ShrBlock(a, q, k);
    ShlIsMultiple(q, k);
    ShlNext(q, k);
  }

  lemma ReadsAs(ps: Parsers, address: string, plus: bool, zeros: nat, bits: nat)
    requires '/' !in address
    ensures var r := ReadCidr(ps, address + "/" + Decimal.Spelled(plus, zeros, bits));
            && (r.Some? <==> Fits(ps, address, bits))
            && (r.Some? ==> r.value == Block(BaseOf(ps, address, bits), bits))
  {
    hide SplitOnce, Decimal.Spelled, Decimal.ParseUnsigned;
    var length := Decimal.Spelled(plus, zeros, bits);
    SplitAt(address, '/', length);
    Decimal.SpelledParses(plus, zeros, bits, 255);
    assert address + "/" + length == address + ['/'] + length;
  }

  lemma BlockIsRange(base: IpAddr, bits: nat, ip: IpAddr)
    requires BlockFits(Block(base, bits))
    ensures InBlock(Block(base, bits), ip) <==> Within(base, bits, ip)
  {
    hide Shl, Shr, Pow2;
    match base
    case V4(_) =>
    case V6(b) => ShlNext(Shr(b, 128 - bits), 128 - bits);
  }

  // An address range rule compiles exactly when its length fits the family of its address, however
  // the length is spelled, and then matches exactly the addresses from the first to the last of the range.
  lemma CidrRuleExactly(
    ps: Parsers, address: string, plus: bool, zeros: nat, bits: nat, protocol: Protocol, port: Port, req: Request)
    requires '/' !in address && port != Exact(0)
    ensures var r := CompileRule(ps, Rule(Cidr(address + "/" + Decimal.Spelled(plus, zeros, bits)), protocol, port));
            && (r.Ok? <==> Fits(ps, address, bits)) && (r.Err? ==> r.error == InvalidCidr)
            && (r.Ok? ==>
                  WellSized(r.value) &&
                  (Matches(r.value, req) <==>
                   && protocol == req.protocol && (port == AnyPort || port == Exact(req.port))
                   && Within(BaseOf(ps, address, bits), bits, req.ip)))
  {
    hide ReadCidr, InBlock, Masked, Masked6, LastOf, Pow2, Matches, Decimal.Spelled;
    var text := address + "/" + Decimal.Spelled(plus, zeros, bits);
    var rule := Rule(Cidr(text), protocol, port);
    ReadsAs(ps, address, plus, zeros, bits);
    CompileRuleExactly(ps, rule);
    if CompileRule(ps, rule).Ok? {
      CompiledRuleMeans(ps, rule, req);
      var block := ReadCidr(ps, text).value;
      BlockIsRange(block.ip, block.bits, req.ip);
    }
  }

  // No other text is an address range.
  lemma OnlyCidrsCompile(ps: Parsers, text: string) returns (address: string, plus: bool, zeros: nat, bits: nat)
    requires CompileTarget(ps, Cidr(text)).Ok?
    ensures '/' !in address && text == address + "/" + Decimal.Spelled(plus, zeros, bits) && Fits(ps, address, bits)
  {
    hide Decimal.Spelled, Decimal.ParseUnsigned, SplitOnce;
    var parts := SplitOnce(text, '/').value;
    address, bits := parts.0, Decimal.ParseUnsigned(parts.1, 255).value;
    plus, zeros := Decimal.OnlySpelledParses(parts.1, 255);
  }

  // One deny rule and nothing else, as the compiled policy decides it.
  lemma DenyOne(ps: Parsers, rule: Rule, req: Request)
    ensures var p := Policy([], [rule]);
            && (Compile(ps, p).Ok? <==> RuleWellFormed(ps, rule))
            && (Compile(ps, p).Ok? ==>
                  Decided(ps, p, req) == if AtOwnOverlay(req) || Covers(ps, rule, req) then Deny else AllowDirect)
  {
    hide Compile, RuleWellFormed, Decided, Covers, Decimal.Print, Decide, AtOwnOverlay;
    var p := Policy([], [rule]);
    CompileKeepsMeaning(ps, p);
    assert p.allow + p.deny == [rule] && rule in p.deny;
    assert AnyCovers(ps, p.deny, req) <==> Covers(ps, rule, req);
  }

  lemma DenyRange(
    ps: Parsers, address: string, plus: bool, zeros: nat, bits: nat, protocol: Protocol, port: Port, req: Request)
    requires '/' !in address && port != Exact(0)
    ensures var p := Policy([], [Rule(Cidr(address + "/" + Decimal.Spelled(plus, zeros, bits)), protocol, port)]);
            && (Compile(ps, p).Ok? <==> Fits(ps, address, bits))
            && (Compile(ps, p).Ok? ==>
                  Decided(ps, p, req) ==
                  if AtOwnOverlay(req) then Deny
                  else if protocol == req.protocol && (port == AnyPort || port == Exact(req.port)) &&
                          Within(BaseOf(ps, address, bits), bits, req.ip) then Deny
                  else AllowDirect)
  {
    hide Compile, CompileRule, RuleWellFormed, Decided, Covers, Matches, Fits, Within, Decimal.Spelled, AtOwnOverlay;
    var rule := Rule(Cidr(address + "/" + Decimal.Spelled(plus, zeros, bits)), protocol, port);
    CidrRuleExactly(ps, address, plus, zeros, bits, protocol, port, req);
    CompileRuleExactly(ps, rule);
    DenyOne(ps, rule, req);
    if RuleWellFormed(ps, rule) {
      CompiledRuleMeans(ps, rule, req);
    }
  }

  // The same for one address.
  lemma DenyAddress(ps: Parsers, ip: IpAddr, protocol: Protocol, port: Port, req: Request)
    requires port != Exact(0)
    ensures var p := Policy([], [Rule(Ip(ip), protocol, port)]);
            && Compile(ps, p).Ok?
            && Decided(ps, p, req) ==
               if AtOwnOverlay(req) then Deny
               else if protocol == req.protocol && (port == AnyPort || port == Exact(req.port)) && req.ip == ip
               then Deny
               else AllowDirect
  {
    hide Compile, Decided, AtOwnOverlay;
    DenyOne(ps, Rule(Ip(ip), protocol, port), req);
  }

  // ---- Host names ----

  /** The same character, up to the case of an ASCII letter. */
  predicate SameLetter(x: char, y: char)
  {
    x == y || ('A' <= x <= 'Z' && y as int == x as int + 32) || ('A' <= y <= 'Z' && x as int == y as int + 32)
  }

  predicate SameIgnoringCase(a: string, b: string)
  {
    |a| == |b| && forall i :: 0 <= i < |a| ==> SameLetter(a[i], b[i])
  }

  /** `host` is the suffix, or ends in a dot and the suffix, ignoring case. */
  predicate AtOrBelowText(host: string, suffix: string)
  {
    SameIgnoringCase(host, suffix) ||
    (|suffix| < |host| && host[|host| - |suffix| - 1] == '.' && SameIgnoringCase(host[|host| - |suffix|..], suffix))
  }

  function Dots(k: nat): (s: string)
    ensures |s| == k
  {
    seq(k, _ => '.')
  }

  lemma LowerExactly(a: string, b: string)
    ensures Lower(a) == Lower(b) <==> SameIgnoringCase(a, b)
  {
    if |a| == |b| {
      forall i | 0 <= i < |a| ensures Lower(a)[i] == Lower(b)[i] <==> SameLetter(a[i], b[i]) {}
    }
  }

  lemma {:induction false} DotsTrimmed(bare: string, dots: nat)
    requires bare == "" || bare[|bare| - 1] != '.'
    ensures TrimDots(bare + Dots(dots)) == bare
  {
    var s := bare + Dots(dots);
    if dots == 0 {
      assert s == bare;
    } else {
      DotsTrimmed(bare, dots - 1);
      assert s[..|s| - 1] == bare + Dots(dots - 1);
    }
  }

  lemma LowerEndsWith(host: string, suffix: string)
    ensures EndsWith(Lower(host), "." + Lower(suffix)) <==>
            |suffix| < |host| && host[|host| - |suffix| - 1] == '.' &&
            SameIgnoringCase(host[|host| - |suffix|..], suffix)
  {
    hide SameIgnoringCase;
    if |suffix| < |host| {
      var n := |host| - |suffix|;
      LowerExactly(host[n..], suffix);
      assert Lower(host)[n..] == Lower(host[n..]);
      assert Lower(host)[n - 1..] == [Lower(host)[n - 1]] + Lower(host)[n..];
      assert Lower(host)[n - 1] == '.' <==> host[n - 1] == '.';
    }
  }

  lemma WildcardSurvives(name: string)
    ensures "*." <= Lower(name) <==> "*." <= name
    ensures "*." <= name ==> Lower(name)[2..] == Lower(name[2..])
  {
    if |name| >= 2 {
      assert Lower(name)[0] == '*' <==> name[0] == '*';
      assert Lower(name)[1] == '.' <==> name[1] == '.';
    }
  }

  // The reason given for a rule that does not compile.
  lemma RefusalReason(ps: Parsers, rule: Rule)
    requires CompileRule(ps, rule).Err?
    ensures var reason := CompileRule(ps, rule).error;
            if rule.port == Exact(0) then reason == ZeroPort
            else if rule.target.Cidr? then reason == InvalidCidr
            else
              && rule.target.Host? && reason != ZeroPort && reason != InvalidCidr
              && (reason == InvalidHostSuffix ==> "*." <= Trim(rule.target.name))
              && (reason == OnlySuffixWildcard ==>
                    !("*." <= Trim(rule.target.name)) && '*' in Trim(rule.target.name))
  {
    hide Trim, ReadCidr, Lower, IsWhiteSpace;
    if rule.target.Host? {
      var written := Trim(rule.target.name);
      WildcardSurvives(written);
      assert '*' in Lower(written) <==> '*' in written by { LowerKeepsStar(written); }
    }
  }

  lemma LowerKeepsStar(s: string)
    ensures '*' in Lower(s) <==> '*' in s
  {
    forall i | 0 <= i < |s| ensures Lower(s)[i] == '*' <==> s[i] == '*' {}
  }

  // A name covers a host of the same spelling and `*.name` also every host below, up to ASCII case,
  // surrounding blanks and the dots the request ends in.
  lemma HostCoversExactly(name: string, requested: string, bare: string, dots: nat)
    requires Trim(requested) == bare + Dots(dots) && (bare == "" || bare[|bare| - 1] != '.')
    ensures var written := Trim(name);
            HostCovers(name, requested) <==>
            if "*." <= written then AtOrBelowText(bare, written[2..]) else SameIgnoringCase(bare, written)
  {
    hide Trim, Lower, AtOrBelow, EndsWith, SameIgnoringCase, TrimDots;
    var written := Trim(name);
    DotsTrimmed(bare, dots);
    WildcardSurvives(written);
    if "*." <= written {
      var suffix := written[2..];
      BelowByText(Lower(bare), Lower(suffix));
      LowerExactly(bare, suffix);
      LowerEndsWith(bare, suffix);
    } else {
      LowerExactly(bare, written);
    }
  }

  // ---- Mapped targets ----

  // A mapped request may go on to its final target exactly when no written deny rule covers that target.
  lemma MappedFinalExactly(
    ps: Parsers, p: Policy, protocol: Protocol, host: string, ip: IpAddr, port: PortNumber)
    requires Compile(ps, p).Ok?
    ensures var c := Compile(ps, p).value;
            && AllWellSized(c.deny)
            && (MappedFinalAllowed(c, protocol, host, ip, port) <==>
                forall rule :: rule in p.deny ==> !Covers(ps, rule, Request(Other(host), protocol, ip, port)))
  {
    hide Compile, CompileRules, Covers, AnyMatches, AllWellSized;
    CompiledDeny(ps, p);
    CompiledListMeans(ps, DenyList, p.deny, Request(Other(host), protocol, ip, port));
  }

  // ---- Adding rules ----

  function Inserted(rules: seq<Rule>, k: nat, rule: Rule): (r: seq<Rule>)
    requires k <= |rules|
    ensures forall x :: x in r <==> x in rules || x == rule
  {
    assert rules == rules[..k] + rules[k..];
    rules[..k] + [rule] + rules[k..]
  }

  // Inserting a rule keeps a policy compiling exactly when the rule is well formed.
  lemma InsertionCompiles(ps: Parsers, p: Policy, q: Policy, rule: Rule)
    requires forall x :: x in q.allow + q.deny <==> x in p.allow + p.deny || x == rule
    ensures Compile(ps, q).Ok? <==> Compile(ps, p).Ok? && RuleWellFormed(ps, rule)
  {
    hide Compile, RuleWellFormed, Decide, Meaning;
    CompileKeepsMeaning(ps, p);
    CompileKeepsMeaning(ps, q);
    if Compile(ps, q).Ok? {
      forall x | x in p.allow + p.deny ensures RuleWellFormed(ps, x) {
        assert x in q.allow + q.deny;
      }
      assert rule in q.allow + q.deny;
    }
  }

  // One more deny rule refuses what it covers and changes no other decision.
  lemma AddedDeny(ps: Parsers, p: Policy, k: nat, rule: Rule, req: Request)
    requires k <= |p.deny| && Compile(ps, p).Ok?
    ensures var q := p.(deny := Inserted(p.deny, k, rule));
            && (Compile(ps, q).Ok? <==> RuleWellFormed(ps, rule))
            && (Compile(ps, q).Ok? ==>
                  Decided(ps, q, req) == if Covers(ps, rule, req) then Deny else Decided(ps, p, req))
  {
    hide Compile, RuleWellFormed, Decided, Covers, ThisPeerFirst, Decimal.Print;
    InsertionCompiles(ps, p, p.(deny := Inserted(p.deny, k, rule)), rule);
  }

  // Exposing a local port, at any place in the list, changes no decision about other targets.
  lemma AddedThisPeerAllow(ps: Parsers, p: Policy, k: nat, rule: Rule, req: Request)
    requires k <= |p.allow| && rule.target == ThisPeer && Compile(ps, p).Ok? && !AtOwnOverlay(req)
    ensures var q := p.(allow := Inserted(p.allow, k, rule));
            && (Compile(ps, q).Ok? <==> rule.port != Exact(0))
            && (Compile(ps, q).Ok? ==> Decided(ps, q, req) == Decided(ps, p, req))
  {
    hide Compile, Decided, ThisPeerFirst, Decimal.Print;
    InsertionCompiles(ps, p, p.(allow := Inserted(p.allow, k, rule)), rule);
    assert !Covers(ps, rule, req);
  }

  // ---- Rule order ----

  ghost predicate SameRules(p: Policy, q: Policy)
  {
    (forall rule :: rule in p.allow <==> rule in q.allow) && (forall rule :: rule in p.deny <==> rule in q.deny)
  }

  lemma SameRulesCompile(ps: Parsers, p: Policy, q: Policy)
    requires SameRules(p, q)
    ensures Compile(ps, p).Ok? <==> Compile(ps, q).Ok?
  {
    hide Compile, RuleWellFormed, Decide, Meaning;
    CompileKeepsMeaning(ps, p);
    CompileKeepsMeaning(ps, q);
    assert forall rule :: rule in p.allow + p.deny <==> rule in q.allow + q.deny;
  }

  // Away from the Peer's own Overlay address, decisions do not depend on the order of the rules.
  lemma OrderIrrelevant(ps: Parsers, p: Policy, q: Policy, req: Request)
    requires SameRules(p, q) && Compile(ps, p).Ok? && !AtOwnOverlay(req)
    ensures Compile(ps, q).Ok? && Decided(ps, q, req) == Decided(ps, p, req)
  {
    hide Compile, Decided, Covers, ThisPeerFirst, Decimal.Print;
    SameRulesCompile(ps, p, q);
  }

  // At the own Overlay address the first covering allow rule decides.
  lemma {:induction false} FirstCoveringDecides(ps: Parsers, allow: seq<Rule>, req: Request)
    ensures ThisPeerFirst(ps, allow, req) <==>
            exists i :: 0 <= i < |allow| && allow[i].target == ThisPeer && Covers(ps, allow[i], req) &&
                        forall j :: 0 <= j < i ==> !Covers(ps, allow[j], req)
  {
    hide Covers;
    if allow != [] && !Covers(ps, allow[0], req) {
      var rest := allow[1..];
      FirstCoveringDecides(ps, rest, req);
      if ThisPeerFirst(ps, rest, req) {
        var i :| 0 <= i < |rest| && rest[i].target == ThisPeer && Covers(ps, rest[i], req) &&
                 forall j :: 0 <= j < i ==> !Covers(ps, rest[j], req);
        forall j | 0 <= j < i + 1 ensures !Covers(ps, allow[j], req) {
          assert j > 0 ==> allow[j] == rest[j - 1];
        }
        assert allow[i + 1] == rest[i];
      }
      if i :| 0 <= i < |allow| && allow[i].target == ThisPeer && Covers(ps, allow[i], req) &&
              forall j :: 0 <= j < i ==> !Covers(ps, allow[j], req)
      {
        assert rest[i - 1] == allow[i];
        forall j | 0 <= j < i - 1 ensures !Covers(ps, rest[j], req) {
          assert rest[j] == allow[j + 1];
        }
      }
    } else if allow != [] {
      assert 0 < |allow|;
    }
  }

  // At the own Overlay address a request is let through, to its own port on the loopback address,
  // exactly when no deny rule covers it and the first allow rule that does is a mapping of this Peer.
  lemma OwnOverlayExactly(ps: Parsers, p: Policy, req: Request)
    requires Compile(ps, p).Ok? && req.kind.OwnPeer? && req.ip == V4(req.kind.ownOverlay)
    ensures Decided(ps, p, req) ==
            if (forall rule :: rule in p.deny ==> !Covers(ps, rule, req)) &&
               exists i :: 0 <= i < |p.allow| && p.allow[i].target == ThisPeer && Covers(ps, p.allow[i], req) &&
                           forall j :: 0 <= j < i ==> !Covers(ps, p.allow[j], req)
            then AllowThisPeer("127.0.0.1:" + Decimal.Print(req.port)) else Deny
  {
    hide Compile, Decided, Covers, ThisPeerFirst, Decimal.Print;
    FirstCoveringDecides(ps, p.allow, req);
  }

  // Anywhere else a request passes exactly when no deny rule covers it and, once the allow list names
  // anything but this Peer, some allow rule does.
  lemma OtherTargetsExactly(ps: Parsers, p: Policy, req: Request)
    requires Compile(ps, p).Ok? && !(req.kind.OwnPeer? && req.ip == V4(req.kind.ownOverlay))
    ensures Decided(ps, p, req) ==
            if (forall rule :: rule in p.deny ==> !Covers(ps, rule, req)) &&
               ((forall rule :: rule in p.allow ==> rule.target == ThisPeer) ||
                (exists rule :: rule in p.allow && Covers(ps, rule, req)))
            then AllowDirect else Deny
  {
    hide Compile, Decided, Covers, ThisPeerFirst, Decimal.Print;
  }

  ghost predicate Reordered(p: Policy, q: Policy)
  {
    multiset(p.allow) == multiset(q.allow) && multiset(p.deny) == multiset(q.deny)
  }

  lemma ReorderedSame(p: Policy, q: Policy)
    requires Reordered(p, q)
    ensures SameRules(p, q)
  {
    forall rule ensures rule in p.allow <==> rule in q.allow {
      assert rule in multiset(p.allow) <==> rule in multiset(q.allow);
    }
    forall rule ensures rule in p.deny <==> rule in q.deny {
      assert rule in multiset(p.deny) <==> rule in multiset(q.deny);
    }
  }

  /** Both a mapping of this Peer and another allow rule cover the request, and no deny rule does. */
  ghost predicate Contested(ps: Parsers, p: Policy, req: Request)
  {
    && !AnyCovers(ps, p.deny, req)
    && (exists rule :: rule in p.allow && rule.target == ThisPeer && Covers(ps, rule, req))
    && (exists rule :: rule in p.allow && rule.target != ThisPeer && Covers(ps, rule, req))
  }

  // At the own Overlay address, some order of the rules decides otherwise exactly for contested requests.
  lemma OrderMattersExactly(ps: Parsers, p: Policy, req: Request)
    requires Compile(ps, p).Ok? && AtOwnOverlay(req)
    ensures (exists q :: Reordered(p, q) && Compile(ps, q).Ok? && Decided(ps, q, req) != Decided(ps, p, req)) <==>
            Contested(ps, p, req)
  {
    hide Compile, Decided, Covers, ThisPeerFirst, Decimal.Print, AtOwnOverlay;
    if Contested(ps, p, req) {
      var mine :| mine in p.allow && mine.target == ThisPeer && Covers(ps, mine, req);
      var other :| other in p.allow && other.target != ThisPeer && Covers(ps, other, req);
      var mineFirst := Fronted(p.allow, mine);
      var otherFirst := Fronted(p.allow, other);
      var q, r := p.(allow := mineFirst), p.(allow := otherFirst);
      assert ThisPeerFirst(ps, q.allow, req) && !ThisPeerFirst(ps, r.allow, req) by {
        FrontDecides(ps, q.allow, req);
        FrontDecides(ps, r.allow, req);
      }
      assert Reordered(p, q) && Reordered(p, r);
      ReorderedSame(p, q);
      ReorderedSame(p, r);
      SameRulesCompile(ps, p, q);
      SameRulesCompile(ps, p, r);
      assert Decided(ps, q, req) != Decided(ps, r, req);
    }
    if q :| Reordered(p, q) && Compile(ps, q).Ok? && Decided(ps, q, req) != Decided(ps, p, req) {
      if !Contested(ps, p, req) {
        Uncontested(ps, p, q, req);
      }
    }
  }

  // For instance, when a mapping of this Peer and its own address are both allowed.
  lemma OrderMattersForOwnAddress(ps: Parsers, own: Address, port: PortNumber)
    ensures var mine, address := Rule(ThisPeer, Tcp, AnyPort), Rule(Ip(V4(own)), Tcp, AnyPort);
            var p, q := Policy([mine, address], []), Policy([address, mine], []);
            var req := Request(OwnPeer(own), Tcp, V4(own), port);
            && Compile(ps, p).Ok? && Compile(ps, q).Ok?
            && Decided(ps, p, req) == AllowThisPeer("127.0.0.1:" + Decimal.Print(port)) && Decided(ps, q, req) == Deny
  {
    hide Compile, Decided, Decimal.Print, RuleWellFormed;
    var mine, address := Rule(ThisPeer, Tcp, AnyPort), Rule(Ip(V4(own)), Tcp, AnyPort);
    var p, q := Policy([mine, address], []), Policy([address, mine], []);
    assert RuleWellFormed(ps, mine) && RuleWellFormed(ps, address) by { PlainRules(ps, own); }
    CompileKeepsMeaning(ps, p);
    CompileKeepsMeaning(ps, q);
  }

  lemma PlainRules(ps: Parsers, own: Address)
    ensures RuleWellFormed(ps, Rule(ThisPeer, Tcp, AnyPort)) && RuleWellFormed(ps, Rule(Ip(V4(own)), Tcp, AnyPort))
  {
  }

  lemma Fronted(rules: seq<Rule>, rule: Rule) returns (r: seq<Rule>)
    requires rule in rules
    ensures multiset(r) == multiset(rules) && r != [] && r[0] == rule
  {
    var i :| 0 <= i < |rules| && rules[i] == rule;
    assert rules == rules[..i] + [rule] + rules[i + 1..];
    r := [rule] + rules[..i] + rules[i + 1..];
  }

  lemma FrontDecides(ps: Parsers, rules: seq<Rule>, req: Request)
    requires rules != [] && Covers(ps, rules[0], req)
    ensures ThisPeerFirst(ps, rules, req) <==> rules[0].target == ThisPeer
  {
    hide Covers;
  }

  lemma Uncontested(ps: Parsers, p: Policy, q: Policy, req: Request)
    requires AtOwnOverlay(req) && Reordered(p, q) && !Contested(ps, p, req)
    ensures Meaning(ps, p, req) == Meaning(ps, q, req)
  {
    hide Covers, ThisPeerFirst, Decimal.Print, AtOwnOverlay;
    ReorderedSame(p, q);
    if !AnyCovers(ps, p.deny, req) {
      OneKind(ps, p.allow, req);
      OneKind(ps, q.allow, req);
    }
  }

  // When the covering rules are all of one kind, order is out of the picture.
  lemma {:induction false} OneKind(ps: Parsers, allow: seq<Rule>, req: Request)
    requires !((exists rule :: rule in allow && rule.target == ThisPeer && Covers(ps, rule, req)) &&
               (exists rule :: rule in allow && rule.target != ThisPeer && Covers(ps, rule, req)))
    ensures ThisPeerFirst(ps, allow, req) <==>
            exists rule :: rule in allow && rule.target == ThisPeer && Covers(ps, rule, req)
  {
    hide Covers;
    if allow != [] {
      assert allow == [allow[0]] + allow[1..];
      if !Covers(ps, allow[0], req) {
        assert forall rule :: rule in allow[1..] ==> rule in allow;
        OneKind(ps, allow[1..], req);
      } else {
        assert allow[0] in allow;
      }
    }
  }
}

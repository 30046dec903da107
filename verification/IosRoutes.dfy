/**
The two IPv4 CIDR parsers of the iOS client: `RouteValidator`, which normalises what the user or
a Peer supplies, and the settings factory, which parses the normalised text again.
*/
module IosRoutes {
  import opened Basics
  import opened Text
  import opened Ipv4
  import Decimal

  // ---- Numbers as Swift reads them ----

  /** `Int(text)`, which takes a sign and leading zeros. */
  function ParseInt(s: string): (r: Option<int>)
  {
    var digits := Unsigned(s);
    if digits == "" || !Decimal.AllDigits(digits) then None
    else Some(if s[0] == '-' then 0 - Decimal.Value(digits) else Decimal.Value(digits))
  }

  function Unsigned(s: string): (r: string)
  {
    if s != "" && (s[0] == '+' || s[0] == '-') then s[1..] else s
  }

  datatype Sign = NoSign | Plus | Minus

  function Signed(sign: Sign, zeros: nat, n: nat): (s: string)
  {
    (match sign case NoSign => "" case Plus => "+" case Minus => "-") + (Decimal.Zeros(zeros) + Decimal.Print(n))
  }

  // Every spelling of a whole number is read as that number, and nothing else is.
  lemma SignedReads(sign: Sign, zeros: nat, n: nat)
    ensures ParseInt(Signed(sign, zeros, n)) == Some(if sign == Minus then 0 - n else n)
  {
    hide Decimal.Value;
    var digits := Decimal.Zeros(zeros) + Decimal.Print(n);
    Decimal.ZerosAddNothing(zeros, Decimal.Print(n));
    Decimal.PrintValue(n);
    assert Decimal.IsDigit(digits[0]);
    assert Unsigned(Signed(sign, zeros, n)) == digits;
  }

  lemma OnlySignedReads(s: string) returns (sign: Sign, zeros: nat, n: nat)
    requires ParseInt(s).Some?
    ensures s == Signed(sign, zeros, n)
  {
    hide Decimal.Value, Decimal.Print, Decimal.Zeros;
    sign := if s[0] == '+' then Plus else if s[0] == '-' then Minus else NoSign;
    var digits := Unsigned(s);
    zeros := Decimal.DigitsSpelled(digits);
    n := Decimal.Value(digits);
    assert s == (if sign == NoSign then "" else [s[0]]) + digits;
  }

  /** `UInt8(text)`: a sign is taken here too, so `+5` and `-0` are octets. */
  function SignedOctet(s: string): (r: Option<Byte>)
  {
    match ParseInt(s)
    case Some(n) => if 0 <= n < 256 then Some(n) else None
    case None => None
  }

  /** The same after the validator's own test that every character is a number. */
  function PlainOctet(s: string): (r: Option<Byte>)
  {
    if s != "" && Decimal.AllDigits(s) && Decimal.Value(s) < 256 then Some(Decimal.Value(s)) else None
  }

  function ReadOctets(read: string -> Option<Byte>, octets: seq<string>): (r: Option<seq<Byte>>)
    ensures match r
            case Some(bytes) =>
              |bytes| == |octets| && forall i :: 0 <= i < |octets| ==> read(octets[i]) == Some(bytes[i])
            case None => exists i :: 0 <= i < |octets| && read(octets[i]).None?
  {
    if octets == [] then Some([]) else
      var last := |octets| - 1;
      match (ReadOctets(read, octets[..last]), read(octets[last]))
      case (Some(bytes), Some(byte)) => Some(bytes + [byte])
      case _ => None
  }

  /** Exactly four octets, most significant first. */
  function ReadAddress(read: string -> Option<Byte>, text: string): (r: Option<Address>)
  {
    var octets := Split(text, '.');
    if |octets| != 4 then None
    else match ReadOctets(read, octets)
         case None => None
         case Some(bytes) => Some(FromOctets(bytes))
  }

  /** The high-order part of an address, from its first octets. */
  function Accumulated(bytes: seq<Byte>): (n: nat)
  {
    if bytes == [] then 0 else AppendByte(Accumulated(bytes[..|bytes| - 1]), bytes[|bytes| - 1])
  }

  lemma FourAccumulate(bytes: seq<Byte>)
    requires |bytes| == 4
    ensures Accumulated(bytes) == FromOctets(bytes)
  {
    assert bytes[..3][..2] == bytes[..2] && bytes[..2][..1] == bytes[..1] && bytes[..1][..0] == [];
    assert Accumulated(bytes[..1]) == bytes[0];
    assert Accumulated(bytes[..2]) == AppendByte(bytes[0], bytes[1]);
    assert Accumulated(bytes[..3]) == AppendByte(Accumulated(bytes[..2]), bytes[2]);
  }

  // The loop shared by both `parseIPv4` functions, shifting one octet in at a time.
  method ParseAddress(read: string -> Option<Byte>, text: string) returns (r: Option<Address>)
    ensures r == ReadAddress(read, text)
  {
    hide Split, AppendByte, FromOctets;
    var octets := Split(text, '.');
    if |octets| != 4 {
      return None;
    }
    var address := 0;
    ghost var bytes: seq<Byte> := [];
    for i := 0 to 4
      invariant |bytes| == i && address == Accumulated(bytes)
      invariant forall k :: 0 <= k < i ==> read(octets[k]) == Some(bytes[k])
    {
      var value := read(octets[i]);
      if value.None? {
        return None;
      }
      address := AppendByte(address, value.value);
      bytes := bytes + [value.value];
    }
    FourAccumulate(bytes);
    assert ReadOctets(read, octets).value == bytes;
    r := Some(address);
  }

  // ---- Ranges ----

  datatype Cidr = Cidr(network: Address, prefix: nat)

  const LINK_LOCAL: Address := 0xA9FE_0000
  const OVERLAY: Address := 0xC612_0000

  /** 10/8, 172.16/12, 192.168/16, 169.254/16 and the Overlay's 198.18/15. */
  predicate InOneAllowedRange(first: Address, last: Address)
  {
    || InOneRfc1918Block(first, last)
    || 0xA9FE_0000 <= first <= last <= 0xA9FE_FFFF
    || 0xC612_0000 <= first <= last <= 0xC613_FFFF
  }

  predicate Within(first: Address, last: Address, base: Address, bits: nat)
    requires bits <= 32
  {
    Masked(base, bits) <= first && last <= LastOf(base, bits)
  }

  // The five ranges by number.
  lemma RangesByNumber(first: Address, last: Address)
    requires first <= last
    ensures InOneAllowedRange(first, last) <==>
            || Within(first, last, TEN, 8) || Within(first, last, ONE_SEVENTY_TWO, 12)
            || Within(first, last, ONE_NINETY_TWO, 16)
            || Within(first, last, LINK_LOCAL, 16) || Within(first, last, OVERLAY, 15)
  {
    hide Shl, Shr, Masked, LastOf;
    ShlSizes(10);
    ShlSizes(11);
    ShlSizes(0xAC1);
    ShlSizes(0xAC2);
    ShlSizes(0xC0A8);
    ShlSizes(0xC0A9);
    ShlSizes(0xA9FE);
    ShlSizes(0xA9FF);
    Shl17(0x6309);
    Shl17(0x630A);
    RangeOf(10, 24);
    RangeOf(0xAC1, 20);
    RangeOf(0xC0A8, 16);
    RangeOf(0xA9FE, 16);
    RangeOf(0x6309, 17);
  }

  lemma Shl17(q: nat)
    ensures Shl(q, 17) == 0x2_0000 * q
  {
    ShlSizes(q);
  }

  lemma RangeOf(q: nat, k: nat)
    requires k <= 32 && Shl(q, k) < ADDRESS_SPACE
    ensures Masked(Shl(q, k), 32 - k) == Shl(q, k) && LastOf(Shl(q, k), 32 - k) == Shl(q + 1, k) - 1
  {
    ShlStrict(q, q + 1, k);
    ShrBlock(Shl(q, k), q, k);
  }

  /** What both parsers accept once an address and a prefix length have been read. */
  predicate Routable(address: Address, prefix: int)
  {
    1 <= prefix <= 32 && InOneAllowedRange(Masked(address, prefix), LastOf(address, prefix))
  }

  // Only the ends are tested, and the whole route lies in one range.
  lemma RouteStaysInRange(c: Cidr, a: Address)
    requires Routable(c.network, c.prefix) && SameBlock(a, c.network, c.prefix)
    ensures Masked(c.network, c.prefix) <= a <= LastOf(c.network, c.prefix)
    ensures InOneAllowedRange(a, a)
    ensures InOneAllowedRange(Masked(c.network, c.prefix), LastOf(c.network, c.prefix))
  {
    BlockIsInterval(a, c.network, c.prefix);
  }

  // ---- The validator ----

  datatype RouteError =
    | EmptyRoute(index: nat)
    | InvalidCidr(route: string)
    | InvalidIpv4(route: string)
    | InvalidPrefix(route: string)
    | PublicRoute(route: string)

  function Validated(blank: char -> bool, raw: string, index: nat): (r: Result<Cidr, RouteError>)
  {
    var route := TrimBy(blank, raw);
    if route == "" then Err(EmptyRoute(index))
    else
      match SplitOnce(route, '/')
      case None => Err(InvalidCidr(route))
      case Some((address, length)) =>
        match (ReadAddress(PlainOctet, address), ParseInt(length))
        case (None, _) => Err(InvalidIpv4(route))
        case (Some(a), prefix) =>
          if prefix.None? || !(1 <= prefix.value <= 32) then Err(InvalidPrefix(route))
          else if !Routable(a, prefix.value) then Err(PublicRoute(route))
          else Ok(Cidr(Masked(a, prefix.value), prefix.value))
  }

  function Format(a: Address): (s: string)
  {
    var o := Octets(a);
    Join([Decimal.Print(o[0]), Decimal.Print(o[1]), Decimal.Print(o[2]), Decimal.Print(o[3])], '.')
  }

  function Describe(c: Cidr): (s: string)
  {
    Format(c.network) + "/" + Decimal.Print(c.prefix)
  }

  function ValidateFirst(blank: char -> bool, routes: seq<string>): (r: Result<seq<string>, RouteError>)
  {
    if routes == [] then Ok([]) else
      var last := |routes| - 1;
      match ValidateFirst(blank, routes[..last])
      case Err(e) => Err(e)
      case Ok(before) =>
        match Validated(blank, routes[last], last)
        case Err(e) => Err(e)
        case Ok(c) => Ok(before + [Describe(c)])
  }

  // ---- The settings factory ----

  datatype FactoryError = BadCidr(route: string) | BadPrefix(route: string) | NotPrivate(route: string)

  datatype Ipv4Route = Ipv4Route(destination: string, mask: string)

  function MaskOf(prefix: nat): (m: Address)
    requires prefix <= 32
  {
    Masked(ADDRESS_SPACE - 1, prefix)
  }

  // The mask has the leading bits set and no others, as a number.
  lemma MaskOfExactly(prefix: nat)
    requires prefix <= 32
    ensures MaskOf(prefix) == 0x1_0000_0000 - Pow2(32 - prefix)
  {
    hide Masked, LastOf, Pow2;
    var q := BlockEnds(0xFFFF_FFFF, prefix);
  }

  function Included(raw: string): (r: Result<Ipv4Route, FactoryError>)
  {
    var parts := Split(raw, '/');
    if |parts| != 2 then Err(BadCidr(raw))
    else
      match (ReadAddress(SignedOctet, parts[0]), ParseInt(parts[1]))
      case (None, _) => Err(BadCidr(raw))
      case (Some(a), prefix) =>
        if prefix.None? || !(1 <= prefix.value <= 32) then Err(BadPrefix(raw))
        else if !Routable(a, prefix.value) then Err(NotPrivate(raw))
        else Ok(Ipv4Route(Format(Masked(a, prefix.value)), Format(MaskOf(prefix.value))))
  }

  /** The factory's result is the route of `c`: its network and its mask, as text. */
  ghost predicate Installs(r: Result<Ipv4Route, FactoryError>, c: Cidr)
  {
    c.prefix <= 32 && r == Ok(Ipv4Route(Format(c.network), Format(MaskOf(c.prefix))))
  }

  // ---- Printing and parsing ----

  /** A trimming set that leaves the characters of a route alone. */
  ghost predicate Separable(blank: char -> bool)
  {
    forall c :: Decimal.IsDigit(c) || c == '+' || c == '-' ==> !blank(c)
  }

  ghost predicate Normal(c: Cidr)
  {
    Routable(c.network, c.prefix) && Masked(c.network, c.prefix) == c.network
  }

  lemma ValidatedIsNormal(blank: char -> bool, raw: string, index: nat)
    ensures Validated(blank, raw, index).Ok? ==> Normal(Validated(blank, raw, index).value)
  {
    hide TrimBy, ReadAddress, ParseInt, Masked, LastOf, SplitOnce;
    if Validated(blank, raw, index).Ok? {
      var address := SplitOnce(TrimBy(blank, raw), '/').value.0;
      var a := ReadAddress(PlainOctet, address).value;
      MaskedStays(a, Validated(blank, raw, index).value.prefix);
    }
  }

  lemma PrintedOctet(b: Byte)
    ensures PlainOctet(Decimal.Print(b)) == Some(b) && SignedOctet(Decimal.Print(b)) == Some(b)
    ensures '.' !in Decimal.Print(b) && '/' !in Decimal.Print(b)
  {
    Decimal.PrintValue(b);
    assert Decimal.IsDigit(Decimal.Print(b)[0]);
  }

  lemma PrintedPrefix(n: nat)
    ensures ParseInt(Decimal.Print(n)) == Some(n) && '/' !in Decimal.Print(n)
  {
    Decimal.PrintValue(n);
    assert Decimal.IsDigit(Decimal.Print(n)[0]);
  }

  // A printed address reads back, whichever parser reads it.
  lemma FormatReads(a: Address, read: string -> Option<Byte>)
    requires read == PlainOctet || read == SignedOctet
    ensures ReadAddress(read, Format(a)) == Some(a)
  {
    hide Decimal.Print, Join, Split, ReadOctets, FromOctets;
    var o := Octets(a);
    var texts := [Decimal.Print(o[0]), Decimal.Print(o[1]), Decimal.Print(o[2]), Decimal.Print(o[3])];
    forall i | 0 <= i < 4 ensures '.' !in texts[i] && read(texts[i]) == Some(o[i]) {
      PrintedOctet(o[i]);
      assert texts[i] == Decimal.Print(o[i]);
    }
    SplitOfJoin(texts, '.');
    assert ReadOctets(read, texts).Some? && ReadOctets(read, texts).value == o;
    OctetsRoundTrip(a);
  }

  // The texts from which the validator makes its ranges all read, so making them cannot fail.
  lemma RangeTextsRead()
    ensures ReadAddress(PlainOctet, "10.0.0.0") == Some(TEN)
    ensures ReadAddress(PlainOctet, "172.16.0.0") == Some(ONE_SEVENTY_TWO)
    ensures ReadAddress(PlainOctet, "192.168.0.0") == Some(ONE_NINETY_TWO)
    ensures ReadAddress(PlainOctet, "169.254.0.0") == Some(LINK_LOCAL)
    ensures ReadAddress(PlainOctet, "198.18.0.0") == Some(OVERLAY)
  {
    hide ReadAddress, FromOctets, Decimal.Print;
    PrintedNumbers();
    FormatText(TEN, "10", "0", "0", "0");
    FormatText(ONE_SEVENTY_TWO, "172", "16", "0", "0");
    FormatText(ONE_NINETY_TWO, "192", "168", "0", "0");
    FormatText(LINK_LOCAL, "169", "254", "0", "0");
    FormatText(OVERLAY, "198", "18", "0", "0");
    assert "10" + "." + "0" + "." + "0" + "." + "0" == "10.0.0.0";
    assert "172" + "." + "16" + "." + "0" + "." + "0" == "172.16.0.0";
    assert "192" + "." + "168" + "." + "0" + "." + "0" == "192.168.0.0";
    assert "169" + "." + "254" + "." + "0" + "." + "0" == "169.254.0.0";
    assert "198" + "." + "18" + "." + "0" + "." + "0" == "198.18.0.0";
  }

  lemma PrintedNumbers()
    ensures Decimal.Print(0) == "0" && Decimal.Print(10) == "10" &&
            Decimal.Print(16) == "16" && Decimal.Print(18) == "18"
    ensures Decimal.Print(172) == "172" && Decimal.Print(192) == "192" && Decimal.Print(168) == "168"
    ensures Decimal.Print(169) == "169" && Decimal.Print(254) == "254" && Decimal.Print(198) == "198"
  {
    hide Decimal.Print;
    PrintedDigits();
    OneMoreDigit(1, 0);
    OneMoreDigit(1, 6);
    OneMoreDigit(1, 7);
    OneMoreDigit(1, 8);
    OneMoreDigit(1, 9);
    OneMoreDigit(2, 5);
    OneMoreDigit(16, 8);
    OneMoreDigit(16, 9);
    OneMoreDigit(17, 2);
    OneMoreDigit(19, 2);
    OneMoreDigit(19, 8);
    OneMoreDigit(25, 4);
  }

  lemma PrintedDigits()
    ensures Decimal.Print(0) == "0" && Decimal.Print(1) == "1" && Decimal.Print(2) == "2"
  {
  }

  lemma OneMoreDigit(n: nat, d: nat)
    requires 0 < n && d < 10
    ensures Decimal.Print(10 * n + d) == Decimal.Print(n) + [Decimal.DigitOf(d)]
  {
  }

  lemma FormatText(a: Address, t0: string, t1: string, t2: string, t3: string)
    requires var o := Octets(a);
             Decimal.Print(o[0]) == t0 && Decimal.Print(o[1]) == t1 &&
             Decimal.Print(o[2]) == t2 && Decimal.Print(o[3]) == t3
    ensures ReadAddress(PlainOctet, t0 + "." + t1 + "." + t2 + "." + t3) == Some(a)
  {
    hide ReadAddress, Decimal.Print, Octets;
    FormatReads(a, PlainOctet);
    var texts := [t0, t1, t2, t3];
    assert texts[1..] == [t1, t2, t3] && [t1, t2, t3][1..] == [t2, t3] && [t2, t3][1..] == [t3];
    assert Join([t2, t3], '.') == t2 + "." + t3;
    assert Join([t1, t2, t3], '.') == t1 + "." + (t2 + "." + t3);
    assert Join(texts, '.') == t0 + "." + t1 + "." + t2 + "." + t3;
  }

  predicate WithinText(first: Address, last: Address, text: string, bits: nat)
    requires bits <= 32
  {
    match ReadAddress(PlainOctet, text)
    case Some(base) => Within(first, last, base, bits)
    case None => false
  }

  // The ranges that the validator computes from text are the constants of the factory.
  lemma RangesAgree(first: Address, last: Address)
    requires first <= last
    ensures InOneAllowedRange(first, last) <==>
            || WithinText(first, last, "10.0.0.0", 8) || WithinText(first, last, "172.16.0.0", 12)
            || WithinText(first, last, "192.168.0.0", 16) || WithinText(first, last, "169.254.0.0", 16)
            || WithinText(first, last, "198.18.0.0", 15)
  {
    hide ReadAddress, Within, InOneAllowedRange;
    RangeTextsRead();
    RangesByNumber(first, last);
  }

  // A printed address starts with a digit and holds no slash.
  lemma FormatShape(a: Address)
    ensures Format(a) != "" && Decimal.IsDigit(Format(a)[0]) && '/' !in Format(a)
  {
    hide Decimal.Print, Octets;
    var o := Octets(a);
    PrintedOctet(o[0]);
    PrintedOctet(o[1]);
    PrintedOctet(o[2]);
    PrintedOctet(o[3]);
    var texts := [Decimal.Print(o[0]), Decimal.Print(o[1]), Decimal.Print(o[2]), Decimal.Print(o[3])];
    JoinHas(texts, '.', '/');
    assert Join(texts, '.')[0] == texts[0][0] && Decimal.IsDigit(texts[0][0]);
  }

  // What the validator prints for a route, it parses back to that route, whatever the trimming set.
  lemma DescribeValidates(blank: char -> bool, c: Cidr, index: nat)
    requires Separable(blank) && Normal(c)
    ensures Validated(blank, Describe(c), index) == Ok(c)
  {
    hide Decimal.Print, Format, ReadAddress, ParseInt, Masked, LastOf, SplitOnce, TrimBy, InOneAllowedRange;
    var s := Describe(c);
    FormatShape(c.network);
    PrintedPrefix(c.prefix);
    FormatReads(c.network, PlainOctet);
    assert Decimal.IsDigit(s[0]) && Decimal.IsDigit(s[|s| - 1]);
    NothingToTrim(blank, s);
    SplitAt(Format(c.network), '/', Decimal.Print(c.prefix));
  }

  // The factory accepts it too, with the same network and mask.
  lemma DescribeIncluded(c: Cidr)
    requires Normal(c)
    ensures Installs(Included(Describe(c)), c)
  {
    hide Decimal.Print, Format, ReadAddress, ParseInt, Masked, LastOf, InOneAllowedRange;
    FormatShape(c.network);
    PrintedPrefix(c.prefix);
    FormatReads(c.network, SignedOctet);
    SplitAt(Format(c.network), '/', Decimal.Print(c.prefix));
    NoSplit(Decimal.Print(c.prefix), '/');
  }

  // Which error the validator reports for text that is no route at all, and where.
  lemma MalformedRoute(blank: char -> bool, raw: string, index: nat)
    ensures var v, route := Validated(blank, raw, index), TrimBy(blank, raw);
            && (v == Err(EmptyRoute(index)) <==> AllBlank(blank, raw))
            && (v == Err(InvalidCidr(route)) <==> route != "" && '/' !in route)
            && (v == Err(InvalidIpv4(route)) <==>
                exists address, length :: route == address + "/" + length && '/' !in address &&
                                          ReadAddress(PlainOctet, address).None?)
  {
    hide TrimBy, ReadAddress, ParseInt, Masked, LastOf, SplitOnce, InOneAllowedRange, AllBlank;
    BlankExactly(blank, raw);
    var route := TrimBy(blank, raw);
    forall address, length | route == address + "/" + length && '/' !in address
      ensures SplitOnce(route, '/') == Some((address, length))
    {
      SplitAt(address, '/', length);
      assert address + "/" + length == address + ['/'] + length;
    }
    match SplitOnce(route, '/')
    case None =>
    case Some((address, length)) => assert route == address + "/" + length;
  }

  // Every printed address with every printed length: what each parser makes of it.
  lemma PrintedRouteExactly(blank: char -> bool, a: Address, bits: nat, index: nat)
    requires Separable(blank)
    ensures var text := Format(a) + "/" + Decimal.Print(bits);
            var v, f := Validated(blank, text, index), Included(text);
            if !(1 <= bits <= 32) then v == Err(InvalidPrefix(text)) && f == Err(BadPrefix(text))
            else if InOneAllowedRange(Masked(a, bits), LastOf(a, bits)) then
              v == Ok(Cidr(Masked(a, bits), bits)) && Installs(f, v.value)
            else v == Err(PublicRoute(text)) && f == Err(NotPrivate(text))
  {
    hide Decimal.Print, Format, ReadAddress, ParseInt, Masked, LastOf, SplitOnce, Split, TrimBy, InOneAllowedRange;
    var address, length := Format(a), Decimal.Print(bits);
    var text := address + "/" + length;
    FormatShape(a);
    PrintedPrefix(bits);
    FormatReads(a, PlainOctet);
    FormatReads(a, SignedOctet);
    assert text == address + ['/'] + length;
    assert Decimal.IsDigit(text[0]) && Decimal.IsDigit(text[|text| - 1]);
    NothingToTrim(blank, text);
    SplitAt(address, '/', length);
    SplitOnceOnly(address, length);
  }

  lemma NoSplit(s: string, c: char)
    requires c !in s
    ensures Split(s, c) == [s]
  {
  }

  // The validator's result for a list is one normal route per entry.
  lemma {:induction false} ValidateFirstExactly(blank: char -> bool, routes: seq<string>)
    ensures match ValidateFirst(blank, routes)
            case Ok(out) =>
              |out| == |routes| &&
              forall i :: 0 <= i < |routes| ==> Validated(blank, routes[i], i).Ok? &&
                                                out[i] == Describe(Validated(blank, routes[i], i).value)
            case Err(e) =>
              exists i :: 0 <= i < |routes| && Validated(blank, routes[i], i) == Err(e) &&
                          forall j :: 0 <= j < i ==> Validated(blank, routes[j], j).Ok?
  {
    hide Validated, Describe;
    if routes != [] {
      var last := |routes| - 1;
      ValidateFirstExactly(blank, routes[..last]);
      match ValidateFirst(blank, routes[..last])
      case Err(e) =>
        var i :| 0 <= i < last && Validated(blank, routes[..last][i], i) == Err(e) &&
                 forall j :: 0 <= j < i ==> Validated(blank, routes[..last][j], j).Ok?;
        forall j | 0 <= j < i ensures Validated(blank, routes[j], j).Ok? {
          assert routes[..last][j] == routes[j];
        }
        assert Validated(blank, routes[i], i) == Err(e);
      case Ok(_) =>
        assert forall j :: 0 <= j < last ==> routes[..last][j] == routes[j];
    }
  }

  /** The validator accepts `raw`, and the factory installs the same route from `text`. */
  ghost predicate PassedOn(blank: char -> bool, raw: string, index: nat, text: string)
  {
    match Validated(blank, raw, index)
    case Ok(c) => text == Describe(c) && Installs(Included(text), c)
    case Err(_) => false
  }

  // Validation is idempotent, and the factory installs everything it returns.
  lemma ValidateIdempotent(blank: char -> bool, routes: seq<string>)
    requires Separable(blank) && ValidateFirst(blank, routes).Ok?
    ensures var out := ValidateFirst(blank, routes).value;
            && ValidateFirst(blank, out) == Ok(out)
            && |out| == |routes| && forall i :: 0 <= i < |out| ==> PassedOn(blank, routes[i], i, out[i])
  {
    hide Validated, Describe, ValidateFirst, Included, Installs, Separable, Normal;
    ValidateFirstExactly(blank, routes);
    var out := ValidateFirst(blank, routes).value;
    forall i | 0 <= i < |out|
      ensures Validated(blank, out[i], i) == Validated(blank, routes[i], i)
      ensures PassedOn(blank, routes[i], i, out[i])
    {
      ValidatedIsNormal(blank, routes[i], i);
      DescribeValidates(blank, Validated(blank, routes[i], i).value, i);
      DescribeIncluded(Validated(blank, routes[i], i).value);
    }
    ValidateFirstExactly(blank, out);
    assert ValidateFirst(blank, out).Ok? && ValidateFirst(blank, out).value == out;
  }

  // ---- Where the parsers agree on other text ----

  /** No sign in front of the slash. */
  predicate UnsignedAddress(raw: string)
  {
    match SplitOnce(raw, '/')
    case None => true
    case Some((address, _)) => '+' !in address && '-' !in address
  }

  lemma OctetsAgree(s: string)
    ensures PlainOctet(s).Some? ==> SignedOctet(s) == PlainOctet(s) && '+' !in s && '-' !in s
    ensures SignedOctet(s).Some? && '+' !in s && '-' !in s ==> PlainOctet(s) == SignedOctet(s)
  {
  }

  // The validator reads exactly the unsigned addresses that the factory reads, and reads the same address.
  lemma AddressesAgree(text: string)
    ensures ReadAddress(PlainOctet, text).Some? <==>
            ReadAddress(SignedOctet, text).Some? && '+' !in text && '-' !in text
    ensures ReadAddress(PlainOctet, text).Some? ==> ReadAddress(PlainOctet, text) == ReadAddress(SignedOctet, text)
  {
    hide PlainOctet, SignedOctet, Split, FromOctets, Join;
    var octets := Split(text, '.');
    JoinOfSplit(text, '.');
    JoinHas(octets, '.', '+');
    JoinHas(octets, '.', '-');
    forall i | 0 <= i < |octets|
      ensures PlainOctet(octets[i]).Some? ==>
                SignedOctet(octets[i]) == PlainOctet(octets[i]) && '+' !in octets[i] && '-' !in octets[i]
      ensures SignedOctet(octets[i]).Some? && '+' !in octets[i] && '-' !in octets[i] ==>
                PlainOctet(octets[i]) == SignedOctet(octets[i])
    {
      OctetsAgree(octets[i]);
    }
    if ReadAddress(PlainOctet, text).Some? {
      assert ReadOctets(PlainOctet, octets).value == ReadOctets(SignedOctet, octets).value;
    }
  }

  // A number has no slash, and its last character is a digit.
  lemma IntShape(s: string)
    requires ParseInt(s).Some?
    ensures s != "" && Decimal.IsDigit(s[|s| - 1]) && '/' !in s
  {
    var digits := Unsigned(s);
    assert s == digits || s == [s[0]] + digits;
    assert Decimal.IsDigit(digits[|digits| - 1]);
  }

  lemma AddressShape(text: string)
    requires ReadAddress(SignedOctet, text).Some?
    ensures text != "" && (Decimal.IsDigit(text[0]) || text[0] == '+' || text[0] == '-')
  {
    hide ReadOctets, FromOctets;
    var octets := Split(text, '.');
    var first := octets[0];
    assert SignedOctet(first).Some?;
    JoinOfSplit(text, '.');
    assert text[0] == first[0];
  }

  // Of any text, the validator accepts exactly what the factory accepts without signs in the
  // address, provided nothing is there to trim, and both then describe the same route.
  lemma ParsersAgreeExactly(blank: char -> bool, raw: string, index: nat)
    requires Separable(blank)
    ensures Validated(blank, raw, index).Ok? && TrimBy(blank, raw) == raw <==> Included(raw).Ok? && UnsignedAddress(raw)
    ensures Included(raw).Ok? && UnsignedAddress(raw) ==> Installs(Included(raw), Validated(blank, raw, index).value)
  {
    hide ReadAddress, ParseInt, TrimBy, Masked, LastOf, InOneAllowedRange, Format;
    match SplitOnce(raw, '/')
    case None =>
    case Some((address, length)) =>
      AddressesAgree(address);
      if ParseInt(length).Some? {
        IntShape(length);
        NoSplit(length, '/');
        assert Split(raw, '/') == [address, length];
        if ReadAddress(SignedOctet, address).Some? {
          AddressShape(address);
          assert raw[0] == address[0] && raw[|raw| - 1] == length[|length| - 1];
          NothingToTrim(blank, raw);
        }
      }
  }

  // A signed octet tells the two apart.
  lemma SignedOctetDiffers(blank: char -> bool)
    requires Separable(blank)
    ensures var raw := "+10.0.0.0/8"; Included(raw).Ok? && !Validated(blank, raw, 0).Ok?
  {
    hide ReadAddress, ParseInt, TrimBy, Masked, LastOf, Format, Included, Validated, SplitOnce;
    var raw, address := "+10.0.0.0/8", "+10.0.0.0";
    assert raw == address + ['/'] + "8";
    SplitAt(address, '/', "8");
    assert address[0] == '+';
    ParsersAgreeExactly(blank, raw, 0);
    SignedTen();
    assert TrimBy(blank, raw) == raw by { NothingToTrim(blank, raw); }
  }

  lemma SignedTen()
    ensures Included("+10.0.0.0/8").Ok?
  {
    hide Masked, LastOf, Format, ParseInt, SplitOnce, Split, ReadAddress, Shl;
    var raw, address := "+10.0.0.0/8", "+10.0.0.0";
    assert raw == address + "/" + "8";
    SplitOnceOnly(address, "8");
    SignedTenAddress();
    assert ParseInt("8") == Some(8) by { PrintedPrefix(8); assert Decimal.Print(8) == "8"; }
    TenIsRoutable();
  }

  lemma SplitOnceOnly(head: string, tail: string)
    requires '/' !in head && '/' !in tail
    ensures Split(head + "/" + tail, '/') == [head, tail]
  {
    SplitAt(head, '/', tail);
    NoSplit(tail, '/');
  }

  lemma TenIsRoutable()
    ensures Routable(TEN, 8)
  {
    hide Shl, Shr, Masked, LastOf;
    ShlSizes(10);
    ShlSizes(11);
    RangeOf(10, 24);
  }

  lemma SignedTenAddress()
    ensures ReadAddress(SignedOctet, "+10.0.0.0") == Some(TEN)
  {
    hide Split;
    var texts := ["+10", "0", "0", "0"];
    assert Join(texts, '.') == "+10.0.0.0" by {
      assert texts[1..][1..][1..] == ["0"] && texts[1..][1..][0] == "0" && texts[1..][0] == "0";
    }
    SplitOfJoin(texts, '.');
    assert Decimal.Value("10") == 10 by { assert "10"[..1] == "1" && "1"[..0] == ""; }
    assert Decimal.Value("0") == 0 by { assert "0"[..0] == ""; }
    assert Unsigned("+10") == "10";
    assert SignedOctet("+10") == Some(10) && SignedOctet("0") == Some(0);
    assert ReadOctets(SignedOctet, texts).value == [10, 0, 0, 0];
  }
}

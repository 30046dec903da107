/**
Peer runtime records (`peer_runtime.rs`): LAN Export prefixes, the canonical record built from
them, its binary form, and the record a Peer publishes for the networks it is attached to.
*/
module RuntimeRecord {
  import opened Basics
  import opened Ipv4

  const MAX_EXPORTS := 64

  datatype RuntimeError = InvalidPrefix | TooManyExports | DuplicatePrefix | InvalidEncoding | InvalidOrigin

  // ---- Prefixes ----

  datatype Prefix = Prefix(network: Address, bits: Byte)

  const OVERLAY_BASE: Address := 0xC612_0000
  const OVERLAY_LAST: Address := 0xC612_FFFF

  /** The checks of `LanExportPrefixV2::new`, in its terms: only the two ends are looked at. */
  predicate Admissible(p: Prefix)
  {
    && 8 <= p.bits <= 32
    && Masked(p.network, p.bits) == p.network
    && IsRfc1918(p.network)
    && IsRfc1918(LastOf(p.network, p.bits))
    && !(p.network <= OVERLAY_LAST && OVERLAY_BASE <= LastOf(p.network, p.bits))
    && p.network / 0x100_0000 != 127
    && p.network / 0x1_0000 != 0xA9FE
    && !(0xE000_0000 <= p.network <= 0xEFFF_FFFF)
    && p.network != 0
  }

  function NewPrefix(network: Address, bits: Byte): (r: Result<Prefix, RuntimeError>)
  {
    if Admissible(Prefix(network, bits)) then Ok(Prefix(network, bits)) else Err(InvalidPrefix)
  }

  // Testing the two ends suffices: a prefix is admitted exactly when it is canonical, no wider
  // than /8, and every address in it lies in one RFC 1918 block.
  lemma AdmissibleExactly(p: Prefix)
    ensures Admissible(p) <==>
            8 <= p.bits <= 32 && Masked(p.network, p.bits) == p.network &&
            InOneRfc1918Block(p.network, LastOf(p.network, p.bits))
  {
    if 8 <= p.bits <= 32 && Masked(p.network, p.bits) == p.network {
      // The two ends agree on their first octet, so they cannot be in different blocks.
      SameFirstOctet(p.network, p.bits);
    }
  }

  lemma SameFirstOctet(network: Address, bits: nat)
    requires 8 <= bits <= 32 && Masked(network, bits) == network
    ensures LastOf(network, bits) / 0x100_0000 == network / 0x100_0000
  {
    var last := LastOf(network, bits);
    BlockIsInterval(last, network, bits);
    WiderBlock(last, network, bits, 8);
    BlockIsInterval(last, network, 8);
    FirstOctet(last);
    FirstOctet(network);
  }

  /** Whether a prefix covers an address. */
  predicate Contains(p: Prefix, a: Address)
  {
    p.bits <= 32 && Masked(a, p.bits) == p.network
  }

  lemma ContainsExactly(p: Prefix, a: Address)
    requires Admissible(p)
    ensures Contains(p, a) <==> p.network <= a <= LastOf(p.network, p.bits)
  {
    BlockIsInterval(a, p.network, p.bits);
  }

  // Every address an export covers is private, and lies in the same RFC 1918 block as the rest.
  lemma ExportStaysPrivate(p: Prefix, a: Address)
    requires Admissible(p) && Contains(p, a)
    ensures IsRfc1918(a)
    ensures p.network <= a <= LastOf(p.network, p.bits)
    ensures InOneRfc1918Block(p.network, LastOf(p.network, p.bits))
  {
    AdmissibleExactly(p);
    ContainsExactly(p, a);
  }

  // ---- Records ----

  datatype LanExport = LanExport(prefix: Prefix, ready: bool)

  /** Numbers prefixes in the order of `(network, prefix_len)` pairs. */
  function Key(p: Prefix): int
  {
    p.network * 256 + p.bits
  }

  function ExportKey(e: LanExport): int
  {
    Key(e.prefix)
  }

  lemma KeyOrdersPairs(p: Prefix, q: Prefix)
    ensures Key(p) < Key(q) <==> p.network < q.network || (p.network == q.network && p.bits < q.bits)
    ensures Key(p) == Key(q) <==> p == q
  {
  }

  datatype RawRecord = RawRecord(exports: seq<LanExport>)

  predicate AllAdmissible(exports: seq<LanExport>)
  {
    forall e :: e in exports ==> Admissible(e.prefix)
  }

  predicate Canonical(r: RawRecord)
  {
    |r.exports| <= MAX_EXPORTS && AllAdmissible(r.exports) && StrictlySortedBy(ExportKey, r.exports)
  }

  /** What `PeerRuntimeRecordV2::new` can return for prefixes that came from `LanExportPrefixV2::new`. */
  type Record = r: RawRecord | Canonical(r) witness RawRecord([])

  function NewRecord(exports: seq<LanExport>): (r: Result<Record, RuntimeError>)
    requires AllAdmissible(exports)
  {
    if |exports| > MAX_EXPORTS then Err(TooManyExports) else
      var sorted := SortBy(ExportKey, exports);
      if exists i :: 0 <= i < |sorted| - 1 && sorted[i].prefix == sorted[i + 1].prefix then
        Err(DuplicatePrefix)
      else
        NeighbourPrefixes(sorted);
        Ok(RawRecord(sorted))
  }

  predicate DistinctPrefixes(exports: seq<LanExport>)
  {
    forall i, j :: 0 <= i < j < |exports| ==> exports[i].prefix != exports[j].prefix
  }

  lemma DistinctByPrefix(exports: seq<LanExport>)
    ensures DistinctBy(ExportKey, exports) <==> DistinctPrefixes(exports)
  {
    forall i, j | 0 <= i < j < |exports|
      ensures ExportKey(exports[i]) == ExportKey(exports[j]) <==> exports[i].prefix == exports[j].prefix
    {
      KeyOrdersPairs(exports[i].prefix, exports[j].prefix);
    }
  }

  // Comparing neighbours of the sorted list finds every duplicate.
  lemma NeighbourPrefixes(sorted: seq<LanExport>)
    requires SortedBy(ExportKey, sorted)
    ensures StrictlySortedBy(ExportKey, sorted) <==>
            forall i :: 0 <= i < |sorted| - 1 ==> sorted[i].prefix != sorted[i + 1].prefix
    ensures StrictlySortedBy(ExportKey, sorted) <==> DistinctPrefixes(sorted)
  {
    NeighboursSuffice(ExportKey, sorted);
    DistinctByPrefix(sorted);
    forall i | 0 <= i < |sorted| - 1
      ensures ExportKey(sorted[i]) == ExportKey(sorted[i + 1]) <==> sorted[i].prefix == sorted[i + 1].prefix
    {
      KeyOrdersPairs(sorted[i].prefix, sorted[i + 1].prefix);
    }
  }

  lemma PermutedPrefixes(xs: seq<LanExport>, ys: seq<LanExport>)
    requires multiset(xs) == multiset(ys)
    ensures DistinctPrefixes(xs) <==> DistinctPrefixes(ys)
  {
    DistinctByPrefix(xs);
    DistinctByPrefix(ys);
    if DistinctBy(ExportKey, xs) { PermutationKeepsDistinct(ExportKey, xs, ys); }
    if DistinctBy(ExportKey, ys) { PermutationKeepsDistinct(ExportKey, ys, xs); }
  }

  // `new` succeeds exactly on lists of at most 64 exports with distinct prefixes, and then holds
  // exactly the exports it was given.
  lemma NewRecordExactly(exports: seq<LanExport>)
    requires AllAdmissible(exports)
    ensures NewRecord(exports).Ok? <==> |exports| <= 64 && DistinctPrefixes(exports)
    ensures NewRecord(exports).Ok? ==> multiset(NewRecord(exports).value.exports) == multiset(exports)
    ensures NewRecord(exports).Err? ==>
              NewRecord(exports).error == if |exports| > 64 then TooManyExports else DuplicatePrefix
  {
    hide Admissible, SortBy, DistinctPrefixes, SortedBy, StrictlySortedBy;
    var sorted := SortBy(ExportKey, exports);
    NeighbourPrefixes(sorted);
    PermutedPrefixes(exports, sorted);
  }

  // The order in which exports are listed does not matter, not even for the error.
  lemma NewRecordIgnoresOrder(xs: seq<LanExport>, ys: seq<LanExport>)
    requires multiset(xs) == multiset(ys) && AllAdmissible(xs) && AllAdmissible(ys)
    ensures NewRecord(xs) == NewRecord(ys)
  {
    assert |xs| == |multiset(xs)| == |multiset(ys)| == |ys|;
    NewRecordExactly(xs);
    NewRecordExactly(ys);
    PermutedPrefixes(xs, ys);
    if NewRecord(xs).Ok? {
      var r, t := NewRecord(xs).value, NewRecord(ys).value;
      forall x ensures x in r.exports <==> x in t.exports {
        assert x in r.exports <==> x in multiset(r.exports);
        assert x in t.exports <==> x in multiset(t.exports);
      }
      StrictlySortedUnique(ExportKey, r.exports, t.exports);
    }
  }

  // ---- Binary form ----

  const EXPORT_BYTES := 6

  function ExportBytes(e: LanExport): (r: seq<Byte>)
    ensures |r| == EXPORT_BYTES
  {
    Octets(e.prefix.network) + [e.prefix.bits, if e.ready then 1 else 0]
  }

  function AllExportBytes(exports: seq<LanExport>): (r: seq<Byte>)
    ensures |r| == EXPORT_BYTES * |exports|
  {
    if exports == [] then [] else AllExportBytes(exports[..|exports| - 1]) + ExportBytes(exports[|exports| - 1])
  }

  /** What `encode` returns: the export count, then six bytes an export. */
  function Encoding(r: Record): (b: seq<Byte>)
  {
    [|r.exports|] + AllExportBytes(r.exports)
  }

  function ParseExport(chunk: seq<Byte>): (r: Result<LanExport, RuntimeError>)
    requires |chunk| == EXPORT_BYTES
    ensures r.Ok? ==> Admissible(r.value.prefix)
  {
    var prefix := NewPrefix(FromOctets(chunk[..4]), chunk[4]);
    if prefix.Err? then Err(prefix.error)
    else if chunk[5] > 1 then Err(InvalidEncoding)
    else Ok(LanExport(prefix.value, chunk[5] == 1))
  }

  function Chunk(bytes: seq<Byte>, i: nat): (r: seq<Byte>)
    requires (i + 1) * EXPORT_BYTES <= |bytes|
    ensures |r| == EXPORT_BYTES
  {
    bytes[i * EXPORT_BYTES..(i + 1) * EXPORT_BYTES]
  }

  /** The exports of the first `n` chunks, or the error of the first bad one. */
  function ParseExports(bytes: seq<Byte>, n: nat): (r: Result<seq<LanExport>, RuntimeError>)
    requires n * EXPORT_BYTES <= |bytes|
    ensures r.Ok? ==> |r.value| == n && AllAdmissible(r.value)
  {
    if n == 0 then Ok([]) else
      var before := ParseExports(bytes, n - 1);
      if before.Err? then before else
        var last := ParseExport(Chunk(bytes, n - 1));
        if last.Err? then Err(last.error) else Ok(before.value + [last.value])
  }

  /** What `decode` returns. */
  function Decoding(bytes: seq<Byte>): (r: Result<Record, RuntimeError>)
  {
    if bytes == [] || bytes[0] > MAX_EXPORTS || |bytes| != 1 + bytes[0] * EXPORT_BYTES then
      Err(InvalidEncoding)
    else
      var exports := ParseExports(bytes[1..], bytes[0]);
      if exports.Err? then Err(exports.error) else NewRecord(exports.value)
  }

  method Encode(r: Record) returns (encoded: seq<Byte>)
    ensures encoded == Encoding(r)
  {
    hide Admissible;
    encoded := [|r.exports|];
    for i := 0 to |r.exports|
      invariant encoded == [|r.exports|] + AllExportBytes(r.exports[..i])
    {
      assert r.exports[..i + 1][..i] == r.exports[..i];
      encoded := encoded + Octets(r.exports[i].prefix.network);
      encoded := encoded + [r.exports[i].prefix.bits];
      encoded := encoded + [if r.exports[i].ready then 1 else 0];
    }
    assert r.exports[..|r.exports|] == r.exports;
  }

  method Decode(encoded: seq<Byte>) returns (r: Result<Record, RuntimeError>)
    ensures r == Decoding(encoded)
  {
    hide Admissible, ParseExport, NewRecord;
    if encoded == [] {
      return Err(InvalidEncoding);
    }
    var count: nat := encoded[0];
    if count > MAX_EXPORTS || |encoded| != 1 + count * EXPORT_BYTES {
      return Err(InvalidEncoding);
    }
    var body := encoded[1..];
    var exports: seq<LanExport> := [];
    for i := 0 to count
      invariant ParseExports(body, i) == Ok(exports)
    {
      var next := ParseExport(Chunk(body, i));
      if next.Err? {
        FirstErrorWins(body, i + 1, count);
        return Err(next.error);
      }
      ParseNext(body, i, exports, next.value);
      exports := exports + [next.value];
    }
    r := NewRecord(exports);
  }

  lemma {:induction false} FirstErrorWins(bytes: seq<Byte>, m: nat, n: nat)
    requires m <= n && n * EXPORT_BYTES <= |bytes|
    requires ParseExports(bytes, m).Err?
    ensures ParseExports(bytes, n) == ParseExports(bytes, m)
  {
    hide Admissible;
    if m < n {
      FirstErrorWins(bytes, m, n - 1);
    }
  }

  lemma ParseExportInverts(e: LanExport)
    requires Admissible(e.prefix)
    ensures ParseExport(ExportBytes(e)) == Ok(e)
  {
    var chunk := ExportBytes(e);
    assert chunk[..4] == Octets(e.prefix.network);
    OctetsRoundTrip(e.prefix.network);
  }

  // Parsing loses nothing: an export determines the six bytes it came from.
  lemma ParseExportRebuilds(chunk: seq<Byte>)
    requires |chunk| == EXPORT_BYTES && ParseExport(chunk).Ok?
    ensures ExportBytes(ParseExport(chunk).value) == chunk
  {
    assert chunk == chunk[..4] + [chunk[4], chunk[5]];
  }

  lemma {:induction false} ChunksOf(exports: seq<LanExport>, i: nat)
    requires i < |exports|
    ensures Chunk(AllExportBytes(exports), i) == ExportBytes(exports[i])
  {
    var before := exports[..|exports| - 1];
    if i < |before| {
      ChunksOf(before, i);
      assert Chunk(AllExportBytes(exports), i) == Chunk(AllExportBytes(before), i);
    }
  }

  // The wire format: a count, then for each export the big-endian network, the length and the ready flag.
  lemma EncodingLayout(r: Record, i: nat)
    requires i < |r.exports|
    ensures |Encoding(r)| == 1 + 6 * |r.exports| && Encoding(r)[0] == |r.exports|
    ensures var e := r.exports[i];
            Encoding(r)[1 + 6 * i..7 + 6 * i] == Octets(e.prefix.network) + [e.prefix.bits, if e.ready then 1 else 0]
  {
    hide Canonical, AllExportBytes, Octets;
    ChunksOf(r.exports, i);
    assert Encoding(r)[1 + 6 * i..7 + 6 * i] == Chunk(AllExportBytes(r.exports), i);
  }

  lemma ParseNext(bytes: seq<Byte>, n: nat, before: seq<LanExport>, next: LanExport)
    requires (n + 1) * EXPORT_BYTES <= |bytes|
    requires ParseExports(bytes, n) == Ok(before) && ParseExport(Chunk(bytes, n)) == Ok(next)
    ensures ParseExports(bytes, n + 1) == Ok(before + [next])
  {
  }

  lemma {:induction false} ParseExportsInverts(exports: seq<LanExport>, n: nat)
    requires n <= |exports| && AllAdmissible(exports)
    ensures ParseExports(AllExportBytes(exports), n) == Ok(exports[..n])
  {
    hide Admissible, AllExportBytes, ExportBytes, ParseExport, Chunk;
    if n > 0 {
      ParseExportsInverts(exports, n - 1);
      ChunksOf(exports, n - 1);
      ParseExportInverts(exports[n - 1]);
      ParseNext(AllExportBytes(exports), n - 1, exports[..n - 1], exports[n - 1]);
      assert exports[..n] == exports[..n - 1] + [exports[n - 1]];
    }
  }

  lemma MoreExportBytes(exports: seq<LanExport>, e: LanExport)
    ensures AllExportBytes(exports + [e]) == AllExportBytes(exports) + ExportBytes(e)
  {
    hide ExportBytes;
    assert (exports + [e])[..|exports|] == exports;
  }

  lemma {:induction false} ParseExportsRebuilds(bytes: seq<Byte>, n: nat)
    requires n * EXPORT_BYTES <= |bytes|
    requires ParseExports(bytes, n).Ok?
    ensures AllExportBytes(ParseExports(bytes, n).value) == bytes[..n * EXPORT_BYTES]
  {
    hide Admissible, AllExportBytes, ExportBytes, ParseExport;
    if n == 0 {
      assert AllExportBytes([]) == [];
    } else {
      ParseExportsRebuilds(bytes, n - 1);
      var before, chunk := ParseExports(bytes, n - 1).value, Chunk(bytes, n - 1);
      MoreExportBytes(before, ParseExport(chunk).value);
      ParseExportRebuilds(chunk);
      assert bytes[..n * EXPORT_BYTES] == bytes[..(n - 1) * EXPORT_BYTES] + chunk;
    }
  }

  // A record is what `new` makes of its own exports.
  lemma NewRecordOfRecord(r: Record)
    ensures AllAdmissible(r.exports) && NewRecord(r.exports) == Ok(r)
  {
    hide Admissible;
    SortOfSorted(ExportKey, r.exports);
    NeighbourPrefixes(r.exports);
  }

  lemma RecordRoundTrip(r: Record)
    ensures Decoding(Encoding(r)) == Ok(r)
  {
    hide Admissible, AllExportBytes, ParseExports, NewRecord, SortBy;
    NewRecordOfRecord(r);
    var bytes := Encoding(r);
    assert bytes[1..] == AllExportBytes(r.exports);
    ParseExportsInverts(r.exports, |r.exports|);
    assert r.exports[..|r.exports|] == r.exports;
  }

  lemma EncodingInjective(r: Record, t: Record)
    requires Encoding(r) == Encoding(t)
    ensures r == t
  {
    RecordRoundTrip(r);
    RecordRoundTrip(t);
  }

  // Re-encoding decoded bytes decodes to the same record.
  lemma DecodingCanonicalises(bytes: seq<Byte>)
    requires Decoding(bytes).Ok?
    ensures Decoding(Encoding(Decoding(bytes).value)) == Decoding(bytes)
  {
    RecordRoundTrip(Decoding(bytes).value);
  }

  // Bytes that decode are the encoding of their record exactly when they list its exports in
  // increasing order.
  lemma CanonicalBytes(bytes: seq<Byte>, exports: seq<LanExport>)
    requires bytes != [] && |bytes| == 1 + bytes[0] * EXPORT_BYTES
    requires ParseExports(bytes[1..], bytes[0]) == Ok(exports)
    requires Decoding(bytes).Ok?
    ensures Encoding(Decoding(bytes).value) == bytes <==> SortedBy(ExportKey, exports)
  {
    hide Admissible, ParseExports, AllExportBytes, SortBy, SortedBy, Canonical;
    var body := bytes[1..];
    ParseExportsRebuilds(body, bytes[0]);
    assert body[..bytes[0] * EXPORT_BYTES] == body;
    SortingChangesBytes(exports);
    SameHead(bytes, Encoding(Decoding(bytes).value));
  }

  lemma SameHead(x: seq<Byte>, y: seq<Byte>)
    requires x != [] && y != [] && x[0] == y[0]
    ensures x == y <==> x[1..] == y[1..]
  {
    assert x == [x[0]] + x[1..] && y == [y[0]] + y[1..];
  }

  lemma SortingChangesBytes(exports: seq<LanExport>)
    requires AllAdmissible(exports)
    ensures AllExportBytes(SortBy(ExportKey, exports)) == AllExportBytes(exports) <==> SortedBy(ExportKey, exports)
  {
    var sorted := SortBy(ExportKey, exports);
    if SortedBy(ExportKey, exports) {
      SortOfSorted(ExportKey, exports);
    } else {
      BytesDetermineExports(sorted, exports);
    }
  }

  lemma BytesDetermineExports(xs: seq<LanExport>, ys: seq<LanExport>)
    requires AllAdmissible(xs) && AllAdmissible(ys) && |xs| == |ys|
    requires xs != ys
    ensures AllExportBytes(xs) != AllExportBytes(ys)
  {
    hide Admissible;
    ParseExportsInverts(xs, |xs|);
    ParseExportsInverts(ys, |ys|);
    assert xs[..|xs|] == xs && ys[..|ys|] == ys;
  }

  /** The bytes of a count and these exports, in this order. */
  ghost predicate Writes(bytes: seq<Byte>, exports: seq<LanExport>)
  {
    |exports| < 256 && bytes == [|exports|] + AllExportBytes(exports)
  }

  // What decodes: exactly the bytes that write out the exports of a record, in any order, and nothing after them.
  lemma DecodesExactly(bytes: seq<Byte>, r: Record)
    ensures Decoding(bytes) == Ok(r) <==>
            exists exports :: Writes(bytes, exports) && multiset(exports) == multiset(r.exports)
  {
    hide Admissible, AllExportBytes, ParseExports, NewRecord, Canonical;
    if Decoding(bytes) == Ok(r) {
      var exports := ParseExports(bytes[1..], bytes[0]).value;
      ParseExportsRebuilds(bytes[1..], bytes[0]);
      assert bytes[1..][..bytes[0] * EXPORT_BYTES] == bytes[1..];
      assert bytes == [bytes[0]] + bytes[1..];
      NewRecordExactly(exports);
      assert Writes(bytes, exports);
    }
    forall exports | Writes(bytes, exports) && multiset(exports) == multiset(r.exports)
      ensures Decoding(bytes) == Ok(r)
    {
      WrittenDecodes(bytes, exports, r);
    }
  }

  lemma WrittenDecodes(bytes: seq<Byte>, exports: seq<LanExport>, r: Record)
    requires Writes(bytes, exports) && multiset(exports) == multiset(r.exports)
    ensures Decoding(bytes) == Ok(r)
  {
    hide Admissible, AllExportBytes, ParseExports, NewRecord, SortBy;
    assert |exports| == |multiset(exports)| == |multiset(r.exports)| == |r.exports|;
    forall e | e in exports ensures Admissible(e.prefix) {
      assert e in multiset(exports);
      assert e in r.exports;
    }
    NewRecordOfRecord(r);
    NewRecordIgnoresOrder(exports, r.exports);
    assert bytes[1..] == AllExportBytes(exports);
    ParseExportsInverts(exports, |exports|);
    assert exports[..|exports|] == exports;
  }

  // ---- The published record ----

  datatype ExportConfig = ExportConfig(configured: seq<Prefix>, autoCurrentLan: bool)

  predicate AdmissiblePrefixes(prefixes: seq<Prefix>)
  {
    forall p :: p in prefixes ==> Admissible(p)
  }

  /** Everything the owner asked for, in the order in which it is admitted. */
  function Candidates(config: ExportConfig, connected: Option<seq<Prefix>>): (r: seq<Prefix>)
  {
    config.configured + if config.autoCurrentLan && connected.Some? then connected.value else []
  }

  predicate IsConnected(p: Prefix, connected: Option<seq<Prefix>>)
  {
    connected.Some? && p in connected.value
  }

  /** The record published for one connected-LAN snapshot, said without the loop. */
  ghost predicate Publishes(config: ExportConfig, connected: Option<seq<Prefix>>, r: Record)
  {
    && (forall e :: e in r.exports ==> e.ready == IsConnected(e.prefix, connected))
    && (forall p :: (exists e :: e in r.exports && e.prefix == p) <==>
                    p in FirstDistinct(Candidates(config, connected), MAX_EXPORTS))
  }

  method Resolve(config: ExportConfig, connected: Option<seq<Prefix>>) returns (r: Record)
    requires AdmissiblePrefixes(config.configured) && (connected.Some? ==> AdmissiblePrefixes(connected.value))
    ensures Publishes(config, connected, r)
  {
    var seen, exports := AdmitTyped(config.configured, connected);
    if config.autoCurrentLan && connected.Some? {
      seen, exports := AdmitLans(config.configured, connected.value, seen, exports);
    } else {
      assert config.configured + [] == config.configured;
    }
    ResolvedRecord(config, connected, seen, exports);
    r := NewRecord(exports).value;
  }

  // The first loop: what the owner typed.
  method AdmitTyped(
    typed: seq<Prefix>, connected: Option<seq<Prefix>>) returns (seen: set<Prefix>, exports: seq<LanExport>)
    ensures Admitted(typed, connected, seen, exports)
  {
    seen, exports := {}, [];
    var i := 0;
    while i < |typed| && |exports| < MAX_EXPORTS
      invariant 0 <= i <= |typed|
      invariant Admitted(typed[..i], connected, seen, exports)
    {
      AdmitNext(typed, i, connected, seen, exports);
      if typed[i] !in seen {
        seen := seen + {typed[i]};
        exports := exports + [LanExport(typed[i], connected.Some? && typed[i] in connected.value)];
      }
      i := i + 1;
    }
    FullStaysFull(typed, i, MAX_EXPORTS);
  }

  // The second loop: the networks this machine is attached to.
  method AdmitLans(typed: seq<Prefix>, lans: seq<Prefix>, seen0: set<Prefix>, exports0: seq<LanExport>)
    returns (seen: set<Prefix>, exports: seq<LanExport>)
    requires Admitted(typed, Some(lans), seen0, exports0)
    ensures Admitted(typed + lans, Some(lans), seen, exports)
  {
    seen, exports := seen0, exports0;
    var all := typed + lans;
    var n := |typed|;
    assert all[..n] == typed;
    var j := 0;
    while j < |lans| && |exports| < MAX_EXPORTS
      invariant 0 <= j <= |lans|
      invariant Admitted(all[..n + j], Some(lans), seen, exports)
    {
      assert all[n + j] == lans[j] && lans[j] in lans;
      AdmitNext(all, n + j, Some(lans), seen, exports);
      if lans[j] !in seen {
        seen := seen + {lans[j]};
        exports := exports + [LanExport(lans[j], true)];
      }
      j := j + 1;
    }
    FullStaysFull(all, n + j, MAX_EXPORTS);
  }

  /** The state of the loops after looking at `candidates`. */
  ghost predicate Admitted(
    candidates: seq<Prefix>, connected: Option<seq<Prefix>>, seen: set<Prefix>, exports: seq<LanExport>)
  {
    var admitted := FirstDistinct(candidates, MAX_EXPORTS);
    && seen == (set p | p in admitted)
    && |exports| == |admitted|
    && forall i :: 0 <= i < |exports| ==> exports[i] == LanExport(admitted[i], IsConnected(admitted[i], connected))
  }

  lemma AdmitNext(
    candidates: seq<Prefix>, i: nat, connected: Option<seq<Prefix>>, seen: set<Prefix>, exports: seq<LanExport>)
    requires i < |candidates| && Admitted(candidates[..i], connected, seen, exports) && |exports| < MAX_EXPORTS
    ensures var p := candidates[i];
            if p in seen then Admitted(candidates[..i + 1], connected, seen, exports)
            else Admitted(candidates[..i + 1], connected, seen + {p},
                          exports + [LanExport(p, IsConnected(p, connected))])
  {
    assert candidates[..i + 1][..i] == candidates[..i];
  }

  // The list the loops build never trips the final `expect`.
  lemma ResolvedRecord(config: ExportConfig, connected: Option<seq<Prefix>>, seen: set<Prefix>, exports: seq<LanExport>)
    requires AdmissiblePrefixes(Candidates(config, connected))
    requires Admitted(Candidates(config, connected), connected, seen, exports)
    ensures AllAdmissible(exports) && NewRecord(exports).Ok? && Publishes(config, connected, NewRecord(exports).value)
  {
    FirstDistinctExactly(Candidates(config, connected), MAX_EXPORTS);
    assert DistinctPrefixes(exports);
    NewRecordExactly(exports);
    AdmittedPublishes(config, connected, seen, exports, NewRecord(exports).value);
  }

  lemma AdmittedPublishes(
    config: ExportConfig, connected: Option<seq<Prefix>>, seen: set<Prefix>, exports: seq<LanExport>,
                          r: Record)
    requires Admitted(Candidates(config, connected), connected, seen, exports)
    requires multiset(r.exports) == multiset(exports)
    ensures Publishes(config, connected, r)
  {
    var admitted := FirstDistinct(Candidates(config, connected), MAX_EXPORTS);
    forall e ensures e in r.exports <==> e in exports {
      assert e in r.exports <==> e in multiset(r.exports);
    }
    forall p | p in admitted ensures exists e :: e in r.exports && e.prefix == p {
      var k :| 0 <= k < |admitted| && admitted[k] == p;
      assert exports[k] in r.exports;
    }
  }

  // The record is determined by the config and the snapshot.
  lemma PublishedRecordUnique(config: ExportConfig, connected: Option<seq<Prefix>>, r: Record, t: Record)
    requires Publishes(config, connected, r) && Publishes(config, connected, t)
    ensures r == t
  {
    forall e ensures e in r.exports <==> e in t.exports {
      assert e in r.exports ==> e.prefix in FirstDistinct(Candidates(config, connected), MAX_EXPORTS);
      assert e in t.exports ==> e.prefix in FirstDistinct(Candidates(config, connected), MAX_EXPORTS);
    }
    StrictlySortedUnique(ExportKey, r.exports, t.exports);
  }

  /** The record lists the prefix, ready or not. */
  predicate Lists(r: Record, p: Prefix)
  {
    LanExport(p, true) in r.exports || LanExport(p, false) in r.exports
  }

  // What is published, prefix by prefix. Without the automatic switch, or without a snapshot, only
  // typed prefixes are; with both, also the connected networks, all of them while there is room.
  // A prefix is ready exactly when a snapshot is present and lists it.
  lemma PublishedExactly(config: ExportConfig, connected: Option<seq<Prefix>>, r: Record, p: Prefix)
    requires Publishes(config, connected, r)
    ensures LanExport(p, true) in r.exports <==> Lists(r, p) && connected.Some? && p in connected.value
    ensures Lists(r, p) ==>
              p in config.configured || (config.autoCurrentLan && connected.Some? && p in connected.value)
    ensures |r.exports| <= 64
    ensures |r.exports| < 64 && p in config.configured ==> Lists(r, p)
    ensures |r.exports| < 64 && config.autoCurrentLan && connected.Some? && p in connected.value ==> Lists(r, p)
  {
    hide Canonical, FirstDistinct;
    var admitted := FirstDistinct(Candidates(config, connected), MAX_EXPORTS);
    FirstDistinctExactly(Candidates(config, connected), MAX_EXPORTS);
    assert Lists(r, p) <==> p in admitted by {
      if e :| e in r.exports && e.prefix == p { assert e == LanExport(p, true) || e == LanExport(p, false); }
    }
    PublishedSize(config, connected, r);
  }

  ghost function ListedPrefixes(r: Record): (listed: seq<Prefix>)
    ensures |listed| == |r.exports| && Distinct(listed)
    ensures forall p :: p in listed <==> Lists(r, p)
  {
    NeighbourPrefixes(r.exports);
    var listed := seq(|r.exports|, i requires 0 <= i < |r.exports| => r.exports[i].prefix);
    assert forall e, i :: 0 <= i < |r.exports| && r.exports[i] == e ==> listed[i] == e.prefix;
    assert forall i :: 0 <= i < |r.exports| ==>
      r.exports[i] == LanExport(listed[i], true) || r.exports[i] == LanExport(listed[i], false);
    listed
  }

  lemma PublishedSize(config: ExportConfig, connected: Option<seq<Prefix>>, r: Record)
    requires Publishes(config, connected, r)
    ensures |r.exports| == |FirstDistinct(Candidates(config, connected), MAX_EXPORTS)|
  {
    hide FirstDistinct, Candidates, ListedPrefixes, Distinct, Canonical;
    var admitted := FirstDistinct(Candidates(config, connected), MAX_EXPORTS);
    FirstDistinctExactly(Candidates(config, connected), MAX_EXPORTS);
    forall p ensures Lists(r, p) <==> p in admitted {
      if e :| e in r.exports && e.prefix == p { assert e == LanExport(p, true) || e == LanExport(p, false); }
    }
    SameElementsSameLength(ListedPrefixes(r), admitted);
  }

  // Which typed prefixes fit: those with fewer than 64 other typed ones before them, whatever the snapshot.
  lemma TypedPrefixPublished(config: ExportConfig, connected: Option<seq<Prefix>>, r: Record, i: nat)
    requires Publishes(config, connected, r)
    requires i < |config.configured| && config.configured[i] !in config.configured[..i]
    ensures Lists(r, config.configured[i]) <==> |set p | p in config.configured[..i]| < 64
  {
    var all := Candidates(config, connected);
    assert all[..i] == config.configured[..i] && all[i] == config.configured[i];
    FirstDistinctRank(all, MAX_EXPORTS, i);
  }

  // Automatic prefixes never push a typed one out: the first 64 distinct configured prefixes
  // are all published.
  lemma ConfiguredNeverDisplaced(config: ExportConfig, connected: Option<seq<Prefix>>, r: Record, p: Prefix)
    requires Publishes(config, connected, r)
    requires p in FirstDistinct(config.configured, MAX_EXPORTS)
    ensures LanExport(p, IsConnected(p, connected)) in r.exports
  {
    var lans := if config.autoCurrentLan && connected.Some? then connected.value else [];
    FirstDistinctExtends(config.configured, lans, MAX_EXPORTS);
    assert p in FirstDistinct(Candidates(config, connected), MAX_EXPORTS);
    var e :| e in r.exports && e.prefix == p;
  }

  // ---- Connected LANs (`native_route_guard.rs`) ----

  /** The export an interface address stands for, if it may be exported at all. */
  function LanOf(address: Address, bits: Byte): (r: Option<Prefix>)
    ensures r.Some? ==> Admissible(r.value)
  {
    if 8 <= bits <= 32 && NewPrefix(Masked(address, bits), bits).Ok?
    then Some(Prefix(Masked(address, bits), bits)) else None
  }

  function LansOf(networks: seq<(Address, Byte)>): (r: seq<Prefix>)
    ensures forall p :: p in r <==> exists n :: n in networks && LanOf(n.0, n.1) == Some(p)
    ensures AdmissiblePrefixes(r)
  {
    if networks == [] then [] else
      var rest := LansOf(networks[1..]);
      assert networks == [networks[0]] + networks[1..];
      match LanOf(networks[0].0, networks[0].1)
      case Some(p) => [p] + rest
      case None => rest
  }

  function ConnectedLans(networks: seq<(Address, Byte)>): (r: seq<Prefix>)
  {
    Dedup(SortBy(Key, LansOf(networks)))
  }

  // An interface address is exportable exactly when its whole network lies in one RFC 1918 block.
  lemma LanOfExactly(address: Address, bits: Byte)
    ensures LanOf(address, bits).Some? <==>
            8 <= bits <= 32 && InOneRfc1918Block(Masked(address, bits), LastOf(address, bits))
    ensures LanOf(address, bits).Some? ==>
              LanOf(address, bits).value.bits == bits && Contains(LanOf(address, bits).value, address)
  {
    if 8 <= bits <= 32 {
      MaskedStays(address, bits);
      AdmissibleExactly(Prefix(Masked(address, bits), bits));
    }
  }

  // The normalised list is the strictly sorted set of the exportable networks, so it does not
  // depend on the order in which interfaces are listed or on how often.
  lemma ConnectedLansExactly(networks: seq<(Address, Byte)>)
    ensures StrictlySortedBy(Key, ConnectedLans(networks))
    ensures forall p :: p in ConnectedLans(networks) <==> p in LansOf(networks)
    ensures AdmissiblePrefixes(ConnectedLans(networks))
  {
    SortedSet(LansOf(networks));
  }

  lemma SortedSet(prefixes: seq<Prefix>)
    ensures StrictlySortedBy(Key, Dedup(SortBy(Key, prefixes)))
    ensures forall p :: p in Dedup(SortBy(Key, prefixes)) <==> p in prefixes
  {
    hide SortBy, Dedup;
    var sorted := SortBy(Key, prefixes);
    forall i, j | 0 <= i < j < |sorted| && Key(sorted[i]) == Key(sorted[j]) ensures sorted[i] == sorted[j] {
      KeyOrdersPairs(sorted[i], sorted[j]);
    }
    DedupSorted(Key, sorted);
    forall p ensures p in Dedup(sorted) <==> p in prefixes { DedupKeepsElements(sorted, p); }
  }

  lemma ConnectedLansIgnoreOrder(xs: seq<(Address, Byte)>, ys: seq<(Address, Byte)>)
    requires forall n :: n in xs <==> n in ys
    ensures ConnectedLans(xs) == ConnectedLans(ys)
  {
    ConnectedLansExactly(xs);
    ConnectedLansExactly(ys);
    forall p ensures p in LansOf(xs) <==> p in LansOf(ys) {}
    StrictlySortedUnique(Key, ConnectedLans(xs), ConnectedLans(ys));
  }
}

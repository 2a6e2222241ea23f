/**
 * Decoding of Mode 03 payloads into trouble codes. A payload decodes exactly
 * when it is the encoding of a code list followed by zero pairs.
 */
module Dtc {
  import opened Prelude
  import opened IsoTp
  import opened Ordering
  import opened ElmText

  datatype DtcSystem = Powertrain | Chassis | Body | Network

  datatype DtcCode = DtcCode(system: DtcSystem, number: nat)

  datatype DtcDecodeError = MalformedResponse | UnknownResponse

  datatype DtcResponse = NoDtcs | Stored(codes: seq<DtcCode>) | Error(error: DtcDecodeError)

  /** The decoder fails with an error or returns NoDtcs or Stored. */
  datatype Decoding = Ok(response: DtcResponse) | Err(error: DtcDecodeError)

  function SystemIndex(s: DtcSystem): (n: nat)
    ensures n < 4
  {
    match s case Powertrain => 0 case Chassis => 1 case Body => 2 case Network => 3
  }

  function SystemOf(n: nat): DtcSystem {
    if n == 0 then Powertrain else if n == 1 then Chassis else if n == 2 then Body else Network
  }

  /** Two bytes: the system in the two high bits, then fourteen bits of number. */
  function CodeOf(hi: byte, lo: byte): DtcCode {
    var top: int := hi;
    DtcCode(SystemOf(top / 64), (top % 64) * 256 + lo)
  }

  predicate ValidCode(c: DtcCode) {
    c.number < 0x4000 && c != DtcCode(Powertrain, 0)
  }

  function CodeBytes(c: DtcCode): (pair: seq<byte>)
    requires c.number < 0x4000
    ensures |pair| == 2
  {
    var hi: byte := SystemIndex(c.system) * 64 + c.number / 256;
    var lo: byte := c.number % 256;
    [hi, lo]
  }

  lemma CodeRoundTrip(c: DtcCode)
    requires c.number < 0x4000
    ensures CodeOf(CodeBytes(c)[0], CodeBytes(c)[1]) == c
  {
  }

  lemma SplitNumber(high: nat, low: nat)
    requires high < 64 && low < 256
    ensures var number := high * 256 + low; number < 0x4000 && number / 256 == high && number % 256 == low
  {
  }

  lemma SystemRoundTrip(k: nat)
    requires k < 4
    ensures SystemIndex(SystemOf(k)) == k && (SystemOf(k) == Powertrain <==> k == 0)
  {
  }

  lemma BytesOfCode(c: DtcCode, k: nat, high: nat, low: nat)
    requires SystemIndex(c.system) == k && k < 4 && high < 64 && low < 256 && c.number == high * 256 + low
    ensures c.number < 0x4000 && CodeBytes(c) == [k * 64 + high, low]
  {
    SplitNumber(high, low);
  }

  lemma HighByte(hi: byte)
    ensures var top: int := hi; top / 64 < 4 && top % 64 < 64 && top / 64 * 64 + top % 64 == hi
  {
  }

  lemma ZeroCode(hi: byte, lo: byte)
    ensures CodeOf(hi, lo) == DtcCode(Powertrain, 0) <==> hi == 0 && lo == 0
  {
  }

  lemma SameBytes(hi: byte, lo: byte, c: DtcCode)
    requires c == CodeOf(hi, lo)
    ensures c.number < 0x4000 && CodeBytes(c) == [hi, lo]
  {
    var top: int := hi;
    HighByte(hi);
    SystemRoundTrip(top / 64);
    BytesOfCode(c, top / 64, top % 64, lo);
  }

  lemma BytesRoundTrip(hi: byte, lo: byte)
    ensures CodeOf(hi, lo).number < 0x4000 && CodeBytes(CodeOf(hi, lo)) == [hi, lo]
    ensures CodeOf(hi, lo) == DtcCode(Powertrain, 0) <==> hi == 0 && lo == 0
  {
    SameBytes(hi, lo, CodeOf(hi, lo));
    ZeroCode(hi, lo);
  }

  /** The derived order of codes: first the system, then the number. */
  function CodeKey(): DtcCode -> seq<int> {
    (c: DtcCode) => [SystemIndex(c.system), c.number]
  }

  /** Drops every element equal to its predecessor. */
  function Dedup<T(==)>(s: seq<T>): seq<T> {
    if |s| < 2 then s
    else if s[0] == s[1] then Dedup(s[1..])
    else [s[0]] + Dedup(s[1..])
  }

  /** Codes before the first zero pair. */
  function LeadingCodes(bytes: seq<byte>): (codes: seq<DtcCode>)
    ensures 2 * |codes| <= |bytes|
  {
    if |bytes| < 2 || (bytes[0] == 0 && bytes[1] == 0) then []
    else [CodeOf(bytes[0], bytes[1])] + LeadingCodes(bytes[2..])
  }

  predicate AllZero(s: seq<byte>) {
    forall i | 0 <= i < |s| :: s[i] == 0
  }

  function SortedCodes(codes: seq<DtcCode>): seq<DtcCode> {
    Dedup(Sort(codes, CodeKey()))
  }

  function Reported(codes: seq<DtcCode>): DtcResponse {
    if codes == [] then NoDtcs else Stored(SortedCodes(codes))
  }

  // ---------------------------------------------------------------------
  // The decoder
  // ---------------------------------------------------------------------

  /** What the decoder computes, in one expression. */
  function DecodedPayload(payload: seq<byte>): Decoding {
    if payload == [] then Err(MalformedResponse)
    else if payload[0] != 0x43 then Err(UnknownResponse)
    else if payload == [0x43, 0x00] then Ok(NoDtcs)
    else
      var bytes := payload[1..];
      var codes := LeadingCodes(bytes);
      if bytes == [] || |bytes| % 2 != 0 || !AllZero(bytes[2 * |codes|..]) then Err(MalformedResponse)
      else Ok(Reported(codes))
  }

  lemma LeadingCodesFrom(bytes: seq<byte>, k: nat)
    requires k + 1 < |bytes|
    ensures LeadingCodes(bytes[k..]) ==
            if bytes[k] == 0 && bytes[k + 1] == 0 then []
            else [CodeOf(bytes[k], bytes[k + 1])] + LeadingCodes(bytes[k + 2..])
  {
    assert bytes[k..][2..] == bytes[k + 2..];
  }

  lemma ZeroPairTail(bytes: seq<byte>, k: nat)
    requires k + 1 < |bytes| && bytes[k] == 0 && bytes[k + 1] == 0
    ensures AllZero(bytes[k + 2..]) <==> AllZero(bytes[k..])
  {
    assert bytes[k..] == [bytes[k], bytes[k + 1]] + bytes[k + 2..];
  }

  /** One round of the pair loop. */
  lemma NextPair(bytes: seq<byte>, dtcs: seq<DtcCode>, k: nat)
    requires k + 1 < |bytes| && LeadingCodes(bytes) == dtcs + LeadingCodes(bytes[k..])
    ensures if bytes[k] == 0 && bytes[k + 1] == 0 then LeadingCodes(bytes) == dtcs
            else LeadingCodes(bytes) == dtcs + [CodeOf(bytes[k], bytes[k + 1])] + LeadingCodes(bytes[k + 2..])
  {
    LeadingCodesFrom(bytes, k);
    if bytes[k] == 0 && bytes[k + 1] == 0 {
      assert dtcs + [] == dtcs;
    } else {
      Regroup(dtcs, [CodeOf(bytes[k], bytes[k + 1])], LeadingCodes(bytes[k + 2..]));
    }
  }

  /** The pair loop: stops at the first zero pair, which only zeros may follow. */
  method DecodePairs(bytes: seq<byte>) returns (dtcs: seq<DtcCode>, padded: bool)
    requires |bytes| % 2 == 0
    ensures dtcs == LeadingCodes(bytes)
    ensures padded <==> AllZero(bytes[2 * |dtcs|..])
  {
    dtcs := [];
    var k := 0;
    ghost var pairs := |bytes| / 2;
    assert bytes[0..] == bytes;
    while k < |bytes|
      invariant k == 2 * |dtcs| <= |bytes| == 2 * pairs
      invariant LeadingCodes(bytes) == dtcs + LeadingCodes(bytes[k..])
    {
      NextPair(bytes, dtcs, k);
      if bytes[k] == 0 && bytes[k + 1] == 0 {
        ZeroPairTail(bytes, k);
        return dtcs, AllZero(bytes[k + 2..]);
      }
      dtcs := dtcs + [CodeOf(bytes[k], bytes[k + 1])];
      k := k + 2;
    }
    padded := true;
  }

  method DecodeMode03Payload(payload: seq<byte>) returns (r: Decoding)
    ensures r == DecodedPayload(payload)
  {
    if payload == [] || payload[0] != 0x43 {
      return Err(if payload != [] then UnknownResponse else MalformedResponse);
    }
    if payload == [0x43, 0x00] {
      return Ok(NoDtcs);
    }
    var bytes := payload[1..];
    if bytes == [] || |bytes| % 2 != 0 {
      return Err(MalformedResponse);
    }
    var dtcs, padded := DecodePairs(bytes);
    if !padded {
      return Err(MalformedResponse);
    }
    if dtcs == [] {
      r := Ok(NoDtcs);
    } else {
      dtcs := Sort(dtcs, CodeKey());
      dtcs := Dedup(dtcs);
      r := Ok(Stored(dtcs));
    }
  }

  // ---------------------------------------------------------------------
  // The result is the sorted set of codes
  // ---------------------------------------------------------------------

  predicate CodeLess(a: DtcCode, b: DtcCode) {
    SystemIndex(a.system) < SystemIndex(b.system)
    || (a.system == b.system && a.number < b.number)
  }

  predicate StrictlyAscending(s: seq<DtcCode>) {
    forall i, j | 0 <= i < j < |s| :: CodeLess(s[i], s[j])
  }

  lemma CodeKeyOrder(a: DtcCode, b: DtcCode)
    ensures LexLeq(CodeKey()(a), CodeKey()(b)) <==> a == b || CodeLess(a, b)
  {
    var x, y := CodeKey()(a), CodeKey()(b);
    assert x[1..] == [a.number] && y[1..] == [b.number];
    assert LexLeq(x[1..], y[1..]) <==> a.number <= b.number by {
      assert x[1..][1..] == [] && y[1..][1..] == [];
    }
    assert SystemIndex(a.system) == SystemIndex(b.system) <==> a.system == b.system;
  }

  lemma {:induction false} DedupAscends(s: seq<DtcCode>)
    requires SortedBy(s, CodeKey())
    ensures StrictlyAscending(Dedup(s))
    ensures forall c :: c in Dedup(s) <==> c in s
  {
    if |s| >= 2 {
      DedupAscends(s[1..]);
      assert s == [s[0]] + s[1..];
      if s[0] != s[1] {
        forall c | c in s[1..] ensures CodeLess(s[0], c) {
          var j :| 1 <= j < |s| && s[j] == c;
          CodeKeyOrder(s[0], c);
          CodeKeyOrder(s[0], s[1]);
          CodeKeyOrder(s[1], c);
        }
        var rest := Dedup(s[1..]);
        forall j | 0 <= j < |rest| ensures CodeLess(s[0], rest[j]) {
          assert rest[j] in s[1..];
        }
      }
    }
  }

  /** Sorted, without duplicates, and exactly the codes that were sent. */
  lemma SortedCodesAreTheSet(codes: seq<DtcCode>)
    ensures StrictlyAscending(SortedCodes(codes))
    ensures forall c :: c in SortedCodes(codes) <==> c in codes
  {
    SortSorts(codes, CodeKey());
    SortPermutes(codes, CodeKey());
    DedupAscends(Sort(codes, CodeKey()));
    forall c ensures c in Sort(codes, CodeKey()) <==> c in codes {
      assert c in codes <==> c in multiset(codes);
      assert c in Sort(codes, CodeKey()) <==> c in multiset(Sort(codes, CodeKey()));
    }
  }

  lemma HasElement(s: seq<DtcCode>)
    ensures s != [] ==> exists c :: c in s
  {
    if s != [] {
      assert s[0] in s;
    }
  }

  /** A strictly ascending list is determined by its elements. */
  lemma {:induction false} AscendingUnique(a: seq<DtcCode>, b: seq<DtcCode>)
    requires StrictlyAscending(a) && StrictlyAscending(b)
    requires forall c :: c in a <==> c in b
    ensures a == b
  {
    if a == [] {
      HasElement(b);
    } else {
      assert a[0] in b && (b != [] ==> b[0] in a);
      assert a[0] == b[0];
      forall c ensures c in a[1..] <==> c in b[1..] {
        assert c in a <==> c == a[0] || c in a[1..];
        assert c in b <==> c == b[0] || c in b[1..];
      }
      AscendingUnique(a[1..], b[1..]);
      assert a == [a[0]] + a[1..] && b == [b[0]] + b[1..];
    }
  }

  /** The result depends on the set of codes only, not on order or repetition. */
  lemma SameSetSameReport(a: seq<DtcCode>, b: seq<DtcCode>)
    requires forall c :: c in a <==> c in b
    ensures Reported(a) == Reported(b)
  {
    if a == [] {
      HasElement(b);
    } else {
      assert a[0] in b;
      SortedCodesAreTheSet(a);
      SortedCodesAreTheSet(b);
      AscendingUnique(SortedCodes(a), SortedCodes(b));
    }
  }

  // ---------------------------------------------------------------------
  // Decoding inverts encoding
  // ---------------------------------------------------------------------

  function Zeros(n: nat): (s: seq<byte>)
    ensures |s| == n && AllZero(s)
  {
    seq(n, _ => 0)
  }

  predicate ValidCodes(codes: seq<DtcCode>) {
    forall i | 0 <= i < |codes| :: ValidCode(codes[i])
  }

  function CodesBytes(codes: seq<DtcCode>): (s: seq<byte>)
    requires ValidCodes(codes)
    ensures |s| == 2 * |codes|
  {
    if codes == [] then [] else assert ValidCode(codes[0]); CodeBytes(codes[0]) + CodesBytes(codes[1..])
  }

  /** A Mode 03 answer: the service byte, the codes, and `zeros` zero pairs. */
  function EncodedPayload(codes: seq<DtcCode>, zeros: nat): seq<byte>
    requires ValidCodes(codes)
  {
    [0x43] + CodesBytes(codes) + Zeros(2 * zeros)
  }

  lemma LeadingCode(c: DtcCode, rest: seq<byte>)
    requires ValidCode(c)
    ensures LeadingCodes(CodeBytes(c) + rest) == [c] + LeadingCodes(rest)
  {
    var all := CodeBytes(c) + rest;
    CodeRoundTrip(c);
    BytesRoundTrip(all[0], all[1]);
    assert all[2..] == rest;
  }

  lemma {:induction false} LeadingCodesOfEncoding(codes: seq<DtcCode>, tail: seq<byte>)
    requires ValidCodes(codes) && AllZero(tail)
    ensures LeadingCodes(CodesBytes(codes) + tail) == codes
  {
    if codes != [] {
      assert ValidCode(codes[0]);
      var rest := CodesBytes(codes[1..]) + tail;
      assert CodesBytes(codes) + tail == CodeBytes(codes[0]) + rest;
      LeadingCode(codes[0], rest);
      LeadingCodesOfEncoding(codes[1..], tail);
    }
  }

  lemma ConsBytes(hi: byte, lo: byte, more: seq<DtcCode>, codes: seq<DtcCode>)
    requires ValidCodes(more) && codes == [CodeOf(hi, lo)] + more && (hi != 0 || lo != 0)
    ensures ValidCodes(codes) && CodesBytes(codes) == [hi, lo] + CodesBytes(more)
  {
    BytesRoundTrip(hi, lo);
    assert codes[1..] == more && ValidCode(codes[0]);
  }

  lemma PairThenRest<T>(s: seq<T>, rest: seq<T>, body: seq<T>, k: nat)
    requires |s| >= 2 && rest == s[2..] && k <= |rest| && rest == body + rest[k..]
    ensures s == [s[0], s[1]] + body + s[k + 2..]
  {
    assert rest[k..] == s[k + 2..];
    assert s == [s[0], s[1]] + rest;
  }

  lemma {:induction false} EncodingOfLeadingCodes(bytes: seq<byte>)
    ensures ValidCodes(LeadingCodes(bytes)) && 2 * |LeadingCodes(bytes)| <= |bytes|
    ensures bytes == CodesBytes(LeadingCodes(bytes)) + bytes[2 * |LeadingCodes(bytes)|..]
  {
    var codes := LeadingCodes(bytes);
    if codes != [] {
      var more := LeadingCodes(bytes[2..]);
      EncodingOfLeadingCodes(bytes[2..]);
      ConsBytes(bytes[0], bytes[1], more, codes);
      PairThenRest(bytes, bytes[2..], CodesBytes(more), 2 * |more|);
    }
  }

  lemma DropHead<T>(x: T, a: seq<T>, b: seq<T>)
    ensures ([x] + a + b)[0] == x && ([x] + a + b)[1..] == a + b && (a + b)[|a|..] == b
  {
  }

  lemma EncodedParts(codes: seq<DtcCode>, zeros: nat)
    requires ValidCodes(codes)
    ensures var payload := EncodedPayload(codes, zeros);
            payload != [] && payload[0] == 0x43 && payload[1..] == CodesBytes(codes) + Zeros(2 * zeros)
            && payload[1..][2 * |codes|..] == Zeros(2 * zeros)
  {
    var service: byte := 0x43;
    DropHead(service, CodesBytes(codes), Zeros(2 * zeros));
  }

  lemma Pairs(n: nat)
    ensures (2 * n) % 2 == 0
  {
  }

  lemma AcceptsData(payload: seq<byte>, codes: seq<DtcCode>, n: nat)
    requires payload != [] && payload[0] == 0x43 && |payload[1..]| == 2 * n && n >= 1
    requires codes == LeadingCodes(payload[1..]) && AllZero(payload[1..][2 * |codes|..])
    ensures DecodedPayload(payload) == Ok(Reported(codes))
  {
    Pairs(n);
    assert |payload| != 2;
  }

  /** Encoding then decoding gives the sorted set of the codes. */
  lemma DecodeInvertsEncode(codes: seq<DtcCode>, zeros: nat)
    requires ValidCodes(codes) && |codes| + zeros >= 1
    ensures DecodedPayload(EncodedPayload(codes, zeros)) == Ok(Reported(codes))
  {
    var payload := EncodedPayload(codes, zeros);
    EncodedParts(codes, zeros);
    LeadingCodesOfEncoding(codes, Zeros(2 * zeros));
    AcceptsData(payload, codes, |codes| + zeros);
  }

  lemma ZeroTail(bytes: seq<byte>, n: nat, zeros: nat)
    requires |bytes| == n + 2 * zeros && AllZero(bytes[n..])
    ensures bytes[n..] == Zeros(2 * zeros)
  {
  }

  /** Accepted data are the encoding of their leading codes. */
  lemma AcceptedData(bytes: seq<byte>, codes: seq<DtcCode>, zeros: nat)
    requires codes == LeadingCodes(bytes) && |bytes| == 2 * |codes| + 2 * zeros
    requires AllZero(bytes[2 * |codes|..])
    ensures ValidCodes(codes) && bytes == CodesBytes(codes) + Zeros(2 * zeros)
  {
    EncodingOfLeadingCodes(bytes);
    ZeroTail(bytes, 2 * |codes|, zeros);
  }

  lemma ServiceThenData(payload: seq<byte>, codes: seq<DtcCode>, zeros: nat)
    requires payload != [] && payload[0] == 0x43 && ValidCodes(codes)
    requires payload[1..] == CodesBytes(codes) + Zeros(2 * zeros)
    ensures payload == EncodedPayload(codes, zeros)
  {
    assert payload == [0x43] + payload[1..];
  }

  /** An accepted payload is the encoding of its leading codes. */
  lemma AcceptedIsEncoding(payload: seq<byte>, bytes: seq<byte>, codes: seq<DtcCode>, zeros: nat)
    requires payload != [] && payload[0] == 0x43 && bytes == payload[1..] && bytes != []
    requires codes == LeadingCodes(bytes) && |bytes| == 2 * |codes| + 2 * zeros
    requires AllZero(bytes[2 * |codes|..])
    ensures ValidCodes(codes) && |codes| + zeros >= 1 && payload == EncodedPayload(codes, zeros)
  {
    AcceptedData(bytes, codes, zeros);
    ServiceThenData(payload, codes, zeros);
  }

  /** And nothing else decodes: a payload is accepted exactly when it is the
      compact "no codes" answer or such an encoding, of the reported codes. */
  lemma DecodesExactlyEncodings(payload: seq<byte>, response: DtcResponse)
    ensures DecodedPayload(payload) == Ok(response) <==>
            (payload == [0x43, 0x00] && response == NoDtcs) ||
            exists codes, zeros: nat :: ValidCodes(codes) && |codes| + zeros >= 1
              && payload == EncodedPayload(codes, zeros) && response == Reported(codes)
  {
    if DecodedPayload(payload) == Ok(response) && payload != [0x43, 0x00] {
      var codes := LeadingCodes(payload[1..]);
      AcceptedIsEncoding(payload, payload[1..], codes, (|payload| - 1 - 2 * |codes|) / 2);
    }
    forall codes, zeros: nat | ValidCodes(codes) && |codes| + zeros >= 1
        && payload == EncodedPayload(codes, zeros) && response == Reported(codes)
      ensures DecodedPayload(payload) == Ok(response)
    {
      DecodeInvertsEncode(codes, zeros);
    }
  }


  // ---------------------------------------------------------------------
  // Errors, and codes as text
  // ---------------------------------------------------------------------

  /** Another service byte is an unknown response; everything else that is neither
      the compact answer nor an encoding is malformed. */
  lemma DecodeErrors(payload: seq<byte>)
    ensures DecodedPayload(payload) == Err(UnknownResponse) <==> payload != [] && payload[0] != 0x43
    ensures DecodedPayload(payload) == Err(MalformedResponse) <==>
            payload == [] || (payload[0] == 0x43 && forall r :: DecodedPayload(payload) != Ok(r))
  {
    if DecodedPayload(payload).Ok? {
      assert DecodedPayload(payload) == Ok(DecodedPayload(payload).response);
    }
  }

  function Letter(s: DtcSystem): char {
    match s case Powertrain => 'P' case Chassis => 'C' case Body => 'B' case Network => 'U'
  }

  /** The letter of the system and four hexadecimal digits. */
  function CodeText(c: DtcCode): string
    requires c.number < 0x4000
  {
    [Letter(c.system)] + HexPair(c.number / 256) + HexPair(c.number % 256)
  }

  /** The two high bits choose the letter, the other digits print the bytes. */
  lemma TextOfBytes(hi: byte, lo: byte)
    ensures CodeOf(hi, lo).number < 0x4000
    ensures CodeText(CodeOf(hi, lo)) ==
            (if hi < 0x40 then "P" + HexPair(hi) else if hi < 0x80 then "C" + HexPair(hi - 0x40)
             else if hi < 0xC0 then "B" + HexPair(hi - 0x80) else "U" + HexPair(hi - 0xC0)) + HexPair(lo)
  {
    BytesRoundTrip(hi, lo);
    SplitNumber(hi % 64, lo);
  }

  /** No codes are reported as such, and any codes as a list of them that ascends. */
  lemma ReportMeans(codes: seq<DtcCode>)
    ensures Reported(codes).NoDtcs? <==> codes == []
    ensures codes != [] ==>
              Reported(codes).Stored? && Reported(codes).codes != [] && StrictlyAscending(Reported(codes).codes)
              && forall c :: c in Reported(codes).codes <==> c in codes
  {
    SortedCodesAreTheSet(codes);
    if codes != [] {
      assert codes[0] in SortedCodes(codes);
    }
  }
}

/** Resource records and reply packets (tinysvcmdns.c): encoding in place with
    name compression, parsing, and the round trip between them. */
module DnsPacket {
  import opened Arith
  import opened DnsName
  import opened Wrappers

  type uint32 = x: int | 0 <= x < 0x1_0000_0000

  const RR_A := 0x01
  const RR_PTR := 0x0C
  const RR_TXT := 0x10
  const RR_AAAA := 0x1C
  const RR_SRV := 0x21
  const RR_NSEC := 0x2F
  const NSEC_BITMAP := 5
  const MAX_PARSED_TXT := 62

  /** The data of a record. Addresses are kept as the bytes in memory; Skipped
      is what the parser leaves of a type whose data it does not read. */
  datatype Data =
    | A(addr: Bytes)
    | Aaaa(addr6: Bytes)
    | Ptr(target: Name)
    | Txt(strings: seq<Bytes>)
    | Srv(priority: uint16, weight: uint16, port: uint16, host: Name)
    | Nsec(bitmap: Bytes)
    | Skipped(rtype: uint16)

  datatype Rr = Rr(name: Name, rrClass: uint16, cacheFlush: bool, ttl: uint32, data: Data)

  function TypeOf(d: Data): uint16 {
    match d
    case A(_) => RR_A
    case Aaaa(_) => RR_AAAA
    case Ptr(_) => RR_PTR
    case Txt(_) => RR_TXT
    case Srv(_, _, _, _) => RR_SRV
    case Nsec(_) => RR_NSEC
    case Skipped(t) => t
  }

  /** What the C types of a record guarantee: names are names, addresses have
      their size, TXT strings are C strings of at most 63 bytes (create_label)
      and there is at least one. */
  predicate IsRr(rr: Rr) {
    && IsName(rr.name)
    && match rr.data
       case A(a) => |a| == 4
       case Aaaa(a) => |a| == 16
       case Ptr(n) => IsName(n)
       case Txt(ss) => ss != [] && forall s <- ss :: |s| <= 63 && 0 !in s
       case Srv(_, _, _, h) => IsName(h)
       case Nsec(m) => |m| == NSEC_BITMAP
       case Skipped(t) => t != RR_A && t != RR_AAAA && t != RR_PTR && t != RR_TXT && t != RR_SRV && t != RR_NSEC
  }

  // ----- Numbers in network order -----

  function U16(v: int): (b: Bytes)
    ensures |b| == 2
  {
    [(v / 256 % 256) as byte, (v % 256) as byte]
  }

  function U32(v: int): (b: Bytes)
    ensures |b| == 4
  {
    U16(v / 0x1_0000) + U16(v)
  }

  function ReadU16(b: Bytes, p: nat): uint16
    requires p + 2 <= |b|
  {
    b[p] as int * 256 + b[p + 1]
  }

  function ReadU32(b: Bytes, p: nat): uint32
    requires p + 4 <= |b|
  {
    ReadU16(b, p) as int * 0x1_0000 + ReadU16(b, p + 2)
  }

  lemma U16Reads(b: Bytes, p: nat, v: int)
    requires Holds(b, p, U16(v))
    ensures ReadU16(b, p) == v % 0x1_0000
  {
    assert b[p] == b[p..p + 2][0] && b[p + 1] == b[p..p + 2][1];
    U16Parts(v);
  }

  lemma U16Parts(v: int)
    ensures v / 256 % 256 * 256 + v % 256 == v % 0x1_0000
  {
  }

  lemma U32Reads(b: Bytes, p: nat, v: uint32)
    requires Holds(b, p, U32(v))
    ensures ReadU32(b, p) == v
  {
    hide U16, ReadU16;
    HoldsSplit(b, p, U16(v / 0x1_0000), U16(v));
    U16Reads(b, p, v / 0x1_0000);
    U16Reads(b, p + 2, v);
  }

  // ----- The class field -----

  /** (rr_class & ~0x8000) | (cache_flush << 15) */
  function ClassWord(rrClass: uint16, cacheFlush: bool): uint16 {
    rrClass % 0x8000 + (if cacheFlush then 0x8000 else 0)
  }

  /** v & ~0x80: the parser clears bit 7, not bit 15. */
  function ParsedClass(v: uint16): uint16 {
    if v / 0x80 % 2 == 1 then v - 0x80 else v
  }

  lemma ClassWordParts(rrClass: uint16, cacheFlush: bool)
    ensures (ClassWord(rrClass, cacheFlush) / 0x100 >= 0x80) == cacheFlush
    ensures ClassWord(rrClass, cacheFlush) % 0x8000 == rrClass % 0x8000
    ensures ClassWord(rrClass, cacheFlush) == rrClass % 0x8000 + (if cacheFlush then 0x8000 else 0)
  {
  }

  /** Bit 7 lies below bit 15, and clearing it changes the low 15 bits. */
  lemma Bit7(v: uint16)
    ensures v / 0x80 % 2 == v % 0x8000 / 0x80 % 2
    ensures ParsedClass(v) % 0x8000 == v % 0x8000 - (if v / 0x80 % 2 == 1 then 0x80 else 0)
  {
    var low := v % 0x8000;
    assert low == v || low == v - 0x8000;
    assert (low + 0x8000) / 0x80 == low / 0x80 + 0x100;
    if v / 0x80 % 2 == 1 {
      assert low >= 0x80;
    }
  }

  /** The parsed class re-encodes to the same word exactly when bit 7 of the
      class was clear; bit 15, which the parser leaves in the class, does no harm. */
  lemma ClassRoundTrip(rrClass: uint16, cacheFlush: bool)
    ensures (ClassWord(rrClass, cacheFlush) / 0x100 >= 0x80) == cacheFlush
    ensures ClassWord(ParsedClass(ClassWord(rrClass, cacheFlush)), cacheFlush) == ClassWord(rrClass, cacheFlush)
            <==> rrClass / 0x80 % 2 == 0
    ensures ClassWord(rrClass, cacheFlush) % 0x8000 == rrClass % 0x8000
    ensures var w := ClassWord(rrClass, cacheFlush);
      ParsedClass(w) == if w / 0x80 % 2 == 1 then w - 0x80 else w
  {
    hide ClassWord;
    var w := ClassWord(rrClass, cacheFlush);
    ClassWordParts(rrClass, cacheFlush);
    ClassWordParts(ParsedClass(w), cacheFlush);
    Bit7(rrClass);
    Bit7(w);
  }

  // ----- Encoding -----

  function TxtBytes(strings: seq<Bytes>): Bytes
    requires forall s <- strings :: |s| <= 255
  {
    if strings == [] then [] else [|strings[0]| as byte] + strings[0] + TxtBytes(strings[1..])
  }

  /** The data part, which starts at off. */
  function EncodeData(off: nat, rr: Rr, comp: seq<CompEntry>): Encoded
    requires IsRr(rr)
  {
    match rr.data
    case A(a) => Encoded(a, comp, true)
    case Aaaa(a) => Encoded(a, comp, true)
    case Ptr(n) => EncodeName(off, n, comp)
    case Txt(ss) => Encoded(TxtBytes(ss), comp, true)
    case Srv(priority, weight, port, host) =>
      var e := EncodeName(off + 6, host, comp);
      Encoded(U16(priority) + (U16(weight) + (U16(port) + e.bytes)), e.comp, e.pointersFit)
    case Nsec(bitmap) =>
      var e := EncodeName(off, rr.name, comp);
      Encoded(e.bytes + ([0, NSEC_BITMAP as byte] + bitmap), e.comp, e.pointersFit)
    case Skipped(_) => Encoded([], comp, true)
  }

  function FixedPart(rr: Rr): (b: Bytes)
    ensures |b| == 8
  {
    U16(TypeOf(rr.data)) + (U16(ClassWord(rr.rrClass, rr.cacheFlush)) + U32(rr.ttl))
  }

  function EncodeRr(off: nat, rr: Rr, comp: seq<CompEntry>): (e: Encoded)
    requires IsRr(rr)
    ensures |e.bytes| >= 11
  {
    var n := EncodeName(off, rr.name, comp);
    var d := EncodeData(off + |n.bytes| + 10, rr, n.comp);
    Encoded(n.bytes + (FixedPart(rr) + (U16(|d.bytes|) + d.bytes)), d.comp, n.pointersFit && d.pointersFit)
  }

  function EncodeRrs(off: nat, rrs: seq<Rr>, comp: seq<CompEntry>): Encoded
    requires forall rr <- rrs :: IsRr(rr)
    decreases |rrs|
  {
    if rrs == [] then Encoded([], comp, true)
    else
      var first := EncodeRr(off, rrs[0], comp);
      var rest := EncodeRrs(off + |first.bytes|, rrs[1..], first.comp);
      Encoded(first.bytes + rest.bytes, rest.comp, first.pointersFit && rest.pointersFit)
  }

  // ----- Parsing -----

  /** Undefined: the C code would read outside the packet, or follow a name that
      has no end. Bad: it gives up on the packet. */
  datatype Parsed<T> = Undefined | Bad | Good(value: T, end: nat)

  function Prepend<T>(s: seq<T>, r: Parsed<seq<T>>): Parsed<seq<T>> {
    match r
    case Good(rest, end) => Good(s + rest, end)
    case _ => r
  }

  lemma PrependLaws<T>(s: seq<T>, t: seq<T>, r: Parsed<seq<T>>)
    ensures Prepend([], r) == r
    ensures Prepend(s, Prepend(t, r)) == Prepend(s + t, r)
  {
    if r.Good? {
      assert [] + r.value == r.value && s + (t + r.value) == s + t + r.value;
    }
  }

  /** The name that reads at p, when there is one. */
  ghost function NameRead(b: Bytes, p: nat): (r: Option<Name>)
    ensures r.Some? ==> NameAt(b, p, r.value)
  {
    if n: Name :| NameAt(b, p, n) then Some(n) else None
  }

  lemma NameReads(b: Bytes, p: nat, n: Name)
    requires NameAt(b, p, n)
    ensures NameRead(b, p) == Some(n)
  {
    NameAtUnique(b, p, n, NameRead(b, p).value);
  }

  function ParseTxt(b: Bytes, p: nat, e: nat): Parsed<seq<Bytes>>
    requires p < e <= |b|
    decreases |b| - p
  {
    var next := p + b[p] as nat + 1;
    if next > |b| || b[p] as nat > MAX_PARSED_TXT then Bad
    else
      var s := StrnCopy(b[p + 1..next]);
      if next >= e then Good([s], next)
      else
        Prepend([s], ParseTxt(b, next, e))
  }

  ghost function ParseData(b: Bytes, d: nat, len: nat, rtype: uint16): Parsed<Data>
    requires d + len <= |b|
  {
    if rtype == RR_A then
      if len < 4 then Bad else Good(A(b[d..d + 4]), d + 4)
    else if rtype == RR_AAAA then
      if len < 16 then Bad else Good(Aaaa(b[d..d + 16]), d + 16)
    else if rtype == RR_PTR then
      if d >= |b| then Bad
      else
        match NameRead(b, d)
        case None => Undefined
        case Some(n) => Good(Ptr(Copied(n)), d + len)
    else if rtype == RR_TXT then
      if len == 0 then Good(Txt([[]]), d)
      else
        match ParseTxt(b, d, d + len)
        case Good(ss, end) => Good(Txt(ss), end)
        case Bad => Bad
        case Undefined => Undefined
    else Good(Skipped(rtype), d + len)
  }

  ghost function ParseRr(b: Bytes, off: nat): Parsed<Rr> {
    if off > |b| then Bad
    else
      match NameRead(b, off)
      case None => Undefined
      case Some(name) =>
        var p := off + WireLength(b, off);
        if p + 10 > |b| then Undefined
        else
          var len, w := ReadU16(b, p + 8), ReadU16(b, p + 2);
          if p + 10 + len > |b| then Bad
          else
            match ParseData(b, p + 10, len, ReadU16(b, p))
            case Good(data, end) => Good(Rr(Copied(name), ParsedClass(w), w >= 0x8000, ReadU32(b, p + 4), data), end)
            case Bad => Bad
            case Undefined => Undefined
  }

  ghost function ParseRrs(b: Bytes, off: nat, n: nat): Parsed<seq<Rr>>
    decreases n
  {
    if n == 0 then Good([], off)
    else
      match ParseRr(b, off)
      case Undefined => Undefined
      case Bad => Bad
      case Good(rr, next) =>
        Prepend([rr], ParseRrs(b, next, n - 1))
  }

  datatype Question = Question(name: Name, rtype: uint16, unicast: bool, rrClass: uint16)

  ghost function ParseQuestion(b: Bytes, off: nat): Parsed<Question> {
    match NameRead(b, off)
    case None => Undefined
    case Some(name) =>
      var p := off + WireLength(b, off);
      if p + 4 > |b| then Undefined
      else
        var w := ReadU16(b, p + 2);
        Good(Question(Copied(name), ReadU16(b, p), w >= 0x8000, ParsedClass(w)), p + 4)
  }

  ghost function ParseQuestions(b: Bytes, off: nat, n: nat): Parsed<seq<Question>>
    decreases n
  {
    if n == 0 then Good([], off)
    else
      match ParseQuestion(b, off)
      case Undefined => Undefined
      case Bad => Bad
      case Good(q, next) =>
        Prepend([q], ParseQuestions(b, next, n - 1))
  }

  datatype Header = Header(id: uint16, flags: uint16, numQn: uint16, numAns: uint16, numAuth: uint16, numAdd: uint16)

  datatype Packet = Packet(header: Header, qn: seq<Question>, ans: seq<Rr>, auth: seq<Rr>, add: seq<Rr>)

  function HeaderBytes(h: Header): (b: Bytes)
    ensures |b| == 12
  {
    U16(h.id) + (U16(h.flags) + (U16(h.numQn) + (U16(h.numAns) + (U16(h.numAuth) + U16(h.numAdd)))))
  }

  function ReadHeader(b: Bytes): Header
    requires |b| >= 12
  {
    Header(ReadU16(b, 0), ReadU16(b, 2), ReadU16(b, 4), ReadU16(b, 6), ReadU16(b, 8), ReadU16(b, 10))
  }

  /** mdns_parse_pkt: questions and answers; the other sections are not parsed. */
  ghost function ParsePkt(b: Bytes): Parsed<Packet> {
    if |b| < 12 then Bad
    else
      var h := ReadHeader(b);
      match ParseQuestions(b, 12, h.numQn)
      case Undefined => Undefined
      case Bad => Bad
      case Good(qn, off) =>
        match ParseRrs(b, off, h.numAns)
        case Undefined => Undefined
        case Bad => Bad
        case Good(ans, end) => Good(Packet(h, qn, ans, [], []), end)
  }

  function AllRrs(pkt: Packet): seq<Rr> {
    pkt.ans + (pkt.auth + pkt.add)
  }

  function EncodePkt(pkt: Packet): Encoded
    requires forall rr <- AllRrs(pkt) :: IsRr(rr)
  {
    var e := EncodeRrs(12, AllRrs(pkt), [CompEntry([], 0)]);
    Encoded(HeaderBytes(pkt.header) + e.bytes, e.comp, e.pointersFit)
  }

  // ----- Packets whose pointers fit -----

  lemma DataBackward(off: nat, rr: Rr, comp: seq<CompEntry>)
    requires IsRr(rr) && Backward(comp, off)
    ensures var e := EncodeData(off, rr, comp);
      Backward(e.comp, off + |e.bytes|) && (off + |e.bytes| <= LINK_RANGE ==> e.pointersFit)
  {
    hide EncodeName, TxtBytes, U16;
    match rr.data
    case Ptr(n) => EncodeNameBackward(off, n, comp);
    case Srv(_, _, _, host) => EncodeNameBackward(off + 6, host, comp);
    case Nsec(_) => EncodeNameBackward(off, rr.name, comp);
    case _ =>
  }

  lemma RrBackward(off: nat, rr: Rr, comp: seq<CompEntry>)
    requires IsRr(rr) && Backward(comp, off)
    ensures var e := EncodeRr(off, rr, comp);
      Backward(e.comp, off + |e.bytes|) && (off + |e.bytes| <= LINK_RANGE ==> e.pointersFit)
  {
    hide EncodeName, EncodeData, U16, FixedPart;
    NameOf(rr);
    EncodeNameBackward(off, rr.name, comp);
    var n := EncodeName(off, rr.name, comp);
    DataBackward(off + |n.bytes| + 10, rr, n.comp);
  }

  lemma {:induction false} RrsBackward(off: nat, rrs: seq<Rr>, comp: seq<CompEntry>)
    requires (forall rr <- rrs :: IsRr(rr)) && Backward(comp, off)
    ensures var e := EncodeRrs(off, rrs, comp);
      Backward(e.comp, off + |e.bytes|) && (off + |e.bytes| <= LINK_RANGE ==> e.pointersFit)
    decreases |rrs|
  {
    hide EncodeRr, IsRr;
    if rrs != [] {
      RrBackward(off, rrs[0], comp);
      var first := EncodeRr(off, rrs[0], comp);
      RrsBackward(off + |first.bytes|, rrs[1..], first.comp);
    }
  }

  /** In a packet every entry points into the packet, and in a packet of up to
      0x4000 bytes every pointer fits. */
  lemma PacketPointersFit(pkt: Packet)
    requires forall rr <- AllRrs(pkt) :: IsRr(rr)
    ensures Backward(EncodePkt(pkt).comp, |EncodePkt(pkt).bytes|)
    ensures |EncodePkt(pkt).bytes| <= LINK_RANGE ==> EncodePkt(pkt).pointersFit
  {
    RrsBackward(12, AllRrs(pkt), [CompEntry([], 0)]);
  }

  // ----- Parsing what was encoded -----

  function ParsedData(d: Data): Data {
    if d.Srv? || d.Nsec? then Skipped(TypeOf(d)) else d
  }

  /** What is left of a record after encoding and parsing. */
  function ParsedRr(rr: Rr): Rr {
    Rr(rr.name, ParsedClass(ClassWord(rr.rrClass, rr.cacheFlush)), rr.cacheFlush, rr.ttl, ParsedData(rr.data))
  }

  function ParsedRrs(rrs: seq<Rr>): (r: seq<Rr>)
    ensures |r| == |rrs|
  {
    seq(|rrs|, i requires 0 <= i < |rrs| => ParsedRr(rrs[i]))
  }

  predicate ShortStrings(ss: seq<Bytes>) {
    forall s <- ss :: |s| <= MAX_PARSED_TXT
  }

  predicate TxtFits(rr: Rr) {
    rr.data.Txt? ==> ShortStrings(rr.data.strings)
  }

  lemma {:induction false} TxtParses(b: Bytes, p: nat, ss: seq<Bytes>)
    requires ss != [] && forall s <- ss :: |s| <= 63 && 0 !in s
    requires Holds(b, p, TxtBytes(ss))
    ensures |TxtBytes(ss)| > 0
    ensures ParseTxt(b, p, p + |TxtBytes(ss)|)
         == if ShortStrings(ss) then Good(ss, p + |TxtBytes(ss)|) else Bad
    decreases |ss|
  {
    hide ParseTxt, Holds, ShortStrings, TxtBytes, Prepend;
    var s, rest := ss[0], ss[1..];
    var first := [|s| as byte] + s;
    TxtUnfold(ss);
    HoldsSplit(b, p, first, TxtBytes(rest));
    HoldsWhole(b, p, TxtBytes(ss));
    TxtHead(b, p, s);
    var e := p + |TxtBytes(ss)|;
    TxtStep(b, p, e, s);
    if rest != [] {
      TxtParses(b, p + |first|, rest);
      TxtJoin(s, rest, ParseTxt(b, p + |first|, e), e);
    } else {
      OneString(s);
    }
  }

  lemma TxtJoin(s: Bytes, rest: seq<Bytes>, r: Parsed<seq<Bytes>>, e: nat)
    requires r == if ShortStrings(rest) then Good(rest, e) else Bad
    ensures (if |s| > MAX_PARSED_TXT then Bad else Prepend([s], r))
         == if ShortStrings([s] + rest) then Good([s] + rest, e) else Bad
  {
    hide ShortStrings;
    ShortSplit(s, rest);
  }

  lemma OneString(s: Bytes)
    ensures ShortStrings([s]) <==> |s| <= MAX_PARSED_TXT
  {
    assert [s][0] in [s];
  }

  lemma TxtUnfold(ss: seq<Bytes>)
    requires ss != [] && forall s <- ss :: |s| <= 255
    ensures TxtBytes(ss) == [|ss[0]| as byte] + ss[0] + TxtBytes(ss[1..])
    ensures ss == [ss[0]] + ss[1..]
    ensures ss[1..] == [] ==> TxtBytes(ss[1..]) == [] && ss == [ss[0]]
  {
  }

  lemma TxtStep(b: Bytes, p: nat, e: nat, s: Bytes)
    requires p < e <= |b| && p + 1 + |s| <= |b| && b[p] as nat == |s| && StrnCopy(b[p + 1..p + 1 + |s|]) == s
    ensures ParseTxt(b, p, e)
         == if |s| > MAX_PARSED_TXT then Bad
            else if p + 1 + |s| >= e then Good([s], p + 1 + |s|)
            else Prepend([s], ParseTxt(b, p + 1 + |s|, e))
  {
    hide StrnCopy;
  }

  lemma ShortSplit(s: Bytes, rest: seq<Bytes>)
    ensures ShortStrings([s] + rest) == (|s| <= MAX_PARSED_TXT && ShortStrings(rest))
  {
    var ss := [s] + rest;
    if ShortStrings(ss) {
      assert ss[0] in ss;
      assert forall x <- rest :: x in ss;
    }
  }

  lemma TxtHead(b: Bytes, p: nat, s: Bytes)
    requires |s| <= 63 && 0 !in s && Holds(b, p, [|s| as byte] + s)
    ensures p + 1 + |s| <= |b| && b[p] as nat == |s| && StrnCopy(b[p + 1..p + 1 + |s|]) == s
  {
    hide StrnCopy;
    var first := [|s| as byte] + s;
    assert b[p] == b[p..p + |first|][0] && b[p + 1..p + |first|] == b[p..p + |first|][1..] == s;
  }

  lemma HoldsWhole(b: Bytes, d: nat, bytes: Bytes)
    requires Holds(b, d, bytes)
    ensures d + |bytes| <= |b| && b[d..d + |bytes|] == bytes
  {
  }

  lemma FixedPartReads(b: Bytes, p: nat, rr: Rr)
    requires Holds(b, p, FixedPart(rr))
    ensures p + 8 <= |b| && ReadU16(b, p) == TypeOf(rr.data) && ReadU32(b, p + 4) == rr.ttl
    ensures ReadU16(b, p + 2) == ClassWord(rr.rrClass, rr.cacheFlush)
    ensures ReadU16(b, p + 2) >= 0x8000 <==> rr.cacheFlush
  {
    hide U16, U32, ReadU16, ReadU32, Holds;
    var w := U16(ClassWord(rr.rrClass, rr.cacheFlush));
    HoldsWhole(b, p, FixedPart(rr));
    HoldsSplit(b, p, U16(TypeOf(rr.data)), w + U32(rr.ttl));
    HoldsSplit(b, p + 2, w, U32(rr.ttl));
    U16Reads(b, p, TypeOf(rr.data));
    U16Reads(b, p + 2, ClassWord(rr.rrClass, rr.cacheFlush));
    U32Reads(b, p + 4, rr.ttl);
  }

  lemma FitsSplit(rrs: seq<Rr>)
    requires rrs != []
    ensures (forall rr <- rrs :: TxtFits(rr)) == (TxtFits(rrs[0]) && forall rr <- rrs[1..] :: TxtFits(rr))
  {
    hide TxtFits;
    assert forall rr :: rr in rrs <==> rr == rrs[0] || rr in rrs[1..];
  }

  /** What the responder sends: no questions, counts that match the lists. */
  predicate IsReply(pkt: Packet) {
    && pkt.header.numQn == 0 && pkt.header.numAns == |pkt.ans|
    && forall rr <- AllRrs(pkt) :: IsRr(rr)
  }

  lemma HeaderReads(b: Bytes, h: Header)
    requires Holds(b, 0, HeaderBytes(h))
    ensures |b| >= 12 && ReadHeader(b) == h
  {
    hide U16, ReadU16, Holds;
    var h5 := U16(h.numAuth) + U16(h.numAdd);
    var h4 := U16(h.numAns) + h5;
    var h3 := U16(h.numQn) + h4;
    var h2 := U16(h.flags) + h3;
    HoldsWhole(b, 0, HeaderBytes(h));
    HoldsSplit(b, 0, U16(h.id), h2);
    HoldsSplit(b, 2, U16(h.flags), h3);
    HoldsSplit(b, 4, U16(h.numQn), h4);
    HoldsSplit(b, 6, U16(h.numAns), h5);
    HoldsSplit(b, 8, U16(h.numAuth), U16(h.numAdd));
    U16Reads(b, 0, h.id);
    U16Reads(b, 2, h.flags);
    U16Reads(b, 4, h.numQn);
    U16Reads(b, 6, h.numAns);
    U16Reads(b, 8, h.numAuth);
    U16Reads(b, 10, h.numAdd);
  }

  // ----- Encoding what was parsed -----

  /** Records whose data the parser keeps. */
  predicate Plain(rr: Rr) {
    rr.data.A? || rr.data.Aaaa? || rr.data.Ptr? || rr.data.Txt?
  }

  predicate Bit7Clear(rr: Rr) {
    rr.rrClass / 0x80 % 2 == 0
  }

  lemma ReencodeRr(off: nat, rr: Rr, comp: seq<CompEntry>)
    requires IsRr(rr) && Plain(rr)
    ensures IsRr(ParsedRr(rr))
    ensures EncodeRr(off, ParsedRr(rr), comp).comp == EncodeRr(off, rr, comp).comp
    ensures |EncodeRr(off, ParsedRr(rr), comp).bytes| == |EncodeRr(off, rr, comp).bytes|
    ensures EncodeRr(off, ParsedRr(rr), comp).bytes == EncodeRr(off, rr, comp).bytes <==> Bit7Clear(rr)
  {
    hide EncodeName, U16, U32, ClassWord, ParsedClass, TxtBytes;
    ClassRoundTrip(rr.rrClass, rr.cacheFlush);
    var n := EncodeName(off, rr.name, comp);
    var d := EncodeData(off + |n.bytes| + 10, rr, n.comp);
    var w, w' := ClassWord(rr.rrClass, rr.cacheFlush), ClassWord(ParsedRr(rr).rrClass, rr.cacheFlush);
    assert EncodeData(off + |n.bytes| + 10, ParsedRr(rr), n.comp) == d;
    var tail := U16(|d.bytes|) + d.bytes;
    SameAround(n.bytes, U16(TypeOf(rr.data)), U16(w), U16(w'), U32(rr.ttl), tail);
    U16Injective(w, w');
  }

  lemma U16Injective(v: uint16, w: uint16)
    ensures U16(v) == U16(w) <==> v == w
  {
  }

  lemma SameAround(a: Bytes, t: Bytes, x: Bytes, y: Bytes, u: Bytes, z: Bytes)
    requires |x| == |y|
    ensures a + (t + (x + u) + z) == a + (t + (y + u) + z) <==> x == y
  {
    var i := |a| + |t|;
    var l, r := a + (t + (x + u) + z), a + (t + (y + u) + z);
    assert l[i..i + |x|] == x && r[i..i + |y|] == y;
  }

  /** Encoding a parsed list of plain records gives the original bytes exactly
      when every class had bit 7 clear, as every class the responder sets has. */
  lemma {:induction false} ReencodeRrs(off: nat, rrs: seq<Rr>, comp: seq<CompEntry>)
    requires forall rr <- rrs :: IsRr(rr) && Plain(rr)
    ensures forall rr <- ParsedRrs(rrs) :: IsRr(rr)
    ensures |EncodeRrs(off, ParsedRrs(rrs), comp).bytes| == |EncodeRrs(off, rrs, comp).bytes|
    ensures EncodeRrs(off, ParsedRrs(rrs), comp).bytes == EncodeRrs(off, rrs, comp).bytes
            <==> forall rr <- rrs :: Bit7Clear(rr)
    decreases |rrs|
  {
    hide EncodeRr, ParsedRr, IsRr, Plain, Bit7Clear;
    if rrs != [] {
      ReencodeRr(off, rrs[0], comp);
      var first, first' := EncodeRr(off, rrs[0], comp), EncodeRr(off, ParsedRr(rrs[0]), comp);
      ReencodeRrs(off + |first.bytes|, rrs[1..], first.comp);
      assert ParsedRrs(rrs) == [ParsedRr(rrs[0])] + ParsedRrs(rrs[1..]);
      assert ParsedRrs(rrs)[1..] == ParsedRrs(rrs[1..]);
      var rest, rest' := EncodeRrs(off + |first.bytes|, rrs[1..], first.comp),
          EncodeRrs(off + |first.bytes|, ParsedRrs(rrs[1..]), first.comp);
      ConcatEqual(first.bytes, rest.bytes, first'.bytes, rest'.bytes);
      assert forall rr :: rr in rrs <==> rr == rrs[0] || rr in rrs[1..];
    }
  }

  lemma ConcatEqual(a: Bytes, b: Bytes, c: Bytes, d: Bytes)
    requires |a| == |c|
    ensures a + b == c + d <==> a == c && b == d
  {
    var x, y := a + b, c + d;
    assert x[..|a|] == a && y[..|a|] == c && x[|a|..] == b && y[|a|..] == d;
  }

  lemma PacketReencode(pkt: Packet)
    requires IsReply(pkt) && pkt.auth == pkt.add == [] && forall rr <- pkt.ans :: Plain(rr)
    ensures forall rr <- ParsedRrs(pkt.ans) :: IsRr(rr)
    ensures EncodePkt(Packet(pkt.header, [], ParsedRrs(pkt.ans), [], [])).bytes == EncodePkt(pkt).bytes
            <==> forall rr <- pkt.ans :: Bit7Clear(rr)
  {
    hide EncodeRrs, HeaderBytes, IsRr, Plain, Bit7Clear, ParsedRrs;
    var comp := [CompEntry([], 0)];
    assert AllRrs(pkt) == pkt.ans;
    ReencodeRrs(12, pkt.ans, comp);
    var parsed := Packet(pkt.header, [], ParsedRrs(pkt.ans), [], []);
    assert AllRrs(parsed) == ParsedRrs(pkt.ans);
    var h := HeaderBytes(pkt.header);
    ConcatEqual(h, EncodeRrs(12, ParsedRrs(pkt.ans), comp).bytes, h, EncodeRrs(12, pkt.ans, comp).bytes);
  }

  // ----- The encoder in place -----

  method EncodeTxtInto(pkt: array<byte>, off: nat, strings: seq<Bytes>) returns (len: nat)
    requires (forall s <- strings :: |s| <= 63) && off + |TxtBytes(strings)| <= pkt.Length
    modifies pkt
    ensures len == |TxtBytes(strings)| && pkt[..] == Overwrite(old(pkt[..]), off, TxtBytes(strings))
  {
    hide Overwrite;
    ghost var before := pkt[..];
    ghost var written: Bytes := [];
    len := 0;
    var i := 0;
    NothingWritten(before, off);
    assert strings[0..] == strings;
    while i < |strings|
      invariant i <= |strings| && len == |written| && off + |TxtBytes(strings)| <= |before| == pkt.Length
      invariant TxtBytes(strings) == written + TxtBytes(strings[i..])
      invariant pkt[..] == Overwrite(before, off, written)
    {
      var s := [|strings[i]| as byte] + strings[i];
      assert strings[i..][1..] == strings[i + 1..];
      assert TxtBytes(strings) == written + s + TxtBytes(strings[i + 1..]);
      Write(pkt, off + len, s);
      OverwriteTwice(before, off, written, s);
      written, len, i := written + s, len + |s|, i + 1;
    }
    assert written + [] == written;
  }

  method EncodeDataInto(pkt: array<byte>, off: nat, rr: Rr, comp: NameComp) returns (len: nat)
    requires IsRr(rr) && off + |EncodeData(off, rr, comp.entries).bytes| <= pkt.Length
    modifies pkt, comp
    ensures len == |EncodeData(off, rr, old(comp.entries)).bytes|
    ensures pkt[..] == Overwrite(old(pkt[..]), off, EncodeData(off, rr, old(comp.entries)).bytes)
    ensures comp.entries == EncodeData(off, rr, old(comp.entries)).comp
  {
    hide Overwrite, EncodeName, TxtBytes, U16;
    ghost var before := pkt[..];
    match rr.data
    case A(addr) =>
      Write(pkt, off, addr);
      len := 4;
    case Aaaa(addr) =>
      Write(pkt, off, addr);
      len := 16;
    case Ptr(target) =>
      len := EncodeNameInto(pkt, off, target, comp);
    case Txt(strings) =>
      len := EncodeTxtInto(pkt, off, strings);
    case Srv(priority, weight, port, host) =>
      ghost var e := EncodeName(off + 6, host, comp.entries);
      Write(pkt, off, U16(priority));
      Write(pkt, off + 2, U16(weight));
      OverwriteTwice(before, off, U16(priority), U16(weight));
      Write(pkt, off + 4, U16(port));
      OverwriteTwice(before, off, U16(priority) + U16(weight), U16(port));
      var l := EncodeNameInto(pkt, off + 6, host, comp);
      OverwriteTwice(before, off, U16(priority) + U16(weight) + U16(port), e.bytes);
      assert U16(priority) + U16(weight) + U16(port) + e.bytes == U16(priority) + (U16(weight) + (U16(port) + e.bytes));
      len := 6 + l;
    case Nsec(bitmap) =>
      ghost var e := EncodeName(off, rr.name, comp.entries);
      var l := EncodeNameInto(pkt, off, rr.name, comp);
      var window: Bytes := [0, NSEC_BITMAP as byte] + bitmap;
      Write(pkt, off + l, window);
      OverwriteTwice(before, off, e.bytes, window);
      len := l + 2 + NSEC_BITMAP;
    case Skipped(_) =>
      NothingWritten(before, off);
      len := 0;
  }

  lemma FillGap(pkt: Bytes, off: nat, x: Bytes, gap: Bytes, y: Bytes)
    requires off + |x| + |gap| + |y| <= |pkt|
    ensures Overwrite(Overwrite(Overwrite(pkt, off, x), off + |x| + |gap|, y), off + |x|, gap)
         == Overwrite(pkt, off, x + (gap + y))
  {
  }

  /** One record: the data length is filled in after the data is written. */
  method EncodeRrInto(pkt: array<byte>, off: nat, rr: Rr, comp: NameComp) returns (len: nat)
    requires IsRr(rr) && off + |EncodeRr(off, rr, comp.entries).bytes| <= pkt.Length
    modifies pkt, comp
    ensures len == |EncodeRr(off, rr, old(comp.entries)).bytes|
    ensures pkt[..] == Overwrite(old(pkt[..]), off, EncodeRr(off, rr, old(comp.entries)).bytes)
    ensures comp.entries == EncodeRr(off, rr, old(comp.entries)).comp
  {
    hide Overwrite, EncodeName, EncodeData, U16, U32, IsRr, ClassWord, TypeOf;
    NameOf(rr);
    ghost var before, n := pkt[..], EncodeName(off, rr.name, comp.entries);
    ghost var d := EncodeData(off + |n.bytes| + 10, rr, n.comp);
    var l := EncodeNameInto(pkt, off, rr.name, comp);
    var p := off + l;
    Write(pkt, p, U16(TypeOf(rr.data)));
    OverwriteTwice(before, off, n.bytes, U16(TypeOf(rr.data)));
    Write(pkt, p + 2, U16(ClassWord(rr.rrClass, rr.cacheFlush)));
    OverwriteTwice(before, off, n.bytes + U16(TypeOf(rr.data)), U16(ClassWord(rr.rrClass, rr.cacheFlush)));
    Write(pkt, p + 4, U32(rr.ttl));
    OverwriteTwice(before, off, n.bytes + U16(TypeOf(rr.data)) + U16(ClassWord(rr.rrClass, rr.cacheFlush)),
                   U32(rr.ttl));
    ghost var x := n.bytes + FixedPart(rr);
    assert x == n.bytes + U16(TypeOf(rr.data)) + U16(ClassWord(rr.rrClass, rr.cacheFlush)) + U32(rr.ttl);
    var dataLen := EncodeDataInto(pkt, p + 10, rr, comp);
    Write(pkt, p + 8, U16(dataLen));
    FillGap(before, off, x, U16(dataLen), d.bytes);
    assert x + (U16(dataLen) + d.bytes) == n.bytes + (FixedPart(rr) + (U16(dataLen) + d.bytes));
    len := l + 10 + dataLen;
  }

  lemma NameOf(rr: Rr)
    requires IsRr(rr)
    ensures IsName(rr.name)
  {
  }

  lemma RrsStep(off: nat, rrs: seq<Rr>, comp: seq<CompEntry>) returns (rest: Bytes)
    requires rrs != [] && forall rr <- rrs :: IsRr(rr)
    ensures var first := EncodeRr(off, rrs[0], comp);
      && rest == EncodeRrs(off + |first.bytes|, rrs[1..], first.comp).bytes
      && EncodeRrs(off, rrs, comp).bytes == first.bytes + rest
  {
    hide EncodeRr;
    var first := EncodeRr(off, rrs[0], comp);
    rest := EncodeRrs(off + |first.bytes|, rrs[1..], first.comp).bytes;
  }

  /** Every record that is written fits; writing ends with the first record that
      fills the buffer. */
  predicate FitsBuffer(off: nat, rrs: seq<Rr>, comp: seq<CompEntry>, size: nat)
    requires forall rr <- rrs :: IsRr(rr)
    decreases |rrs|
  {
    rrs != [] ==>
      var first := EncodeRr(off, rrs[0], comp);
      var next := off + |first.bytes|;
      next <= size && (next < size ==> FitsBuffer(next, rrs[1..], first.comp, size))
  }

  lemma FitsStep(off: nat, rrs: seq<Rr>, comp: seq<CompEntry>, size: nat)
    requires rrs != [] && (forall rr <- rrs :: IsRr(rr)) && FitsBuffer(off, rrs, comp, size)
    ensures var first := EncodeRr(off, rrs[0], comp);
      var next := off + |first.bytes|;
      next <= size && (next < size ==> FitsBuffer(next, rrs[1..], first.comp, size))
  {
    hide EncodeRr, IsRr;
  }

  /** One section, `more` being the records of the sections after it. None: the
      packet buffer is full after one of the records. */
  method EncodeList(pkt: array<byte>, off: nat, rrs: seq<Rr>, comp: NameComp, ghost more: seq<Rr>)
    returns (end: Option<nat>, ghost written: Bytes)
    requires forall rr <- rrs + more :: IsRr(rr)
    requires off <= pkt.Length && FitsBuffer(off, rrs + more, comp.entries, pkt.Length)
    modifies pkt, comp
    ensures end.Some? ==>
      && FitsBuffer(end.value, more, comp.entries, pkt.Length)
      && end.value == off + |written| && (if rrs == [] then written == [] else end.value < pkt.Length)
      && EncodeRrs(off, rrs + more, old(comp.entries)).bytes == written + EncodeRrs(end.value, more, comp.entries).bytes
      && off + |written| <= pkt.Length && pkt[..] == Overwrite(old(pkt[..]), off, written)
    ensures end.None? ==> rrs != [] && off + |EncodeRrs(off, rrs + more, old(comp.entries)).bytes| >= pkt.Length
  {
    hide Overwrite, EncodeRr, EncodeRrs, IsRr, FitsBuffer;
    ghost var before, all := pkt[..], EncodeRrs(off, rrs + more, comp.entries).bytes;
    written := [];
    var i, p := 0, off;
    NothingWritten(before, off);
    assert rrs[0..] == rrs;
    while i < |rrs|
      invariant i <= |rrs| && p == off + |written| <= |before| == pkt.Length
      invariant FitsBuffer(p, rrs[i..] + more, comp.entries, pkt.Length)
      invariant if i == 0 then written == [] else p < pkt.Length
      invariant all == written + EncodeRrs(p, rrs[i..] + more, comp.entries).bytes
      invariant pkt[..] == Overwrite(before, off, written)
    {
      ghost var todo := rrs[i..] + more;
      assert todo[0] == rrs[i] && todo[1..] == rrs[i + 1..] + more && rrs[i] in rrs + more;
      ghost var first := EncodeRr(p, rrs[i], comp.entries);
      ghost var rest := RrsStep(p, todo, comp.entries);
      FitsStep(p, todo, comp.entries, pkt.Length);
      assert written + (first.bytes + rest) == written + first.bytes + rest;
      var l := EncodeRrInto(pkt, p, rrs[i], comp);
      OverwriteTwice(before, off, written, first.bytes);
      written, p, i := written + first.bytes, p + l, i + 1;
      if p >= pkt.Length {
        return None, written;
      }
    }
    assert rrs[i..] + more == more;
    return Some(p), written;
  }

  /** mdns_encode_pkt. None stands for -1, the result for a buffer that a record
      fills to the last byte. */
  method EncodePktInto(pkt: Packet, buf: array<byte>) returns (size: Option<nat>)
    requires buf.Length >= 12 && pkt.header.numQn == 0 && forall rr <- AllRrs(pkt) :: IsRr(rr)
    requires FitsBuffer(12, AllRrs(pkt), [CompEntry([], 0)], buf.Length)
    modifies buf
    ensures size == if AllRrs(pkt) != [] && |EncodePkt(pkt).bytes| >= buf.Length then None
        else Some(|EncodePkt(pkt).bytes|)
    ensures size.Some? ==> buf[..size.value] == EncodePkt(pkt).bytes
  {
    hide Overwrite, EncodeRrs, HeaderBytes, IsRr, FitsBuffer;
    ghost var before, h := buf[..], HeaderBytes(pkt.header);
    ghost var e := EncodeRrs(12, AllRrs(pkt), [CompEntry([], 0)]).bytes;
    AuthAndAdd(pkt);
    Write(buf, 0, HeaderBytes(pkt.header));
    var comp := new NameComp();
    var end, w1 := EncodeList(buf, 12, pkt.ans, comp, pkt.auth + pkt.add);
    if end.None? { return None; }
    OverwriteTwice(before, 0, h, w1);
    ghost var w2, w3;
    ghost var e2 := EncodeRrs(end.value, pkt.auth + pkt.add, comp.entries).bytes;
    end, w2 := EncodeList(buf, end.value, pkt.auth, comp, pkt.add);
    if end.None? { return None; }
    OverwriteTwice(before, 0, h + w1, w2);
    assert pkt.add + [] == pkt.add;
    ghost var e3 := EncodeRrs(end.value, pkt.add, comp.entries).bytes;
    end, w3 := EncodeList(buf, end.value, pkt.add, comp, []);
    if end.None? { return None; }
    NoRecords(end.value, comp.entries);
    OverwriteTwice(before, 0, h + w1 + w2, w3);
    Regroup(h, w1, w2, w3);
    OverwritePrefix(before, EncodePkt(pkt).bytes);
    assert w3 + [] == w3;
    return end;
  }

  lemma Regroup(h: Bytes, x: Bytes, y: Bytes, z: Bytes)
    ensures h + (x + (y + z)) == h + x + y + z
  {
  }

  lemma AuthAndAdd(pkt: Packet)
    requires forall rr <- AllRrs(pkt) :: IsRr(rr)
    ensures forall rr <- pkt.auth + pkt.add :: IsRr(rr)
  {
    assert forall rr <- pkt.auth + pkt.add :: rr in AllRrs(pkt);
  }

  lemma NoRecords(off: nat, comp: seq<CompEntry>)
    ensures EncodeRrs(off, [], comp).bytes == []
  {
  }

  lemma OverwritePrefix(pkt: Bytes, bytes: Bytes)
    requires |bytes| <= |pkt|
    ensures Overwrite(pkt, 0, bytes)[..|bytes|] == bytes
  {
  }

  // ----- The parser -----

  method ParseTxtRecord(buf: Bytes, d: nat, len: nat) returns (r: Parsed<seq<Bytes>>)
    requires 0 < len && d + len <= |buf|
    ensures r == ParseTxt(buf, d, d + len)
  {
    hide StrnCopy;
    var p, e := d, d + len;
    var strings: seq<Bytes> := [];
    PrependLaws(strings, [], ParseTxt(buf, d, e));
    while true
      invariant d <= p < e <= |buf|
      invariant ParseTxt(buf, d, e) == Prepend(strings, ParseTxt(buf, p, e))
      decreases |buf| - p
    {
      var next := p + buf[p] as nat + 1;
      if next > |buf| || buf[p] as nat > MAX_PARSED_TXT {
        return Bad;
      }
      var s := StrnCopy(buf[p + 1..next]);
      if next < e {
        PrependLaws(strings, [s], ParseTxt(buf, next, e));
      }
      strings := strings + [s];
      if next >= e {
        return Good(strings, next);
      }
      p := next;
    }
  }

  method ParseRrFrom(buf: Bytes, off: nat) returns (r: Parsed<Rr>)
    requires ParseRr(buf, off) != Undefined
    ensures r == ParseRr(buf, off)
  {
    hide NameRead, WireLength, ReadU16, ReadU32, ParseTxt, ParsedClass, Copied;
    if off > |buf| {
      return Bad;
    }
    ghost var known := NameRead(buf, off).value;
    var name := UncompressNlabel(buf, off, known);
    InBounds(buf, off, known);
    var p := LabelLen(buf, off);
    p := p + off;
    var rtype, w, ttl, len := ReadU16(buf, p), ReadU16(buf, p + 2), ReadU32(buf, p + 4), ReadU16(buf, p + 8);
    var d := p + 10;
    if d + len > |buf| {
      return Bad;
    }
    var data, end := Skipped(rtype), d + len;
    if rtype == RR_A {
      if len < 4 { return Bad; }
      data, end := A(buf[d..d + 4]), d + 4;
    } else if rtype == RR_AAAA {
      if len < 16 { return Bad; }
      data, end := Aaaa(buf[d..d + 16]), d + 16;
    } else if rtype == RR_PTR {
      ghost var knownTarget := if d < |buf| then NameRead(buf, d).value else [];
      var target := UncompressNlabel(buf, d, knownTarget);
      if target.None? { return Bad; }
      data := Ptr(target.value);
    } else if rtype == RR_TXT {
      if len == 0 {
        data, end := Txt([[]]), d;
      } else {
        var txt := ParseTxtRecord(buf, d, len);
        if !txt.Good? { return Bad; }
        data, end := Txt(txt.value), txt.end;
      }
    }
    return Good(Rr(name.value, ParsedClass(w), w >= 0x8000, ttl, data), end);
  }

  lemma InBounds(b: Bytes, p: nat, n: Name)
    requires NameAt(b, p, n)
    ensures p < |b|
  {
  }

  method ParseQuestionFrom(buf: Bytes, off: nat) returns (r: Parsed<Question>)
    requires ParseQuestion(buf, off) != Undefined
    ensures r == ParseQuestion(buf, off)
  {
    hide NameRead, WireLength, ReadU16, ParsedClass, Copied;
    ghost var known := NameRead(buf, off).value;
    var name := UncompressNlabel(buf, off, known);
    InBounds(buf, off, known);
    var p := LabelLen(buf, off);
    p := p + off;
    var w := ReadU16(buf, p + 2);
    return Good(Question(name.value, ReadU16(buf, p), w >= 0x8000, ParsedClass(w)), p + 4);
  }

  method ParsePktFrom(buf: Bytes) returns (r: Parsed<Packet>)
    requires ParsePkt(buf) != Undefined
    ensures r == ParsePkt(buf)
  {
    hide ParseQuestion, ParseRr, ReadHeader;
    if |buf| < 12 {
      return Bad;
    }
    var h := ReadHeader(buf);
    var off := 12;
    var qn: seq<Question> := [];
    PrependLaws(qn, [], ParseQuestions(buf, 12, h.numQn));
    for i := 0 to h.numQn
      invariant |qn| == i
      invariant ParseQuestions(buf, 12, h.numQn) == Prepend(qn, ParseQuestions(buf, off, h.numQn - i))
    {
      var q := ParseQuestionFrom(buf, off);
      if !q.Good? { return Bad; }
      PrependLaws(qn, [q.value], ParseQuestions(buf, q.end, h.numQn - i - 1));
      qn, off := qn + [q.value], q.end;
    }
    assert qn + [] == qn;
    ghost var start := off;
    var ans: seq<Rr> := [];
    PrependLaws(ans, [], ParseRrs(buf, start, h.numAns));
    for i := 0 to h.numAns
      invariant ParseRrs(buf, start, h.numAns) == Prepend(ans, ParseRrs(buf, off, h.numAns - i))
    {
      var rr := ParseRrFrom(buf, off);
      if !rr.Good? { return Bad; }
      PrependLaws(ans, [rr.value], ParseRrs(buf, rr.end, h.numAns - i - 1));
      ans, off := ans + [rr.value], rr.end;
    }
    assert ans + [] == ans;
    return Good(Packet(h, qn, ans, [], []), off);
  }
}

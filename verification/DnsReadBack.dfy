/** Which encoded packets parse back (tinysvcmdns.c): the exact condition for
    packets of any size, a packet that fails it, and queries. */
module DnsReadBack {
  import opened Arith
  import opened DnsName
  import opened DnsPacket
  import opened Wrappers

  // ----- The exact condition -----

  /** The names of a record that the parser follows are there to be followed. */
  predicate RrLinksRead(b: Bytes, off: nat, rr: Rr, comp: seq<CompEntry>)
    requires IsRr(rr)
  {
    && LinkReads(b, Link(rr.name, comp))
    && (rr.data.Ptr? ==> LinkReads(b, Link(rr.data.target, EncodeName(off, rr.name, comp).comp)))
  }

  predicate LinksRead(b: Bytes, off: nat, rrs: seq<Rr>, comp: seq<CompEntry>)
    requires forall rr <- rrs :: IsRr(rr)
    decreases |rrs|
  {
    rrs != [] ==>
      && RrLinksRead(b, off, rrs[0], comp)
      && var first := EncodeRr(off, rrs[0], comp);
         LinksRead(b, off + |first.bytes|, rrs[1..], first.comp)
  }

  /** The copy of what reads at p is the name n. */
  predicate Copies(r: Option<Name>, n: Name) {
    r.Some? && Copied(r.value) == n
  }

  lemma NameComesBack(b: Bytes, p: nat, n: Name)
    requires IsName(n)
    ensures Copies(NameRead(b, p), n) <==> NameAt(b, p, n)
  {
    hide Copied, IsName, NameAt, NameRead;
    if NameAt(b, p, n) {
      NameReads(b, p, n);
      CopiedExact(n);
    } else if Copies(NameRead(b, p), n) {
      NoZeros(n);
      CopiedBack(NameRead(b, p).value);
      ReadIsAt(b, p);
    }
  }

  lemma ReadIsAt(b: Bytes, p: nat)
    requires NameRead(b, p).Some?
    ensures NameAt(b, p, NameRead(b, p).value)
  {
  }

  lemma DataReadsBack(b: Bytes, d: nat, rr: Rr, comp: seq<CompEntry>)
    requires IsRr(rr) && Holds(b, d, EncodeData(d, rr, comp).bytes)
    ensures d + |EncodeData(d, rr, comp).bytes| <= |b|
    ensures var r := ParseData(b, d, |EncodeData(d, rr, comp).bytes|, TypeOf(rr.data));
      var good := Good(ParsedData(rr.data), d + |EncodeData(d, rr, comp).bytes|);
      && (r.Good? ==> r.end == good.end)
      && if rr.data.Ptr? ==> LinkReads(b, Link(rr.data.target, comp))
         then r == if TxtFits(rr) then good else Bad
         else r != good
  {
    hide NameAt, NameRead, EncodeName, TxtBytes, ParseTxt, ShortStrings, U16, Holds, Copied, LinkReads, Link;
    var e := EncodeData(d, rr, comp);
    HoldsWhole(b, d, e.bytes);
    match rr.data
    case Ptr(n) =>
      EncodeNameReads(b, d, n, comp);
      NameComesBack(b, d, n);
    case Txt(ss) => TxtParses(b, d, ss);
    case _ =>
  }

  /** A record whose names can be followed parses back, up to what the parser
      does not keep, or is refused, exactly when it has a TXT string of 63
      bytes. Any other record does not parse back. */
  lemma RrReadsBack(b: Bytes, off: nat, rr: Rr, comp: seq<CompEntry>)
    requires IsRr(rr) && Holds(b, off, EncodeRr(off, rr, comp).bytes) && |EncodeRr(off, rr, comp).bytes| <= 0xFFFF
    ensures var r := ParseRr(b, off);
      var good := Good(ParsedRr(rr), off + |EncodeRr(off, rr, comp).bytes|);
      && (r.Good? ==> r.end == good.end)
      && if RrLinksRead(b, off, rr, comp) then r == if TxtFits(rr) then good else Bad else r != good
  {
    hide NameAt, NameRead, EncodeName, EncodeData, ParseData, TxtFits, U16, U32, ReadU16, ReadU32, Holds, ParsedData,
      WireLength, ClassWord, ParsedClass, Copied, LinkReads, Link;
    var n := EncodeName(off, rr.name, comp);
    var p := off + |n.bytes|;
    var d := EncodeData(p + 10, rr, n.comp);
    HoldsSplit(b, off, n.bytes, FixedPart(rr) + (U16(|d.bytes|) + d.bytes));
    HoldsSplit(b, p, FixedPart(rr), U16(|d.bytes|) + d.bytes);
    HoldsSplit(b, p + 8, U16(|d.bytes|), d.bytes);
    HoldsWhole(b, off, n.bytes);
    EncodeNameReads(b, off, rr.name, comp);
    NameComesBack(b, off, rr.name);
    FixedPartReads(b, p, rr);
    U16Reads(b, p + 8, |d.bytes|);
    DataReadsBack(b, p + 10, rr, n.comp);
  }

  lemma {:induction false} RrsReadBack(b: Bytes, off: nat, rrs: seq<Rr>, more: seq<Rr>, comp: seq<CompEntry>)
    requires forall rr <- rrs + more :: IsRr(rr)
    requires Holds(b, off, EncodeRrs(off, rrs + more, comp).bytes) && |EncodeRrs(off, rrs + more, comp).bytes| <= 0xFFFF
    ensures forall rr <- rrs :: IsRr(rr)
    ensures var r := ParseRrs(b, off, |rrs|);
      && (r.Good? && r.value == ParsedRrs(rrs) <==> (forall rr <- rrs :: TxtFits(rr)) && LinksRead(b, off, rrs, comp))
      && (LinksRead(b, off, rrs, comp) ==> if forall rr <- rrs :: TxtFits(rr) then r.Good? else r == Bad)
    decreases |rrs|
  {
    hide Holds, EncodeRr, ParseRr, TxtFits, ParsedRr, IsRr, RrLinksRead;
    if rrs != [] {
      var all := rrs + more;
      var first := EncodeRr(off, all[0], comp);
      assert all[0] == rrs[0] && all[0] in all && all[1..] == rrs[1..] + more;
      HoldsSplit(b, off, first.bytes, EncodeRrs(off + |first.bytes|, all[1..], first.comp).bytes);
      RrReadsBack(b, off, rrs[0], comp);
      RrsReadBack(b, off + |first.bytes|, rrs[1..], more, first.comp);
      FitsSplit(rrs);
      assert ParsedRrs(rrs) == [ParsedRr(rrs[0])] + ParsedRrs(rrs[1..]);
      HeadAndTail(rrs, ParseRr(b, off), ParseRrs(b, off + |first.bytes|, |rrs| - 1));
    }
    assert forall rr <- rrs :: rr in rrs + more;
  }

  lemma HeadAndTail(rrs: seq<Rr>, head: Parsed<Rr>, tail: Parsed<seq<Rr>>)
    requires rrs != []
    ensures head.Good? && Prepend([head.value], tail).Good? && Prepend([head.value], tail).value == ParsedRrs(rrs)
            <==> head.Good? && head.value == ParsedRr(rrs[0]) && tail.Good? && tail.value == ParsedRrs(rrs[1..])
  {
    hide ParsedRr;
    var all := ParsedRrs(rrs);
    assert all == [ParsedRr(rrs[0])] + ParsedRrs(rrs[1..]);
    assert all[0] == ParsedRr(rrs[0]) && all[1..] == ParsedRrs(rrs[1..]);
    if head.Good? && tail.Good? {
      var r := [head.value] + tail.value;
      assert r[0] == head.value && r[1..] == tail.value;
    }
  }

  // ----- Near pointers always read -----

  /** Of the names that the parser follows only those with a far pointer are in doubt. */
  predicate FarRrLinksRead(b: Bytes, off: nat, rr: Rr, comp: seq<CompEntry>)
    requires IsRr(rr)
  {
    && FarLinkReads(b, Link(rr.name, comp))
    && (rr.data.Ptr? ==> FarLinkReads(b, Link(rr.data.target, EncodeName(off, rr.name, comp).comp)))
  }

  predicate FarLinksRead(b: Bytes, off: nat, rrs: seq<Rr>, comp: seq<CompEntry>)
    requires forall rr <- rrs :: IsRr(rr)
    decreases |rrs|
  {
    rrs != [] ==>
      && FarRrLinksRead(b, off, rrs[0], comp)
      && var first := EncodeRr(off, rrs[0], comp);
         FarLinksRead(b, off + |first.bytes|, rrs[1..], first.comp)
  }

  lemma DataKeepsNear(b: Bytes, d: nat, rr: Rr, comp: seq<CompEntry>)
    requires IsRr(rr) && Holds(b, d, EncodeData(d, rr, comp).bytes)
    requires NearSound(b, comp) && Backward(comp, d)
    ensures NearSound(b, EncodeData(d, rr, comp).comp)
  {
    hide NearSound, EncodeName, TxtBytes, U16, Holds;
    match rr.data
    case Ptr(n) => EncodeNameKeepsNear(b, d, n, comp);
    case Srv(priority, weight, port, host) =>
      var h := EncodeName(d + 6, host, comp).bytes;
      HoldsSplit(b, d, U16(priority), U16(weight) + (U16(port) + h));
      HoldsSplit(b, d + 2, U16(weight), U16(port) + h);
      HoldsSplit(b, d + 4, U16(port), h);
      EncodeNameKeepsNear(b, d + 6, host, comp);
    case Nsec(bitmap) =>
      HoldsSplit(b, d, EncodeName(d, rr.name, comp).bytes, [0, NSEC_BITMAP as byte] + bitmap);
      EncodeNameKeepsNear(b, d, rr.name, comp);
    case _ =>
  }

  lemma RrKeepsNear(b: Bytes, off: nat, rr: Rr, comp: seq<CompEntry>)
    requires IsRr(rr) && Holds(b, off, EncodeRr(off, rr, comp).bytes)
    requires NearSound(b, comp) && Backward(comp, off)
    ensures NearSound(b, EncodeRr(off, rr, comp).comp)
    ensures RrLinksRead(b, off, rr, comp) <==> FarRrLinksRead(b, off, rr, comp)
  {
    hide NearSound, Backward, EncodeName, EncodeData, U16, FixedPart, Holds, LinkReads, FarLinkReads, Link;
    NameOf(rr);
    var n := EncodeName(off, rr.name, comp);
    var p := off + |n.bytes|;
    var d := EncodeData(p + 10, rr, n.comp);
    HoldsSplit(b, off, n.bytes, FixedPart(rr) + (U16(|d.bytes|) + d.bytes));
    HoldsSplit(b, p, FixedPart(rr), U16(|d.bytes|) + d.bytes);
    HoldsSplit(b, p + 8, U16(|d.bytes|), d.bytes);
    EncodeNameBackward(off, rr.name, comp);
    Later(n.comp, p, p + 10);
    EncodeNameKeepsNear(b, off, rr.name, comp);
    NearLinksRead(b, rr.name, comp);
    DataKeepsNear(b, p + 10, rr, n.comp);
    if rr.data.Ptr? {
      NearLinksRead(b, rr.data.target, n.comp);
    }
  }

  lemma {:induction false} OnlyFarLinks(b: Bytes, off: nat, rrs: seq<Rr>, more: seq<Rr>, comp: seq<CompEntry>)
    requires (forall rr <- rrs + more :: IsRr(rr)) && Holds(b, off, EncodeRrs(off, rrs + more, comp).bytes)
    requires NearSound(b, comp) && Backward(comp, off)
    ensures forall rr <- rrs :: IsRr(rr)
    ensures LinksRead(b, off, rrs, comp) <==> FarLinksRead(b, off, rrs, comp)
    decreases |rrs|
  {
    hide NearSound, Backward, Holds, EncodeRr, IsRr, RrLinksRead, FarRrLinksRead;
    if rrs != [] {
      var all := rrs + more;
      var first := EncodeRr(off, all[0], comp);
      assert all[0] == rrs[0] && all[0] in all && all[1..] == rrs[1..] + more;
      HoldsSplit(b, off, first.bytes, EncodeRrs(off + |first.bytes|, all[1..], first.comp).bytes);
      RrKeepsNear(b, off, rrs[0], comp);
      RrBackward(off, rrs[0], comp);
      OnlyFarLinks(b, off + |first.bytes|, rrs[1..], more, first.comp);
    }
    assert forall rr <- rrs :: rr in rrs + more;
  }

  lemma FitsNoFarRr(b: Bytes, off: nat, rr: Rr, comp: seq<CompEntry>)
    requires IsRr(rr) && EncodeRr(off, rr, comp).pointersFit
    ensures FarRrLinksRead(b, off, rr, comp)
  {
    hide EncodeName, U16, FixedPart, LabelAt, Link;
    NameOf(rr);
    var n := EncodeName(off, rr.name, comp);
    assert comp + [] == comp && n.comp + [] == n.comp;
    EncodeNameLinks(off, rr.name, comp, []);
    if rr.data.Ptr? {
      EncodeNameLinks(off + |n.bytes| + 10, rr.data.target, n.comp, []);
    }
  }

  /** Where every pointer fits, there is no far one. */
  lemma {:induction false} FitsNoFar(b: Bytes, off: nat, rrs: seq<Rr>, more: seq<Rr>, comp: seq<CompEntry>)
    requires (forall rr <- rrs + more :: IsRr(rr)) && EncodeRrs(off, rrs + more, comp).pointersFit
    ensures forall rr <- rrs :: IsRr(rr)
    ensures FarLinksRead(b, off, rrs, comp)
    decreases |rrs|
  {
    hide EncodeRr, IsRr, FarRrLinksRead;
    if rrs != [] {
      var all := rrs + more;
      var first := EncodeRr(off, all[0], comp);
      assert all[0] == rrs[0] && all[0] in all && all[1..] == rrs[1..] + more;
      FitsNoFarRr(b, off, rrs[0], comp);
      FitsNoFar(b, off + |first.bytes|, rrs[1..], more, first.comp);
    }
    assert forall rr <- rrs :: rr in rrs + more;
  }

  // ----- Replies -----

  /** A reply of any size parses back exactly when every far pointer that the
      parser follows leads, with the 14 bits it has, to the rest of its name, and
      no answer has a TXT string of 63 bytes; where the pointers lead there, it
      is refused for such a string. */
  lemma PacketReadsBack(b: Bytes, pkt: Packet)
    requires IsReply(pkt) && Holds(b, 0, EncodePkt(pkt).bytes) && |EncodePkt(pkt).bytes| <= 0xFFFF
    ensures forall rr <- pkt.ans :: IsRr(rr)
    ensures var r, fits := ParsePkt(b), forall rr <- pkt.ans :: TxtFits(rr);
      var far := FarLinksRead(b, 12, pkt.ans, [CompEntry([], 0)]);
      && (r.Good? && r.value == Packet(pkt.header, [], ParsedRrs(pkt.ans), [], []) <==> far && fits)
      && (far && !fits ==> r == Bad)
  {
    hide Holds, ParseRrs, EncodeRrs, TxtFits, ReadHeader, HeaderBytes, IsRr, LinksRead, FarLinksRead, NearSound,
        Backward;
    var comp := [CompEntry([], 0)];
    HoldsWhole(b, 0, EncodePkt(pkt).bytes);
    HoldsSplit(b, 0, HeaderBytes(pkt.header), EncodeRrs(12, AllRrs(pkt), comp).bytes);
    HeaderReads(b, pkt.header);
    NoEntries(b);
    OnlyFarLinks(b, 12, pkt.ans, pkt.auth + pkt.add, comp);
    RrsReadBack(b, 12, pkt.ans, pkt.auth + pkt.add, comp);
  }

  /** The packet round trip, for every packet of up to 0x4000 bytes and every
      longer one whose pointers fit: header and answers come back in order,
      whatever authority and additional records follow them, and the packet is
      refused exactly when an answer has a TXT string of 63 bytes. */
  lemma PacketRoundTrip(b: Bytes, pkt: Packet)
    requires IsReply(pkt) && Holds(b, 0, EncodePkt(pkt).bytes)
    requires |EncodePkt(pkt).bytes| <= 0xFFFF
    requires |EncodePkt(pkt).bytes| <= LINK_RANGE || EncodePkt(pkt).pointersFit
    ensures if forall rr <- pkt.ans :: TxtFits(rr)
            then ParsePkt(b).Good? && ParsePkt(b).value == Packet(pkt.header, [], ParsedRrs(pkt.ans), [], [])
            else ParsePkt(b) == Bad
  {
    hide Holds, ParsePkt, EncodeRrs, TxtFits, HeaderBytes, IsRr, FarLinksRead, ParsedRrs;
    PacketPointersFit(pkt);
    FitsNoFar(b, 12, pkt.ans, pkt.auth + pkt.add, [CompEntry([], 0)]);
    PacketReadsBack(b, pkt);
  }

  lemma NoEntries(b: Bytes)
    ensures NearSound(b, [CompEntry([], 0)]) && Backward([CompEntry([], 0)], 12)
  {
  }

  lemma Later(comp: seq<CompEntry>, off: nat, later: nat)
    requires Backward(comp, off) && off <= later
    ensures Backward(comp, later)
  {
  }

  // ----- A packet that fails it -----

  const FILLER := 0x4000 - 23

  function EmptyStrings(n: nat): (ss: seq<Bytes>)
    ensures |ss| == n && forall s <- ss :: s == []
  {
    seq(n, _ => [])
  }

  lemma {:induction false} EmptyStringsLength(n: nat)
    ensures |TxtBytes(EmptyStrings(n))| == n
  {
    if n != 0 {
      EmptyStringsLength(n - 1);
      assert EmptyStrings(n)[1..] == EmptyStrings(n - 1);
    }
  }

  /** The label "a", two addresses of it, and a record that moves them to 0x4000. */
  const LABEL_A: Name := [1, 97]
  const FILLING := Rr([], 1, false, 0, Txt(EmptyStrings(FILLER)))
  const ADDRESS := Rr(LABEL_A, 1, false, 0, A([0, 0, 0, 0]))
  const FAR_PACKET := Packet(Header(0, 0, 0, 3, 0, 0), [], [FILLING, ADDRESS, ADDRESS], [], [])

  lemma FillingEncoded(comp: seq<CompEntry>)
    ensures IsRr(FILLING) && TxtFits(FILLING)
    ensures |EncodeRr(12, FILLING, comp).bytes| == 0x4000 - 12
    ensures EncodeRr(12, FILLING, comp).comp == comp
  {
    hide TxtBytes;
    EmptyStringsLength(FILLER);
  }

  lemma AddressEncoded(off: nat, comp: seq<CompEntry>)
    ensures IsRr(ADDRESS) && TxtFits(ADDRESS)
    ensures |EncodeRr(off, ADDRESS, comp).bytes| <= 17
    ensures Find(comp, LABEL_A).None? ==> EncodeRr(off, ADDRESS, comp).comp == comp + [CompEntry(LABEL_A, off)]
    ensures Find(comp, LABEL_A).None? ==> |EncodeRr(off, ADDRESS, comp).bytes| == 17
    ensures forall b :: FarRrLinksRead(b, off, ADDRESS, comp) <==> FarLinkReads(b, Link(LABEL_A, comp))
  {
    hide FixedPart;
    assert LABEL_A[Seg(LABEL_A)..] == [];
  }

  const AFTER_FIRST := [CompEntry([], 0)] + [CompEntry(LABEL_A, 0x4000)]

  lemma LinkOfSecond()
    ensures Find([CompEntry([], 0)], LABEL_A).None?
    ensures IsName(LABEL_A) && Link(LABEL_A, AFTER_FIRST) == Some(CompEntry(LABEL_A, 0x4000))
  {
    assert LABEL_A[Seg(LABEL_A)..] == [];
    assert Find([], LABEL_A).None?;
    assert AFTER_FIRST[0].name == [] && AFTER_FIRST[1..] == [CompEntry(LABEL_A, 0x4000)];
    assert Find(AFTER_FIRST[1..], LABEL_A) == Some(0x4000);
    assert Find(AFTER_FIRST, LABEL_A) == Some(0x4000);
  }

  lemma FarRecords(b: Bytes)
    ensures forall rr <- FAR_PACKET.ans :: IsRr(rr) && TxtFits(rr)
    ensures |EncodeRrs(12, FAR_PACKET.ans, [CompEntry([], 0)]).bytes| <= 0x4000 - 12 + 34
    ensures FarLinksRead(b, 12, FAR_PACKET.ans, [CompEntry([], 0)]) ==> LabelAt(b, 0, LABEL_A)
  {
    hide EncodeRr, IsRr, TxtFits, FarRrLinksRead, Find, Link, LabelAt;
    var comp := [CompEntry([], 0)];
    FillingEncoded(comp);
    LinkOfSecond();
    AddressEncoded(0x4000, comp);
    AddressEncoded(0x4000 + 17, AFTER_FIRST);
    var rrs := FAR_PACKET.ans;
    assert rrs[1..] == [ADDRESS, ADDRESS] && rrs[1..][1..] == [ADDRESS] && rrs[1..][1..][1..] == [];
    assert |EncodeRrs(0x4000 + 34, [], AFTER_FIRST).bytes| == 0;
    assert |EncodeRrs(0x4000 + 17, [ADDRESS], AFTER_FIRST).bytes| <= 17;
    assert |EncodeRrs(0x4000, [ADDRESS, ADDRESS], comp).bytes| <= 34;
    if FarLinksRead(b, 12, rrs, comp) {
      assert FarLinksRead(b, 0x4000, rrs[1..], comp);
      assert FarLinksRead(b, 0x4000 + 17, rrs[1..][1..], AFTER_FIRST);
    }
  }

  lemma FarIsReply()
    requires forall rr <- FAR_PACKET.ans :: IsRr(rr)
    ensures AllRrs(FAR_PACKET) == FAR_PACKET.ans && IsReply(FAR_PACKET)
    ensures EncodePkt(FAR_PACKET).bytes != [] && EncodePkt(FAR_PACKET).bytes[0] == 0
  {
    hide IsRr, EncodeRrs;
    assert FAR_PACKET.auth + FAR_PACKET.add == [];
  }

  /** The encoder does reach far entries: a legal reply whose third record ends
      in a pointer to 0x4000, so that the reply does not parse back. */
  lemma FarPacketMisreads(b: Bytes)
    requires Holds(b, 0, EncodePkt(FAR_PACKET).bytes)
    ensures IsReply(FAR_PACKET) && (forall rr <- FAR_PACKET.ans :: TxtFits(rr))
        && |EncodePkt(FAR_PACKET).bytes| <= 0xFFFF
    ensures var expected := Packet(FAR_PACKET.header, [], ParsedRrs(FAR_PACKET.ans), [], []);
      !(ParsePkt(b).Good? && ParsePkt(b).value == expected)
  {
    hide Holds, EncodeRrs, IsRr, TxtFits, FarLinksRead, LabelAt, ParsePkt, ParsedRrs, U16, IsReply;
    FarRecords(b);
    FarIsReply();
    PacketReadsBack(b, FAR_PACKET);
    FirstByte(b, 0, EncodePkt(FAR_PACKET).bytes);
    LabelByte(b, 0, LABEL_A);
  }

  // ----- Queries -----

  /** A question as a querier writes it (the responder only reads questions). */
  function EncodeQuestion(off: nat, q: Question, comp: seq<CompEntry>): Encoded
    requires IsName(q.name)
  {
    var n := EncodeName(off, q.name, comp);
    Encoded(n.bytes + (U16(q.rtype) + U16(ClassWord(q.rrClass, q.unicast))), n.comp, n.pointersFit)
  }

  function EncodeQuestions(off: nat, qn: seq<Question>, comp: seq<CompEntry>): Encoded
    requires forall q <- qn :: IsName(q.name)
    decreases |qn|
  {
    if qn == [] then Encoded([], comp, true)
    else
      var first := EncodeQuestion(off, qn[0], comp);
      var rest := EncodeQuestions(off + |first.bytes|, qn[1..], first.comp);
      Encoded(first.bytes + rest.bytes, rest.comp, first.pointersFit && rest.pointersFit)
  }

  /** A query: its questions and, as answers, the records the querier knows. */
  function EncodeQuery(h: Header, qn: seq<Question>, known: seq<Rr>): Encoded
    requires (forall q <- qn :: IsName(q.name)) && forall rr <- known :: IsRr(rr)
  {
    var q := EncodeQuestions(12, qn, [CompEntry([], 0)]);
    var a := EncodeRrs(12 + |q.bytes|, known, q.comp);
    Encoded(HeaderBytes(h) + (q.bytes + a.bytes), a.comp, q.pointersFit && a.pointersFit)
  }

  function ParsedQuestion(q: Question): Question {
    q.(rrClass := ParsedClass(ClassWord(q.rrClass, q.unicast)))
  }

  function ParsedQuestions(qn: seq<Question>): (r: seq<Question>)
    ensures |r| == |qn|
  {
    seq(|qn|, i requires 0 <= i < |qn| => ParsedQuestion(qn[i]))
  }

  /** A question parses back, with its unicast bit and the class the parser
      makes of it, exactly when its name can be followed. */
  lemma QuestionReadsBack(b: Bytes, off: nat, q: Question, comp: seq<CompEntry>)
    requires IsName(q.name) && Holds(b, off, EncodeQuestion(off, q, comp).bytes)
    ensures ParseQuestion(b, off) == Good(ParsedQuestion(q), off + |EncodeQuestion(off, q, comp).bytes|)
            <==> LinkReads(b, Link(q.name, comp))
  {
    hide NameAt, NameRead, EncodeName, U16, ReadU16, Holds, WireLength, ClassWord, ParsedClass, Copied, LinkReads, Link;
    var n := EncodeName(off, q.name, comp);
    var p := off + |n.bytes|;
    var w := ClassWord(q.rrClass, q.unicast);
    HoldsWhole(b, off, EncodeQuestion(off, q, comp).bytes);
    HoldsSplit(b, off, n.bytes, U16(q.rtype) + U16(w));
    HoldsSplit(b, p, U16(q.rtype), U16(w));
    EncodeNameReads(b, off, q.name, comp);
    NameComesBack(b, off, q.name);
    U16Reads(b, p, q.rtype);
    U16Reads(b, p + 2, w);
    FlagBit(q.rrClass, q.unicast);
  }

  lemma FlagBit(rrClass: uint16, flag: bool)
    ensures ClassWord(rrClass, flag) >= 0x8000 <==> flag
    ensures ClassWord(rrClass, flag) as int % 0x1_0000 == ClassWord(rrClass, flag)
  {
  }

  lemma QuestionParses(b: Bytes, off: nat, q: Question, comp: seq<CompEntry>)
    requires IsName(q.name) && NearSound(b, comp) && Backward(comp, off)
    requires Holds(b, off, EncodeQuestion(off, q, comp).bytes) && EncodeQuestion(off, q, comp).pointersFit
    ensures var e := EncodeQuestion(off, q, comp);
      && ParseQuestion(b, off) == Good(ParsedQuestion(q), off + |e.bytes|)
      && NearSound(b, e.comp) && Backward(e.comp, off + |e.bytes|)
  {
    hide NearSound, EncodeName, ParseQuestion, Link, LabelAt, U16, Holds, ClassWord, LinkReads;
    var n := EncodeName(off, q.name, comp);
    HoldsSplit(b, off, n.bytes, U16(q.rtype) + U16(ClassWord(q.rrClass, q.unicast)));
    EncodeNameBackward(off, q.name, comp);
    EncodeNameKeepsNear(b, off, q.name, comp);
    NearLinksRead(b, q.name, comp);
    Later(n.comp, off + |n.bytes|, off + |n.bytes| + 4);
    QuestionReadsBack(b, off, q, comp);
  }

  lemma {:induction false} QuestionsParse(b: Bytes, off: nat, qn: seq<Question>, comp: seq<CompEntry>)
    requires (forall q <- qn :: IsName(q.name)) && NearSound(b, comp) && Backward(comp, off)
    requires Holds(b, off, EncodeQuestions(off, qn, comp).bytes) && EncodeQuestions(off, qn, comp).pointersFit
    ensures var e := EncodeQuestions(off, qn, comp);
      && ParseQuestions(b, off, |qn|) == Good(ParsedQuestions(qn), off + |e.bytes|)
      && NearSound(b, e.comp) && Backward(e.comp, off + |e.bytes|)
    decreases |qn|
  {
    hide NearSound, Backward, Holds, EncodeQuestion, ParseQuestion, ParsedQuestion, IsName;
    if qn != [] {
      var first := EncodeQuestion(off, qn[0], comp);
      HoldsSplit(b, off, first.bytes, EncodeQuestions(off + |first.bytes|, qn[1..], first.comp).bytes);
      QuestionParses(b, off, qn[0], comp);
      QuestionsParse(b, off + |first.bytes|, qn[1..], first.comp);
      assert ParsedQuestions(qn) == [ParsedQuestion(qn[0])] + ParsedQuestions(qn[1..]);
    }
  }

  lemma {:induction false} QuestionsBackward(off: nat, qn: seq<Question>, comp: seq<CompEntry>)
    requires (forall q <- qn :: IsName(q.name)) && Backward(comp, off)
    ensures var e := EncodeQuestions(off, qn, comp);
      Backward(e.comp, off + |e.bytes|) && (off + |e.bytes| <= LINK_RANGE ==> e.pointersFit)
    decreases |qn|
  {
    hide EncodeName, U16, ClassWord, Backward;
    if qn != [] {
      EncodeNameBackward(off, qn[0].name, comp);
      var first := EncodeQuestion(off, qn[0], comp);
      Later(EncodeName(off, qn[0].name, comp).comp, off + |EncodeName(off, qn[0].name, comp).bytes|,
            off + |first.bytes|);
      QuestionsBackward(off + |first.bytes|, qn[1..], first.comp);
    }
  }

  /** The query round trip: questions and known answers come back in order. */
  lemma QueryRoundTrip(b: Bytes, h: Header, qn: seq<Question>, known: seq<Rr>)
    requires (forall q <- qn :: IsName(q.name)) && (forall rr <- known :: IsRr(rr))
    requires h.numQn == |qn| && h.numAns == |known| && Holds(b, 0, EncodeQuery(h, qn, known).bytes)
    requires |EncodeQuery(h, qn, known).bytes| <= 0xFFFF
    requires |EncodeQuery(h, qn, known).bytes| <= LINK_RANGE || EncodeQuery(h, qn, known).pointersFit
    ensures if forall rr <- known :: TxtFits(rr)
            then ParsePkt(b).Good? && ParsePkt(b).value == Packet(h, ParsedQuestions(qn), ParsedRrs(known), [], [])
            else ParsePkt(b) == Bad
  {
    hide Holds, ParseRrs, ParseQuestions, EncodeRrs, EncodeQuestions, TxtFits, ReadHeader, HeaderBytes, IsRr,
        NearSound, Backward, LinksRead, FarLinksRead;
    var comp := [CompEntry([], 0)];
    var q := EncodeQuestions(12, qn, comp);
    var a := EncodeRrs(12 + |q.bytes|, known, q.comp);
    NoEntries(b);
    QuestionsBackward(12, qn, comp);
    RrsBackward(12 + |q.bytes|, known, q.comp);
    HoldsWhole(b, 0, EncodeQuery(h, qn, known).bytes);
    HoldsSplit(b, 0, HeaderBytes(h), q.bytes + a.bytes);
    HoldsSplit(b, 12, q.bytes, a.bytes);
    HeaderReads(b, h);
    QuestionsParse(b, 12, qn, comp);
    assert known + [] == known;
    FitsNoFar(b, 12 + |q.bytes|, known, [], q.comp);
    OnlyFarLinks(b, 12 + |q.bytes|, known, [], q.comp);
    RrsReadBack(b, 12 + |q.bytes|, known, [], q.comp);
  }
}

/** The wire format (tinysvcmdns.c; section 4.1 of RFC 1035): what stands where in
    an encoded packet, byte by byte, and what the parser takes from where. */
module DnsLayout {
  import opened Arith
  import opened DnsName
  import opened DnsPacket
  import opened DnsReadBack
  import opened Wrappers

  // ----- Words -----

  lemma WordAt(b: Bytes, p: nat, v: int)
    requires Holds(b, p, U16(v))
    ensures p + 2 <= |b| && b[p] as int * 256 + b[p + 1] == v % 0x1_0000
  {
    U16Reads(b, p, v);
  }

  lemma LongAt(b: Bytes, p: nat, v: uint32)
    requires Holds(b, p, U32(v))
    ensures p + 4 <= |b|
    ensures ((b[p] as int * 256 + b[p + 1]) * 256 + b[p + 2]) * 256 + b[p + 3] == v
  {
    hide U16;
    HoldsSplit(b, p, U16(v / 0x1_0000), U16(v));
    WordAt(b, p, v / 0x1_0000);
    WordAt(b, p + 2, v);
  }

  // ----- Packets -----

  /** Six words: id, flags and the four counts. */
  lemma HeaderLayout(b: Bytes, h: Header)
    requires Holds(b, 0, HeaderBytes(h))
    ensures |b| >= 12
    ensures b[0] as int * 256 + b[1] == h.id && b[2] as int * 256 + b[3] == h.flags
    ensures b[4] as int * 256 + b[5] == h.numQn && b[6] as int * 256 + b[7] == h.numAns
    ensures b[8] as int * 256 + b[9] == h.numAuth && b[10] as int * 256 + b[11] == h.numAdd
  {
    hide HeaderBytes, Holds;
    HeaderReads(b, h);
  }

  /** Records are written one after the other. */
  lemma {:induction false} RrsInOrder(off: nat, xs: seq<Rr>, ys: seq<Rr>, comp: seq<CompEntry>)
    requires forall rr <- xs + ys :: IsRr(rr)
    ensures (forall rr <- xs :: IsRr(rr)) && forall rr <- ys :: IsRr(rr)
    ensures var x := EncodeRrs(off, xs, comp);
      EncodeRrs(off, xs + ys, comp).bytes == x.bytes + EncodeRrs(off + |x.bytes|, ys, x.comp).bytes
    decreases |xs|
  {
    hide EncodeRr, IsRr;
    assert forall rr <- xs :: rr in xs + ys;
    assert forall rr <- ys :: rr in xs + ys;
    if xs == [] {
      assert xs + ys == ys;
    } else {
      var first := EncodeRr(off, xs[0], comp);
      assert (xs + ys)[0] == xs[0] && (xs + ys)[1..] == xs[1..] + ys;
      RrsInOrder(off + |first.bytes|, xs[1..], ys, first.comp);
    }
  }

  /** A reply: the header, then answers, authority and additional records. */
  lemma PacketLayout(pkt: Packet) returns (ans: Bytes, auth: Bytes, add: Bytes)
    requires forall rr <- AllRrs(pkt) :: IsRr(rr)
    ensures forall rr <- pkt.ans + pkt.auth + pkt.add :: IsRr(rr)
    ensures EncodePkt(pkt).bytes == HeaderBytes(pkt.header) + ans + auth + add
    ensures var a := EncodeRrs(12, pkt.ans, [CompEntry([], 0)]);
      var b := EncodeRrs(12 + |a.bytes|, pkt.auth, a.comp);
      ans == a.bytes && auth == b.bytes && add == EncodeRrs(12 + |a.bytes| + |b.bytes|, pkt.add, b.comp).bytes
  {
    hide EncodeRrs, IsRr, HeaderBytes;
    var comp := [CompEntry([], 0)];
    assert forall rr <- pkt.ans + pkt.auth + pkt.add :: rr in AllRrs(pkt);
    RrsInOrder(12, pkt.ans, pkt.auth + pkt.add, comp);
    var a := EncodeRrs(12, pkt.ans, comp);
    RrsInOrder(12 + |a.bytes|, pkt.auth, pkt.add, a.comp);
    var b := EncodeRrs(12 + |a.bytes|, pkt.auth, a.comp);
    ans, auth, add := a.bytes, b.bytes, EncodeRrs(12 + |a.bytes| + |b.bytes|, pkt.add, b.comp).bytes;
    Regroup(HeaderBytes(pkt.header), ans, auth, add);
  }

  // ----- Records -----

  function TypeNumber(d: Data): int {
    match d
    case A(_) => 1
    case Ptr(_) => 12
    case Txt(_) => 16
    case Aaaa(_) => 28
    case Srv(_, _, _, _) => 33
    case Nsec(_) => 47
    case Skipped(t) => t
  }

  /** The fields of a record behind its name: type, class with the flush bit on
      top, lifetime, data length, data. */
  lemma RrLayout(b: Bytes, off: nat, rr: Rr, comp: seq<CompEntry>) returns (p: nat)
    requires IsRr(rr) && Holds(b, off, EncodeRr(off, rr, comp).bytes) && |EncodeRr(off, rr, comp).bytes| <= 0xFFFF
    ensures p == off + WireLength(b, off) && p + 10 <= |b|
    ensures b[p] as int * 256 + b[p + 1] == TypeNumber(rr.data)
    ensures (b[p + 2] >= 128 <==> rr.cacheFlush) && (b[p + 2] as int * 256 + b[p + 3]) % 0x8000 == rr.rrClass % 0x8000
    ensures ((b[p + 4] as int * 256 + b[p + 5]) * 256 + b[p + 6]) * 256 + b[p + 7] == rr.ttl
    ensures var d := EncodeData(p + 10, rr, EncodeName(off, rr.name, comp).comp).bytes;
      && b[p + 8] as int * 256 + b[p + 9] == |d| && Holds(b, p + 10, d)
      && off + |EncodeRr(off, rr, comp).bytes| == p + 10 + |d|
  {
    hide U16, EncodeName, EncodeData, Holds, FixedPart, WireLength, TypeNumber, LinkReads, Link, NameAt;
    NameOf(rr);
    var n := EncodeName(off, rr.name, comp);
    p := off + |n.bytes|;
    var d := EncodeData(p + 10, rr, n.comp).bytes;
    HoldsSplit(b, off, n.bytes, FixedPart(rr) + (U16(|d|) + d));
    HoldsSplit(b, p, FixedPart(rr), U16(|d|) + d);
    HoldsSplit(b, p + 8, U16(|d|), d);
    EncodeNameReads(b, off, rr.name, comp);
    FixedLayout(b, p, rr);
    WordAt(b, p + 8, |d|);
  }

  lemma FixedLayout(b: Bytes, p: nat, rr: Rr)
    requires Holds(b, p, FixedPart(rr))
    ensures p + 8 <= |b| && b[p] as int * 256 + b[p + 1] == TypeNumber(rr.data)
    ensures (b[p + 2] >= 128 <==> rr.cacheFlush) && (b[p + 2] as int * 256 + b[p + 3]) % 0x8000 == rr.rrClass % 0x8000
    ensures ((b[p + 4] as int * 256 + b[p + 5]) * 256 + b[p + 6]) * 256 + b[p + 7] == rr.ttl
  {
    hide U16, U32, Holds, ClassWord, TypeOf, TypeNumber;
    var w := ClassWord(rr.rrClass, rr.cacheFlush);
    HoldsSplit(b, p, U16(TypeOf(rr.data)), U16(w) + U32(rr.ttl));
    HoldsSplit(b, p + 2, U16(w), U32(rr.ttl));
    WordAt(b, p, TypeOf(rr.data));
    WordAt(b, p + 2, w);
    LongAt(b, p + 4, rr.ttl);
    TypeNumbers(rr.data);
    ClassWordParts(rr.rrClass, rr.cacheFlush);
    TopBit(b[p + 2], b[p + 3]);
  }

  lemma TypeNumbers(d: Data)
    ensures TypeOf(d) as int == TypeNumber(d)
  {
  }

  lemma TopBit(hi: byte, lo: byte)
    ensures (hi as int * 256 + lo) / 0x100 == hi
  {
  }

  /** An address record holds its address. */
  lemma AddressLayout(b: Bytes, d: nat, rr: Rr, comp: seq<CompEntry>)
    requires IsRr(rr) && (rr.data.A? || rr.data.Aaaa?) && Holds(b, d, EncodeData(d, rr, comp).bytes)
    ensures if rr.data.A? then d + 4 <= |b| && b[d..d + 4] == rr.data.addr
            else d + 16 <= |b| && b[d..d + 16] == rr.data.addr6
  {
  }

  /** A PTR record holds its target as a name, an SRV record three words and the
      host as a name. A name reads back as far as its pointer does. */
  lemma PtrLayout(b: Bytes, d: nat, rr: Rr, comp: seq<CompEntry>)
    requires IsRr(rr) && rr.data.Ptr? && Holds(b, d, EncodeData(d, rr, comp).bytes)
    ensures NameAt(b, d, rr.data.target) <==> LinkReads(b, Link(rr.data.target, comp))
    ensures WireLength(b, d) == |EncodeData(d, rr, comp).bytes|
  {
    hide NameAt, Link, LinkReads, EncodeName;
    EncodeNameReads(b, d, rr.data.target, comp);
  }

  lemma SrvLayout(b: Bytes, d: nat, rr: Rr, comp: seq<CompEntry>)
    requires IsRr(rr) && rr.data.Srv? && Holds(b, d, EncodeData(d, rr, comp).bytes)
    ensures d + 6 <= |b| && b[d] as int * 256 + b[d + 1] == rr.data.priority
    ensures b[d + 2] as int * 256 + b[d + 3] == rr.data.weight && b[d + 4] as int * 256 + b[d + 5] == rr.data.port
    ensures NameAt(b, d + 6, rr.data.host) <==> LinkReads(b, Link(rr.data.host, comp))
    ensures 6 + WireLength(b, d + 6) == |EncodeData(d, rr, comp).bytes|
  {
    hide NameAt, Link, LinkReads, EncodeName, U16, Holds, WireLength;
    var priority, weight, port := U16(rr.data.priority), U16(rr.data.weight), U16(rr.data.port);
    var h := EncodeName(d + 6, rr.data.host, comp).bytes;
    HoldsSplit(b, d, priority, weight + (port + h));
    HoldsSplit(b, d + 2, weight, port + h);
    HoldsSplit(b, d + 4, port, h);
    WordAt(b, d, rr.data.priority);
    WordAt(b, d + 2, rr.data.weight);
    WordAt(b, d + 4, rr.data.port);
    EncodeNameReads(b, d + 6, rr.data.host, comp);
  }

  /** An NSEC record: its own name, window 0, five bytes of bitmap. */
  lemma NsecLayout(b: Bytes, d: nat, rr: Rr, comp: seq<CompEntry>) returns (q: nat)
    requires IsRr(rr) && rr.data.Nsec? && Holds(b, d, EncodeData(d, rr, comp).bytes)
    ensures NameAt(b, d, rr.name) <==> LinkReads(b, Link(rr.name, comp))
    ensures q == d + WireLength(b, d) && q + 7 <= |b| && d + |EncodeData(d, rr, comp).bytes| == q + 7
    ensures b[q] == 0 && b[q + 1] == 5 && b[q + 2..q + 7] == rr.data.bitmap
  {
    hide NameAt, Link, LinkReads, EncodeName, WireLength;
    var n := EncodeName(d, rr.name, comp).bytes;
    var window: Bytes := [0, NSEC_BITMAP as byte];
    q := d + |n|;
    HoldsSplit(b, d, n, window + rr.data.bitmap);
    HoldsSplit(b, q, window, rr.data.bitmap);
    EncodeNameReads(b, d, rr.name, comp);
    assert b[q] == b[q..q + 2][0] && b[q + 1] == b[q..q + 2][1];
  }

  /** A TXT record: each string behind its length. */
  lemma TxtLayout(b: Bytes, p: nat, ss: seq<Bytes>)
    requires ss != [] && (forall s <- ss :: |s| <= 63) && Holds(b, p, TxtBytes(ss))
    ensures p + 1 + |ss[0]| <= |b| && b[p] as int == |ss[0]| && b[p + 1..p + 1 + |ss[0]|] == ss[0]
    ensures Holds(b, p + 1 + |ss[0]|, TxtBytes(ss[1..]))
  {
    hide Holds, TxtBytes;
    var first := [|ss[0]| as byte] + ss[0];
    TxtUnfold(ss);
    HoldsSplit(b, p, first, TxtBytes(ss[1..]));
    HoldsSplit(b, p, [|ss[0]| as byte], ss[0]);
    HoldsWhole(b, p + 1, ss[0]);
    FirstByte(b, p, [|ss[0]| as byte]);
  }

  /** What the parser refuses of a record's strings: exactly those of 63 bytes. */
  lemma TxtFitsMeaning(rr: Rr)
    requires IsRr(rr)
    ensures TxtFits(rr) <==> (rr.data.Txt? ==> forall s <- rr.data.strings :: |s| != 63)
  {
  }

  // ----- The parser's view -----

  /** What a parsed record takes from where, in any packet. */
  lemma ParsedRrLayout(b: Bytes, off: nat) returns (n: Name, p: nat)
    requires ParseRr(b, off).Good?
    ensures NameAt(b, off, n) && p == off + WireLength(b, off) && p + 10 <= |b|
    ensures var rr := ParseRr(b, off).value;
      && rr.name == Copied(n)
      && TypeNumber(rr.data) == b[p] as int * 256 + b[p + 1]
      && (rr.cacheFlush <==> b[p + 2] >= 128)
      && rr.rrClass == (b[p + 2] as int * 256 + b[p + 3]) - (if b[p + 3] >= 128 then 128 else 0)
      && rr.ttl == ((b[p + 4] as int * 256 + b[p + 5]) * 256 + b[p + 6]) * 256 + b[p + 7]
      && p + 10 + (b[p + 8] as int * 256 + b[p + 9]) <= |b|
  {
    hide Copied, NameAt, WireLength, ParseTxt, NameRead, ParsedClass;
    n := NameRead(b, off).value;
    p := off + WireLength(b, off);
    ReadIsAt(b, off);
    ClearedBit(b[p + 2], b[p + 3]);
  }

  lemma ClearedBit(hi: byte, lo: byte)
    ensures var w := hi as int * 256 + lo;
      && (w >= 0x8000 <==> hi >= 128) && ParsedClass(w) == w - if lo >= 128 then 128 else 0
  {
  }

  /** What the data of a record must be: at least four or sixteen bytes for an
      address, of which the rest is not skipped; a name inside the packet for a
      PTR record; strings for TXT; anything for the types that are skipped. */
  lemma ParsedDataLayout(b: Bytes, d: nat, len: nat, rtype: uint16)
    requires d + len <= |b|
    ensures var r := ParseData(b, d, len, rtype);
      if rtype == 1 then r == if len < 4 then Bad else Good(A(b[d..d + 4]), d + 4)
      else if rtype == 28 then r == if len < 16 then Bad else Good(Aaaa(b[d..d + 16]), d + 16)
      else if rtype == 12 then
        && (r == Bad <==> d >= |b|)
        && (r.Good? ==> exists n :: NameAt(b, d, n) && r == Good(Ptr(Copied(n)), d + len))
        && (d < |b| && r == Undefined ==> forall n :: !NameAt(b, d, n))
      else if rtype == 16 then
        if len == 0 then r == Good(Txt([[]]), d)
        else r.Good? == ParseTxt(b, d, d + len).Good?
             && (r.Good? ==> r == Good(Txt(ParseTxt(b, d, d + len).value), ParseTxt(b, d, d + len).end))
      else r == Good(Skipped(rtype), d + len)
  {
    hide Copied, NameAt, ParseTxt, NameRead;
    if rtype == 12 && d < |b| {
      NameReadMeaning(b, d);
    }
  }

  lemma NameReadMeaning(b: Bytes, d: nat)
    ensures NameRead(b, d).Some? ==> NameAt(b, d, NameRead(b, d).value)
    ensures NameRead(b, d).None? ==> forall n :: !NameAt(b, d, n)
  {
    hide NameAt;
  }

  /** One string of a TXT record: its length, at most 62, its bytes as a C string,
      and the next one unless the data ends. */
  lemma ParsedTxtLayout(b: Bytes, p: nat, e: nat)
    requires p < e <= |b|
    ensures var n, r := b[p] as nat, ParseTxt(b, p, e);
      if n > 62 || p + 1 + n > |b| then r == Bad
      else
        var s := StrnCopy(b[p + 1..p + 1 + n]);
        if p + 1 + n >= e then r == Good([s], p + 1 + n)
        else
          var rest := ParseTxt(b, p + 1 + n, e);
          && (rest.Good? ==> r == Good([s] + rest.value, rest.end))
          && (!rest.Good? ==> r == rest)
  {
    hide StrnCopy;
  }

  /** And a parsed question. */
  lemma ParsedQuestionLayout(b: Bytes, off: nat) returns (n: Name, p: nat)
    requires ParseQuestion(b, off).Good?
    ensures NameAt(b, off, n) && p == off + WireLength(b, off) && p + 4 <= |b|
    ensures var q := ParseQuestion(b, off).value;
      && ParseQuestion(b, off).end == p + 4 && q.name == Copied(n)
      && q.rtype == b[p] as int * 256 + b[p + 1] && (q.unicast <==> b[p + 2] >= 128)
      && q.rrClass == (b[p + 2] as int * 256 + b[p + 3]) - (if b[p + 3] >= 128 then 128 else 0)
  {
    hide Copied, NameAt, WireLength, NameRead, ParsedClass;
    n := NameRead(b, off).value;
    p := off + WireLength(b, off);
    ReadIsAt(b, off);
    ClearedBit(b[p + 2], b[p + 3]);
  }

  /** And a parsed packet: the header words, as many questions and answers as they say. */
  lemma ParsedPktLayout(b: Bytes)
    requires ParsePkt(b).Good?
    ensures |b| >= 12
    ensures var pkt := ParsePkt(b).value;
      && pkt.header.id == b[0] as int * 256 + b[1] && pkt.header.flags == b[2] as int * 256 + b[3]
      && |pkt.qn| == pkt.header.numQn == b[4] as int * 256 + b[5]
      && |pkt.ans| == pkt.header.numAns == b[6] as int * 256 + b[7]
      && ParseQuestions(b, 12, |pkt.qn|).Good? && ParseQuestions(b, 12, |pkt.qn|).value == pkt.qn
      && ParseRrs(b, ParseQuestions(b, 12, |pkt.qn|).end, |pkt.ans|).Good?
      && ParseRrs(b, ParseQuestions(b, 12, |pkt.qn|).end, |pkt.ans|).value == pkt.ans
  {
    hide ParseQuestions, ParseRrs;
    var h := ReadHeader(b);
    QuestionCount(b, 12, h.numQn);
    RrCount(b, ParseQuestions(b, 12, h.numQn).end, h.numAns);
  }

  lemma {:induction false} QuestionCount(b: Bytes, off: nat, n: nat)
    ensures ParseQuestions(b, off, n).Good? ==> |ParseQuestions(b, off, n).value| == n
    decreases n
  {
    hide ParseQuestion;
    if n > 0 && ParseQuestion(b, off).Good? {
      QuestionCount(b, ParseQuestion(b, off).end, n - 1);
    }
  }

  lemma {:induction false} RrCount(b: Bytes, off: nat, n: nat)
    ensures ParseRrs(b, off, n).Good? ==> |ParseRrs(b, off, n).value| == n
    decreases n
  {
    hide ParseRr;
    if n > 0 && ParseRr(b, off).Good? {
      RrCount(b, ParseRr(b, off).end, n - 1);
    }
  }
}

/** Domain names and their compressed form (tinysvcmdns.c; section 4.1.4 of RFC 1035). */
module DnsName {
  import opened Arith
  import opened Wrappers

  const LINK_TAG := 0xC0
  const LINK_RANGE := 0x4000

  type Bytes = seq<byte>

  /** An uncompressed name without its final zero: length byte and text of each
      label in turn. */
  type Name = Bytes

  /** The length of the first label, length byte included. */
  function Seg(name: Name): nat
    requires name != []
  {
    name[0] as nat + 1
  }

  predicate IsName(name: Name) {
    name == [] || (1 <= name[0] <= 63 && Seg(name) <= |name| && 0 !in name[..Seg(name)] && IsName(name[Seg(name)..]))
  }

  /** bytes is what the buffer holds from position off. */
  predicate Holds(b: Bytes, off: nat, bytes: Bytes) {
    off + |bytes| <= |b| && b[off..off + |bytes|] == bytes
  }

  lemma HoldsSplit(b: Bytes, off: nat, x: Bytes, y: Bytes)
    requires Holds(b, off, x + y)
    ensures Holds(b, off, x) && Holds(b, off + |x|, y)
  {
    var e := x + y;
    assert x == e[..|x|] && y == e[|x|..];
    assert b[off..off + |x|] == b[off..off + |e|][..|x|];
    assert b[off + |x|..off + |x| + |y|] == b[off..off + |e|][|x|..];
  }

  // ----- Reading -----

  function Target(b: Bytes, p: nat): nat
    requires p + 1 < |b| && b[p] >= LINK_TAG
  {
    (b[p] as nat - LINK_TAG) * 256 + b[p + 1]
  }

  /** A label of b at p begins the name, and what follows continues it. */
  predicate LabelAt(b: Bytes, p: nat, name: Name)
    decreases |name|, 0
  {
    && name != [] && Seg(name) <= |name|
    && Holds(b, p, name[..Seg(name)])
    && NameAt(b, p + Seg(name), name[Seg(name)..])
  }

  /** The walk of uncompress_nlabel over b from p reads this name: a label in
      place, or the label a pointer leads to, and on from behind that label. */
  predicate NameAt(b: Bytes, p: nat, name: Name)
    decreases |name|, 1
  {
    && p < |b|
    && if b[p] == 0 then name == []
       else if b[p] >= LINK_TAG then p + 1 < |b| && LabelAt(b, Target(b, p), name)
       else LabelAt(b, p, name)
  }

  /** A buffer position reads as one name at most. */
  lemma {:induction false} NameAtUnique(b: Bytes, p: nat, m: Name, n: Name)
    requires NameAt(b, p, m) && NameAt(b, p, n)
    ensures m == n
    decreases |m|
  {
    if b[p] != 0 {
      var t := if b[p] >= LINK_TAG then Target(b, p) else p;
      assert m[0] == m[..Seg(m)][0] == b[t] && n[0] == n[..Seg(n)][0] == b[t];
      NameAtUnique(b, t + Seg(m), m[Seg(m)..], n[Seg(n)..]);
      assert m == m[..Seg(m)] + m[Seg(m)..] && n == n[..Seg(n)] + n[Seg(n)..];
    }
  }

  /** label_len: the length of the name as it stands, pointers not followed. */
  function WireLength(b: Bytes, p: nat): nat
    decreases |b| - p
  {
    if p >= |b| then 0
    else if b[p] == 0 then 1
    else if b[p] >= LINK_TAG then 2
    else b[p] as nat + 1 + WireLength(b, p + b[p] as nat + 1)
  }

  method LabelLen(buf: Bytes, off: nat) returns (len: nat)
    ensures len == WireLength(buf, off)
  {
    var p := off;
    len := 0;
    while p < |buf|
      invariant len + WireLength(buf, p) == WireLength(buf, off)
      decreases |buf| - p
    {
      if buf[p] == 0 {
        return len + 1;
      } else if buf[p] >= LINK_TAG {
        return len + 2;
      }
      len := len + buf[p] as nat + 1;
      p := p + buf[p] as nat + 1;
    }
  }

  /** strncpy of the whole of s: zeros from the first zero on. */
  function StrnCopy(s: Bytes): (r: Bytes)
    ensures |r| == |s|
    ensures 0 !in s ==> r == s
  {
    if s == [] then []
    else if s[0] == 0 then seq(|s|, _ => 0 as byte)
    else
      assert s == [s[0]] + s[1..];
      [s[0]] + StrnCopy(s[1..])
  }

  /** A name copied label by label with strncpy. */
  function Copied(name: Name): (r: Name)
    ensures |r| == |name|
    decreases |name|
  {
    if name == [] || Seg(name) > |name| then name else StrnCopy(name[..Seg(name)]) + Copied(name[Seg(name)..])
  }

  lemma CopiedStep(name: Name)
    ensures name == [] ==> Copied(name) == []
    ensures name != [] && Seg(name) <= |name|
        ==> Copied(name) == StrnCopy(name[..Seg(name)]) + Copied(name[Seg(name)..])
  {
    hide StrnCopy;
  }

  /** A name without zeros in its labels is copied as it is. */
  lemma {:induction false} CopiedExact(name: Name)
    requires IsName(name)
    ensures Copied(name) == name
    decreases |name|
  {
    hide StrnCopy;
    if name != [] {
      CopiedExact(name[Seg(name)..]);
      assert name == name[..Seg(name)] + name[Seg(name)..];
    }
  }

  /** And what is copied without a zero was there without one. */
  lemma {:induction false} CopiedBack(name: Name)
    requires 0 !in Copied(name)
    ensures Copied(name) == name
    decreases |name|
  {
    hide StrnCopy, Copied;
    if name != [] && Seg(name) <= |name| {
      var head, tail := name[..Seg(name)], name[Seg(name)..];
      CopiedStep(name);
      AbsentInParts(StrnCopy(head), Copied(tail), 0);
      StrnCopyBack(head);
      CopiedBack(tail);
      assert name == head + tail;
    } else {
      CopiedRest(name);
    }
  }

  lemma CopiedRest(name: Name)
    requires name == [] || Seg(name) > |name|
    ensures Copied(name) == name
  {
  }

  lemma AbsentInParts(x: Bytes, y: Bytes, v: byte)
    requires v !in x + y
    ensures v !in x && v !in y
  {
    assert forall i :: 0 <= i < |x| ==> x[i] == (x + y)[i];
    assert forall i :: 0 <= i < |y| ==> y[i] == (x + y)[|x| + i];
  }

  lemma {:induction false} StrnCopyBack(s: Bytes)
    requires 0 !in StrnCopy(s)
    ensures StrnCopy(s) == s
  {
    if s != [] {
      assert s == [s[0]] + s[1..];
      assert StrnCopy(s)[0] in StrnCopy(s);
      StrnCopyBack(s[1..]);
    }
  }

  lemma {:induction false} NoZeros(name: Name)
    requires IsName(name)
    ensures 0 !in name
    decreases |name|
  {
    if name != [] {
      NoZeros(name[Seg(name)..]);
      assert name == name[..Seg(name)] + name[Seg(name)..];
    }
  }

  /** One step of the walk: where the next label stands. */
  method LabelPosition(buf: Bytes, p: nat, ghost rest: Name) returns (q: nat)
    requires NameAt(buf, p, rest) && buf[p] != 0
    ensures q < |buf| && rest != [] && Seg(rest) == buf[q] as nat + 1 && Seg(rest) <= |rest|
    ensures q + Seg(rest) <= |buf| && buf[q..q + Seg(rest)] == rest[..Seg(rest)]
    ensures NameAt(buf, q + Seg(rest), rest[Seg(rest)..])
  {
    q := p;
    if buf[p] >= LINK_TAG {
      q := Target(buf, p);
    }
    assert rest[0] == rest[..Seg(rest)][0];
  }

  method CopyLabel(copied: Bytes, str: array<byte>, sp: nat)
    requires sp + |copied| <= str.Length
    modifies str
    ensures str[..sp + |copied|] == old(str[..sp]) + copied
  {
    forall i | 0 <= i < |copied| {
      str[sp + i] := copied[i];
    }
  }

  /** The first pass: the length of the name. */
  method Measure(buf: Bytes, off: nat, ghost name: Name) returns (len: nat)
    requires NameAt(buf, off, name)
    ensures len == |name|
  {
    hide LabelAt, IsName;
    var p: nat := off;
    ghost var rest := name;
    len := 0;
    while buf[p] != 0
      invariant p < |buf| && NameAt(buf, p, rest)
      invariant len + |rest| == |name|
      decreases |rest|
    {
      var q := LabelPosition(buf, p, rest);
      var llen := buf[q] as nat + 1;
      rest, p, len := rest[llen..], q + llen, len + llen;
    }
  }

  /** None when off is outside the packet. The ghost name witnesses that the
      packet is well-formed there: without one the walk need not end. */
  method UncompressNlabel(buf: Bytes, off: nat, ghost name: Name) returns (r: Option<Name>)
    requires off < |buf| ==> NameAt(buf, off, name)
    ensures r == if off < |buf| then Some(Copied(name)) else None
  {
    hide LabelAt, IsName, StrnCopy, Copied;
    if off >= |buf| {
      return None;
    }
    var len := Measure(buf, off, name);
    var str := new byte[len];
    var p: nat, sp := off, 0;
    ghost var rest := name;
    while buf[p] != 0
      invariant p < |buf| && NameAt(buf, p, rest)
      invariant sp + |rest| == len == str.Length == |name|
      invariant Copied(name) == str[..sp] + Copied(rest)
      decreases |rest|
    {
      var q := LabelPosition(buf, p, rest);
      var llen := buf[q] as nat + 1;
      ghost var done, tail := str[..sp], Copied(rest[llen..]);
      CopiedStep(rest);
      var copied := StrnCopy(buf[q..q + llen]);
      CopyLabel(copied, str, sp);
      assert done + (copied + tail) == done + copied + tail;
      rest, p, sp := rest[llen..], q + llen, sp + llen;
    }
    CopiedStep(rest);
    assert str[..] == str[..sp] == str[..sp] + [];
    return Some(str[..]);
  }

  // ----- Writing -----

  datatype CompEntry = CompEntry(name: Name, pos: nat)

  /** The position of the first entry for the name. */
  function Find(comp: seq<CompEntry>, name: Name): Option<nat> {
    if comp == [] then None
    else if comp[0].name == name then Some(comp[0].pos)
    else Find(comp[1..], name)
  }

  /** 0xC000 | (pos & ~0xC000), in two bytes. */
  function PointerTo(pos: nat): (r: Bytes)
    ensures |r| == 2
  {
    [(LINK_TAG + pos % LINK_RANGE / 256) as byte, (pos % 256) as byte]
  }

  /** A pointer is a 16-bit word with its two high bits set and 14 bits of the
      position: it leads back to the position exactly for positions below 0x4000. */
  lemma PointerExact(b: Bytes, p: nat, pos: nat)
    requires Holds(b, p, PointerTo(pos))
    ensures p + 1 < |b| && b[p] as nat * 256 + b[p + 1] == 0xC000 + pos % 0x4000
    ensures b[p] >= LINK_TAG && Target(b, p) == pos % LINK_RANGE
    ensures Target(b, p) == pos <==> pos < LINK_RANGE
  {
    assert b[p] == b[p..p + 2][0] && b[p + 1] == b[p..p + 2][1];
    TwoBytes(pos);
  }

  lemma TwoBytes(pos: nat)
    ensures pos % LINK_RANGE / 256 * 256 + pos % 256 == pos % LINK_RANGE
    ensures pos % LINK_RANGE == pos <==> pos < LINK_RANGE
  {
    var q, r := pos / LINK_RANGE, pos % LINK_RANGE;
    assert pos == 64 * q * 256 + r;
    DivMod(64 * q + r / 256, 256, r % 256);
  }

  datatype Encoded = Encoded(bytes: Bytes, comp: seq<CompEntry>, pointersFit: bool)

  /** mdns_encode_name at offset off; pointersFit says whether the pointer it
      ends with, if any, can express its position. */
  function EncodeName(off: nat, name: Name, comp: seq<CompEntry>): (e: Encoded)
    requires IsName(name)
    ensures e.bytes != [] && |e.bytes| <= |name| + 2
    decreases |name|
  {
    if name == [] then Encoded([0], comp, true)
    else
      match Find(comp, name)
      case Some(pos) => Encoded(PointerTo(pos), comp, pos < LINK_RANGE)
      case None =>
        var rest := EncodeName(off + Seg(name), name[Seg(name)..], comp + [CompEntry(name, off)]);
        Encoded(name[..Seg(name)] + rest.bytes, rest.comp, rest.pointersFit)
  }

  /** Every entry of the list leads to a real label that reads as the entry's name. */
  predicate CompSound(b: Bytes, comp: seq<CompEntry>) {
    forall e <- comp :: e.name == [] || LabelAt(b, e.pos, e.name)
  }

  /** Entries of the name being written are longer than what is left of it, so
      a suffix never matches one of them. */
  lemma {:induction false} FindSkipsLonger(comp: seq<CompEntry>, own: seq<CompEntry>, name: Name)
    requires forall e <- own :: |e.name| > |name|
    ensures Find(comp + own, name) == Find(comp, name)
  {
    if comp != [] {
      assert (comp + own)[1..] == comp[1..] + own;
      FindSkipsLonger(comp[1..], own, name);
    } else if own != [] {
      assert comp + own == own;
      assert own[0] in own;
      assert own[1..] == comp + own[1..];
      FindSkipsLonger(comp, own[1..], name);
    }
  }

  lemma {:induction false} FindIsEntry(comp: seq<CompEntry>, name: Name)
    ensures Find(comp, name).Some? ==> CompEntry(name, Find(comp, name).value) in comp
  {
    if comp != [] && comp[0].name != name {
      FindIsEntry(comp[1..], name);
    } else if comp != [] {
      assert comp[0] in comp;
    }
  }

  lemma RootReads(b: Bytes, off: nat)
    requires Holds(b, off, [0])
    ensures NameAt(b, off, []) && WireLength(b, off) == 1
  {
    assert b[off] == b[off..off + 1][0];
  }

  lemma FirstByte(b: Bytes, off: nat, bytes: Bytes)
    requires Holds(b, off, bytes) && bytes != []
    ensures off < |b| && b[off] == bytes[0]
  {
    assert b[off] == b[off..off + |bytes|][0];
  }

  lemma NameParts(name: Name)
    requires IsName(name) && name != []
    ensures 1 <= name[0] <= 63 && Seg(name) <= |name| && IsName(name[Seg(name)..])
    ensures |name[..Seg(name)]| == Seg(name) && name[..Seg(name)][0] == name[0]
  {
  }

  // ----- Where pointers lead -----

  /** Every entry lies before off. */
  predicate Backward(comp: seq<CompEntry>, off: nat) {
    forall e <- comp :: e.pos < off
  }

  /** The entry that a written name ends in a pointer to: the longest suffix of
      the name that is in the list, at its first position. */
  function Link(name: Name, comp: seq<CompEntry>): (r: Option<CompEntry>)
    requires IsName(name)
    ensures r.Some? ==> r.value in comp && r.value.name != [] && IsName(r.value.name)
    decreases |name|
  {
    if name == [] then None
    else
      match Find(comp, name)
      case Some(pos) => FindIsEntry(comp, name); Some(CompEntry(name, pos))
      case None => Link(name[Seg(name)..], comp)
  }

  /** The position that is left of a pointer's target reads as its name. */
  predicate LinkReads(b: Bytes, link: Option<CompEntry>) {
    link.Some? ==> LabelAt(b, link.value.pos % LINK_RANGE, link.value.name)
  }

  /** Pointers go strictly backward, entries stay before the end of what is
      written, and below 0x4000 every pointer fits. */
  lemma EncodeNameBackward(off: nat, name: Name, comp: seq<CompEntry>)
    requires IsName(name) && Backward(comp, off)
    ensures Link(name, comp).Some? ==> Link(name, comp).value.pos < off
    ensures var e := EncodeName(off, name, comp);
      && Backward(e.comp, off + |e.bytes|)
      && (e.pointersFit <==> Link(name, comp).Some? ==> Link(name, comp).value.pos < LINK_RANGE)
      && (off <= LINK_RANGE ==> e.pointersFit)
  {
    assert comp + [] == comp;
    EncodeNameLinks(off, name, comp, []);
  }

  lemma {:induction false} EncodeNameExtends(off: nat, name: Name, comp: seq<CompEntry>)
    requires IsName(name)
    ensures var e := EncodeName(off, name, comp);
      comp <= e.comp && forall x <- e.comp[|comp|..] :: off <= x.pos
    decreases |name|
  {
    hide IsName, Find;
    if name != [] && Find(comp, name).None? {
      NameParts(name);
      var entry := CompEntry(name, off);
      var more := EncodeName(off + Seg(name), name[Seg(name)..], comp + [entry]).comp;
      EncodeNameExtends(off + Seg(name), name[Seg(name)..], comp + [entry]);
      assert more[|comp|] == (comp + [entry])[|comp|];
      assert more[|comp|..] == [entry] + more[|comp + [entry]|..];
    }
  }

  lemma {:induction false} EncodeNameLinks(off: nat, name: Name, comp: seq<CompEntry>, own: seq<CompEntry>)
    requires IsName(name) && forall e <- own :: |e.name| > |name|
    ensures var e := EncodeName(off, name, comp + own);
      && (Backward(comp + own, off) ==> Backward(e.comp, off + |e.bytes|))
      && (e.pointersFit <==> Link(name, comp).Some? ==> Link(name, comp).value.pos < LINK_RANGE)
    decreases |name|
  {
    hide IsName;
    if name != [] {
      FindSkipsLonger(comp, own, name);
      if Find(comp, name).None? {
        NameParts(name);
        var own' := own + [CompEntry(name, off)];
        assert comp + own + [CompEntry(name, off)] == comp + own';
        EncodeNameLinks(off + Seg(name), name[Seg(name)..], comp, own');
      }
    }
  }

  /** When a written name reads back, in any buffer that ends up holding its
      bytes: exactly if there is no pointer, or if the position that the
      pointer keeps of its target reads as the rest of the name. Its length in
      place is always the length written. */
  lemma EncodeNameReads(b: Bytes, off: nat, name: Name, comp: seq<CompEntry>)
    requires IsName(name) && Holds(b, off, EncodeName(off, name, comp).bytes)
    ensures NameAt(b, off, name) <==> LinkReads(b, Link(name, comp))
    ensures WireLength(b, off) == |EncodeName(off, name, comp).bytes|
  {
    assert comp + [] == comp;
    EncodedReads(b, off, name, comp, []);
  }

  lemma {:induction false} EncodedReads(b: Bytes, off: nat, name: Name, comp: seq<CompEntry>, own: seq<CompEntry>)
    requires IsName(name) && Holds(b, off, EncodeName(off, name, comp + own).bytes)
    requires forall e <- own :: |e.name| > |name|
    ensures NameAt(b, off, name) <==> LinkReads(b, Link(name, comp))
    ensures WireLength(b, off) == |EncodeName(off, name, comp + own).bytes|
    decreases |name|
  {
    hide IsName, NameAt, LabelAt, Holds;
    if name == [] {
      RootReads(b, off);
    } else {
      FindSkipsLonger(comp, own, name);
      match Find(comp, name)
      case Some(pos) => FarPointerReads(b, off, pos, name);
      case None =>
        NameParts(name);
        var seg, tail := name[..Seg(name)], name[Seg(name)..];
        var own' := own + [CompEntry(name, off)];
        assert comp + own + [CompEntry(name, off)] == comp + own';
        HoldsSplit(b, off, seg, EncodeName(off + Seg(name), tail, comp + own').bytes);
        EncodedReads(b, off + Seg(name), tail, comp, own');
        SegmentReads(b, off, name);
    }
  }

  lemma FarPointerReads(b: Bytes, off: nat, pos: nat, name: Name)
    requires name != [] && Holds(b, off, PointerTo(pos))
    ensures NameAt(b, off, name) <==> LabelAt(b, pos % LINK_RANGE, name)
    ensures WireLength(b, off) == 2
  {
    hide PointerTo, LabelAt;
    PointerExact(b, off, pos);
  }

  lemma SegmentReads(b: Bytes, off: nat, name: Name)
    requires name != [] && 1 <= name[0] <= 63 && Seg(name) <= |name| && Holds(b, off, name[..Seg(name)])
    ensures NameAt(b, off, name) <==> NameAt(b, off + Seg(name), name[Seg(name)..])
    ensures WireLength(b, off) == Seg(name) + WireLength(b, off + Seg(name))
  {
    FirstByte(b, off, name[..Seg(name)]);
  }

  /** Beyond 0x4000 the scheme breaks: a pointer to a far entry leads to what
      stands 0x4000 or more before it, and the name does not read back unless
      that happens to be the same name. */
  lemma FarEntryMisreads(b: Bytes, off: nat, name: Name, comp: seq<CompEntry>, pos: nat)
    requires IsName(name) && name != [] && Find(comp, name) == Some(pos) && pos >= LINK_RANGE
    requires Holds(b, off, EncodeName(off, name, comp).bytes)
    ensures !EncodeName(off, name, comp).pointersFit
    ensures NameAt(b, off, name) <==> LabelAt(b, pos % LINK_RANGE, name)
    ensures pos % LINK_RANGE < |b| && b[pos % LINK_RANGE] != name[0] ==> !NameAt(b, off, name)
  {
    hide NameAt, LabelAt;
    EncodeNameReads(b, off, name, comp);
    LabelByte(b, pos % LINK_RANGE, name);
  }

  // ----- The list stays sound -----

  /** A name read in place begins with a real label. */
  lemma InPlace(b: Bytes, off: nat, name: Name)
    requires name != [] && 1 <= name[0] <= 63 && Seg(name) <= |name| && Holds(b, off, name[..Seg(name)])
    requires NameAt(b, off, name)
    ensures LabelAt(b, off, name)
  {
    FirstByte(b, off, name[..Seg(name)]);
  }

  /** If the name reads back, so does every entry that writing it adds. */
  lemma {:induction false} EntriesRead(b: Bytes, off: nat, name: Name, comp: seq<CompEntry>, own: seq<CompEntry>)
    requires IsName(name) && Holds(b, off, EncodeName(off, name, comp + own).bytes)
    requires (forall e <- own :: |e.name| > |name|) && LinkReads(b, Link(name, comp))
    ensures var e := EncodeName(off, name, comp + own);
      comp + own <= e.comp && CompSound(b, e.comp[|comp + own|..])
    decreases |name|
  {
    hide IsName, NameAt, LabelAt, Holds, CompSound, LinkReads;
    if name == [] {
      NothingNew(b, comp + own);
    } else {
      FindSkipsLonger(comp, own, name);
      match Find(comp, name)
      case Some(_) => NothingNew(b, comp + own);
      case None =>
        NameParts(name);
        var seg, tail := name[..Seg(name)], name[Seg(name)..];
        var entry := CompEntry(name, off);
        var own' := own + [entry];
        assert comp + own + [entry] == comp + own';
        var rest := EncodeName(off + Seg(name), tail, comp + own');
        EncodedReads(b, off, name, comp, own);
        HoldsSplit(b, off, seg, rest.bytes);
        EntriesRead(b, off + Seg(name), tail, comp, own');
        InPlace(b, off, name);
        SoundCons(b, entry, rest.comp, comp + own);
    }
  }

  lemma NothingNew(b: Bytes, comp: seq<CompEntry>)
    ensures CompSound(b, comp[|comp|..])
  {
  }

  lemma SoundCons(b: Bytes, entry: CompEntry, all: seq<CompEntry>, older: seq<CompEntry>)
    requires LabelAt(b, entry.pos, entry.name) && older + [entry] <= all
    requires CompSound(b, all[|older + [entry]|..])
    ensures CompSound(b, all[|older|..])
  {
    assert all[|older|] == (older + [entry])[|older|];
    assert all[|older|..] == [entry] + all[|older + [entry]|..];
  }

  lemma SoundSuffix(b: Bytes, comp: seq<CompEntry>, more: seq<CompEntry>)
    requires CompSound(b, comp) && comp <= more && CompSound(b, more[|comp|..])
    ensures CompSound(b, more)
  {
    hide LabelAt;
    assert more == comp + more[|comp|..];
  }

  lemma SoundLinkReads(b: Bytes, name: Name, comp: seq<CompEntry>)
    requires IsName(name) && CompSound(b, comp)
    requires Link(name, comp).Some? ==> Link(name, comp).value.pos < LINK_RANGE
    ensures LinkReads(b, Link(name, comp))
  {
    hide LabelAt, Link;
  }

  /** Writing a finished name keeps the whole list sound. */
  lemma EncodeNameKeepsSound(b: Bytes, off: nat, name: Name, comp: seq<CompEntry>)
    requires IsName(name) && CompSound(b, comp)
    requires Holds(b, off, EncodeName(off, name, comp).bytes) && EncodeName(off, name, comp).pointersFit
    ensures NameAt(b, off, name) && WireLength(b, off) == |EncodeName(off, name, comp).bytes|
    ensures CompSound(b, EncodeName(off, name, comp).comp)
  {
    hide NameAt, CompSound, LinkReads;
    assert comp + [] == comp;
    EncodeNameLinks(off, name, comp, []);
    SoundLinkReads(b, name, comp);
    EncodeNameReads(b, off, name, comp);
    EntriesRead(b, off, name, comp, []);
    SoundSuffix(b, comp, EncodeName(off, name, comp).comp);
  }

  /** Every entry that a pointer can express leads to a real label that reads as
      the entry's name. */
  predicate NearSound(b: Bytes, comp: seq<CompEntry>) {
    forall e <- comp :: e.name != [] && e.pos < LINK_RANGE ==> LabelAt(b, e.pos, e.name)
  }

  /** That much holds of every list, also beyond 0x4000: nothing is asked of the
      entries there, and those before it have only near ones to point to. */
  lemma EncodeNameKeepsNear(b: Bytes, off: nat, name: Name, comp: seq<CompEntry>)
    requires IsName(name) && Holds(b, off, EncodeName(off, name, comp).bytes)
    requires NearSound(b, comp) && Backward(comp, off)
    ensures NearSound(b, EncodeName(off, name, comp).comp)
  {
    hide NameAt, LabelAt, EncodeName, Holds, Link;
    assert comp + [] == comp;
    var e := EncodeName(off, name, comp);
    EncodeNameExtends(off, name, comp);
    EncodeNameBackward(off, name, comp);
    if off < LINK_RANGE {
      EntriesRead(b, off, name, comp, []);
    }
    assert e.comp == comp + e.comp[|comp|..];
  }

  /** Only a far entry can fail to read. */
  predicate FarLinkReads(b: Bytes, link: Option<CompEntry>) {
    link.Some? && link.value.pos >= LINK_RANGE ==> LabelAt(b, link.value.pos % LINK_RANGE, link.value.name)
  }

  lemma NearLinksRead(b: Bytes, name: Name, comp: seq<CompEntry>)
    requires IsName(name) && NearSound(b, comp)
    ensures LinkReads(b, Link(name, comp)) <==> FarLinkReads(b, Link(name, comp))
  {
    hide LabelAt, Link;
  }

  lemma LabelByte(b: Bytes, p: nat, name: Name)
    ensures LabelAt(b, p, name) ==> p < |b| && b[p] == name[0]
  {
    if LabelAt(b, p, name) {
      FirstByte(b, p, name[..Seg(name)]);
    }
  }

  // ----- The writer in place -----

  /** The list of names written so far, with its dummy first entry. */
  class NameComp {
    var entries: seq<CompEntry>

    constructor ()
      ensures entries == [CompEntry([], 0)]
    {
      entries := [CompEntry([], 0)];
    }

    method Lookup(name: Name) returns (pos: Option<nat>)
      ensures pos == Find(entries, name)
    {
      var i := 0;
      while i < |entries|
        invariant i <= |entries| && Find(entries[i..], name) == Find(entries, name)
      {
        if entries[i].name == name {
          return Some(entries[i].pos);
        }
        assert entries[i..][1..] == entries[i + 1..];
        i := i + 1;
      }
      return None;
    }
  }

  /** The packet with the bytes written over it at off. */
  function Overwrite(pkt: Bytes, off: nat, bytes: Bytes): (r: Bytes)
    requires off + |bytes| <= |pkt|
    ensures |r| == |pkt|
  {
    pkt[..off] + bytes + pkt[off + |bytes|..]
  }

  lemma OverwriteTwice(pkt: Bytes, off: nat, x: Bytes, y: Bytes)
    requires off + |x| + |y| <= |pkt|
    ensures Overwrite(Overwrite(pkt, off, x), off + |x|, y) == Overwrite(pkt, off, x + y)
  {
  }

  method Write(pkt: array<byte>, off: nat, bytes: Bytes)
    requires off + |bytes| <= pkt.Length
    modifies pkt
    ensures pkt[..] == Overwrite(old(pkt[..]), off, bytes)
  {
    forall i | 0 <= i < |bytes| {
      pkt[off + i] := bytes[i];
    }
  }

  lemma EncodeUnfold(off: nat, name: Name, comp: seq<CompEntry>)
    requires IsName(name)
    ensures name == [] ==> EncodeName(off, name, comp) == Encoded([0], comp, true)
    ensures name != [] ==> Seg(name) <= |name| && IsName(name[Seg(name)..])
    ensures name != [] ==>
      match Find(comp, name)
      case Some(pos) => EncodeName(off, name, comp).bytes == PointerTo(pos) && EncodeName(off, name, comp).comp == comp
      case None =>
        var rest := EncodeName(off + Seg(name), name[Seg(name)..], comp + [CompEntry(name, off)]);
        && EncodeName(off, name, comp).bytes == name[..Seg(name)] + rest.bytes
        && EncodeName(off, name, comp).comp == rest.comp
  {
    hide Find, PointerTo;
  }

  method EncodeNameInto(pkt: array<byte>, off: nat, name: Name, comp: NameComp) returns (len: nat)
    requires IsName(name) && off + |EncodeName(off, name, comp.entries).bytes| <= pkt.Length
    modifies pkt, comp
    ensures len == |EncodeName(off, name, old(comp.entries)).bytes|
    ensures pkt[..] == Overwrite(old(pkt[..]), off, EncodeName(off, name, old(comp.entries)).bytes)
    ensures comp.entries == EncodeName(off, name, old(comp.entries)).comp
  {
    hide Overwrite, Find, PointerTo, EncodeName, IsName;
    ghost var before, all := pkt[..], EncodeName(off, name, comp.entries);
    ghost var written: Bytes := [];
    var rest := name;
    len := 0;
    NothingWritten(before, off);
    while rest != []
      invariant IsName(rest) && len == |written| && off + |all.bytes| <= |before| == pkt.Length
      invariant all.bytes == written + EncodeName(off + len, rest, comp.entries).bytes
      invariant all.comp == EncodeName(off + len, rest, comp.entries).comp
      invariant pkt[..] == Overwrite(before, off, written)
      decreases |rest|
    {
      EncodeUnfold(off + len, rest, comp.entries);
      var c := comp.Lookup(rest);
      if c.Some? {
        Write(pkt, off + len, PointerTo(c.value));
        OverwriteTwice(before, off, written, PointerTo(c.value));
        return len + 2;
      }
      var segment := rest[..Seg(rest)];
      ghost var tail := EncodeName(off + len + Seg(rest), rest[Seg(rest)..],
                                   comp.entries + [CompEntry(rest, off + len)]).bytes;
      assert written + (segment + tail) == written + segment + tail;
      Write(pkt, off + len, segment);
      OverwriteTwice(before, off, written, segment);
      comp.entries := comp.entries + [CompEntry(rest, off + len)];
      written, len, rest := written + segment, len + |segment|, rest[Seg(rest)..];
    }
    EncodeUnfold(off + len, rest, comp.entries);
    Write(pkt, off + len, [0]);
    OverwriteTwice(before, off, written, [0]);
    len := len + 1;
  }

  lemma NothingWritten(pkt: Bytes, off: nat)
    requires off <= |pkt|
    ensures Overwrite(pkt, off, []) == pkt
  {
  }
}

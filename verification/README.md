# Shairport in Dafny

A model of the parts of Shairport that have to be right for sound to come out:
the ALAC decoder, the jitter buffer and the sample output behind it, the mDNS
record store, responder and packet codec, and the protocol by which RTSP
connection threads share the one player. To verify: `dafny verify dfyconfig.toml`.

**ALAC decoder** (`alac.c`; modules `AlacBits`, `AlacRice`, `AlacPredictor`,
`AlacChannel`, `AlacFrame`). A bit reader that can step back, an adaptive Rice
decoder with escapes and zero runs, a sign-LMS predictor that rewrites its
coefficients with every sample, and weighted stereo interlacing. Each stage is
an in-place method proved equal to a function on the bit string; each function
is proved to undo a reference encoder. The main result is that whole frames,
stereo and mono, compressed and raw, come back sample for sample for every choice
the encoder is free to make: any weight and shift, any coefficients and
quantisation, any Rice parameters that keep the history in 32 bits. The products
and sums of the FIR filter wrap at 32 bits as in C, and the round trip does not
depend on their value. A shift `v >> n` of a negative value is the floor
quotient; `/` in Dafny with a positive divisor is the same. Leading zeros are
counted as by the portable definition, where 0 gives 32; the compiler builtin has
no value for 0, which is counted only in streams with a history multiplier or an
initial history of 0.

**mDNS codec** (`tinysvcmdns.c`; modules `DnsName`, `DnsPacket`, `DnsReadBack`,
`DnsLayout`). `DnsLayout` says which byte of a packet means what. Names are
written with backward pointers into a packet buffer that later records and length
fields go on changing; the results are stated for the buffer as it finally is.
`NameAt` is the walk of the decompressor as a relation between a buffer position
and a name; a position reads as at most one name. Three places where the code
does not do what its format promises are results here, each with its exact
condition:

- A pointer keeps 14 bits of its target. Packets of up to 0x4000 bytes are safe
  (`PacketPointersFit`); a longer one parses back exactly when each pointer to
  0x4000 or beyond that the parser follows leads, cut to 14 bits, to the rest of
  its name (`EncodeNameReads`, `PacketReadsBack`); `FarPacketMisreads` is a reply
  for which it does not.
- A TXT string of 63 bytes can be created and encoded but is refused on parsing
  (`TxtParses`, `PacketRoundTrip`).
- The parser clears bit 7 of the class where bit 15 is meant (`ClassRoundTrip`,
  `PacketReencode`).

**mDNS responder** (`tinysvcmdns.c`; modules `RecordList`, `DnsResponder`). Lists of
records are linked nodes, as in C. The grouped record index agrees with a flat
list; the answers to a query are the stored records that are asked for, without
those the querier knows; the additional records are the transitive closure of the
relation between records, although the second pass appends to the very list that
it walks. The record store is fixed while a reply is made (the code holds a lock
per lookup).

**Jitter buffer** (`player.c`, `rtp.c`; module `JitterBuffer`). The 512-slot ring
with 16-bit cursors refines a map over unbounded sequence numbers, in every run
without overrun. Decoding is a parameter: `Put` receives the decoded frame, and a
put is one step.

An overrun can end the refinement, because the restart leaves old frames ready
(module `JitterOverrun`). It survives exactly when the restart skips no accepted
number, apart from one whose slot the new packet takes (`RestartRefines`), and
all later frames are right exactly when the skipped ones were silence
(`OverrunFramesRight`). `OverrunPlaysStaleFrame` is a run that goes wrong at once;
`EdgeFills` treats start fills of zero and of the whole ring.

**Sample output** (`player.c`; module `SampleOutput`). Dither and stuffing. The
kind and the point of stuffing, which the code draws at random, are parameters.

**Player ownership** (`rtsp.c`, `rtp.c`; modules `PlayerOwnership`,
`ThreadReaper`). Connection threads and the shutdown of the program as
interleaved steps over the mutex, `playing_thread` and `running`; the table of
threads with its swap-remove reaper, where threads may finish between two looks.

Preconditions say what the C code needs from its callers to stay inside its
buffers and its defined arithmetic. On packets, `Undefined` (`DnsPacket`) and
`None` (`AlacFrame.DecodeFrame`) stand for inputs on which the C code reads outside
the packet, follows a cyclic name, overruns a frame or shifts out of range.

## Model

| member | source | states |
|---|---|---|
| AlacBits.BitReader.ReadBits16 | alac.c:139-168 | Three bytes, a shift and a mask give the next 1 to 16 bits as a big-endian number and move the position by exactly that many bits. |
| AlacBits.BitReader.ReadBits | alac.c:171-184 | The same for up to 32 bits, read in two parts. |
| AlacBits.BitReader.ReadBit | alac.c:187-205 | One bit. |
| AlacBits.BitReader.UnreadBits | alac.c:207-216 | Stepping back moves the position by exactly the bits given back, across byte boundaries. |
| AlacBits.WindowSelects | alac.c:144-156 | Why the 24-bit window arithmetic selects those bits, for every position within the first byte. |
| AlacRice.EntropyDecodeValue | alac.c:311-353 | The loop, the escape and the read-then-unread tail decode what `DecodeValue` says and stop where it says. |
| AlacRice.DecodeValueMeaning | alac.c:311-353 | Bit by bit: nine ones and a raw value, or up to eight ones, a zero and a tail of k bits, which counts from one and is one bit shorter when it would be 0 or 1; each one stands for 2^k - 1 cut to the mask. |
| AlacRice.MultiplierIsMasked | alac.c:342-343 | The multiplier is 2^k - 1 cut to the mask. |
| AlacRice.CodewordDecodes | alac.c:311-353 | Every value's codeword (q ones, a zero, a tail of k-1 or k bits; or nine ones and the raw value) decodes to that value, and the position ends exactly behind it. |
| AlacRice.CodewordsPrefixFree | alac.c:311-353 | No codeword is the beginning of another: equal streams begin with equal values. |
| AlacRice.CountLeadingZerosBrackets | alac.c:229-238 | `count_leading_zeros` brackets its argument between powers of two; 0 gives 32. |
| AlacRice.SampleK | alac.c:374-377 | The parameter of every sample lies in 1..min(16, kmodifier). |
| AlacRice.SampleKIsLogarithm | alac.c:374-377 | It is the largest k up to kmodifier with 2^k at most the scaled history. |
| AlacRice.RunK | alac.c:405 | The parameter of a zero run lies in 2..7 for every positive history at which it is computed, and is 8 for a history of zero. |
| AlacRice.RunKMeaning | alac.c:405 | It is 8 less the length of the history in bits, one more from 48 and two more from 112 on. |
| AlacRice.HistoryAverages | alac.c:391-396 | The new history is the moving average of the old one and 512 times the value, weighted 512 - m to m, in 512ths rounded up; a value beyond 16 bits sets it to 0xFFFF. |
| AlacRice.HistoryStep | alac.c:389-396 | One sample keeps the history in 0..512*0xFFFF, and, with a multiplier of at least 1, positive if it was zero only right after a zero run, so that the leading zeros of a zero are not counted; no product or sum of the update leaves 32 bits. |
| AlacRice.DecodeRound | alac.c:368-420 | Every round keeps the history in range; with a multiplier of at least 1, a history that is zero only right after a zero run, with the sign modifier set, stays so. |
| AlacRice.RoundMeaning | alac.c:374-420 | A round decodes the sample without a mask and takes its low bit as the sign; the history after it is that average, or, if the average is below 128 and samples are left, zero after a 16-bit run with the mask of the k modifier. |
| AlacRice.DecodeValueBound | alac.c:405-418 | A run length never exceeds 0xFFFF: the reset of the sign modifier at 417-418 is dead. |
| AlacRice.EntropyRiceDecode | alac.c:355-423 | The loop with its in-place zero fill writes what `RiceDecode` says and nothing beyond the frame. |
| AlacRice.RiceRoundTrip | alac.c:355-423 | Every sequence of up to 0xFFFF residuals in the sample range, from any adaptive state, decodes from the reference encoder's bits, and reading ends exactly at their end. |
| AlacPredictor.FirSumIsDotProduct | alac.c:510-519 | The filter sum with its 32-bit wrap-arounds is the plain dot product, wrapped once. |
| AlacPredictor.PredictedOfSum | alac.c:521-523 | For every sum: with the rounding half added and wrapped once it is divided by 2^quantisation, rounding down, and added to the oldest sample of the window. |
| AlacPredictor.PredictedIsNearest | alac.c:510-523 | Where nothing leaves 32 bits that is the oldest sample plus the filter sum over 2^quantisation, to the nearest integer, half up. |
| AlacPredictor.SampleMeaning | alac.c:441-526 | How a sample follows from a residual in copy, first-order, warm-up and adaptive mode: copied, or added to the previous sample or to the prediction and cut to the sample size. |
| AlacPredictor.OnlyFilterAdapts | alac.c:498-568 | The coefficients stay except behind the filter, where they adapt over the same window. |
| AlacPredictor.AdaptMovesSuffix | alac.c:528-565 | A residual moves a suffix of the coefficient table, each coefficient by one step against the sign of residual times difference, and leaves the rest. The suffix begins where the residual is used up, by the differences over 2^quantisation, each counted once per coefficient from its own on, or at the start of the table. |
| AlacPredictor.AdaptPositive | alac.c:528-546 | The loop for positive residuals, in place on the table. |
| AlacPredictor.AdaptNegative | alac.c:547-565 | The loop for negative residuals. |
| AlacPredictor.StepInverts | alac.c:453-526 | In every mode, whatever the filter predicts, decoding a sample's residual gives the sample. |
| AlacPredictor.PredictorRoundTrip | alac.c:432-570 | For all samples in range, all initial coefficients and all modes, decoding the mirrored encoder's residuals gives the samples back, with both coefficient tables equal after every step. |
| AlacPredictor.PredictorDecompressFirAdapt | alac.c:432-570 | Copy, first-order, warm-up and adaptive mode in place compute `Decode`, also when the warm-up runs past the sample count; only the adaptive mode needs a quantisation. |
| AlacFrame.UnmixMix | alac.c:590-595 | Unmixing gives both channels back for every weight and every shift, even where the mixed channel wraps at 17 bits. |
| AlacFrame.UnmixMeaning | alac.c:590-595 | Right is the middle channel less the difference times the weight over 2^shift, rounded down, and left is right plus the difference, where nothing leaves its width; without a weight the channels are left and right. |
| AlacFrame.Deinterlace16 | alac.c:572-629 | Both interlacing loops write left and right in turn, and leave the rest of the output alone. |
| AlacChannel.HistoryMultIsQuarter | alac.c:998 | The history multiplier is a quarter of the product of header and setup values, rounded down. |
| AlacChannel.ChannelLayout | alac.c:954-978 | Where the fields of a channel header stand, with coefficients in two's complement. |
| AlacChannel.ErrorsRoundTrip | alac.c:991-1015 | One channel's samples, predicted and Rice coded, come back, and the next channel starts where they end. |
| AlacFrame.HeaderRoundTrip | alac.c:717-754 | The header fields are read back, with and without an explicit sample count. |
| AlacFrame.HeaderLayout | alac.c:717-754 | At which bits the size flag, the count of separate bytes, the raw flag and the sample count stand. |
| AlacFrame.StereoLayout | alac.c:951-1039 | A compressed stereo frame holds shift, weight, two channel headers and the residuals of the channels in turn, in samples of 17 bits. |
| AlacFrame.MonoLayout | alac.c:766-822 | A compressed mono frame holds two bytes, a channel header and residuals in samples of 16 bits. |
| AlacFrame.SamplesLayout | alac.c:1046-1058 | Raw samples are 16 bits in two's complement each. |
| AlacFrame.FrameMeaning | alac.c:720-726 | The first three bits say what the frame is: 1 stereo, 0 mono, anything else leaves the output alone. |
| AlacFrame.WrittenMeaning | alac.c:862-868 | A stereo frame fills the output pair by pair, a mono frame the left half of each pair. |
| AlacFrame.StereoLossless | alac.c:901-1122 | Every stereo frame of at most 0xFFFF samples per channel that the reference encoder packs into bytes decodes to exactly its interleaved samples. |
| AlacFrame.MonoLossless | alac.c:726-900 | The same for mono frames. |
| AlacFrame.AlacFile.AlacDecodeFrame | alac.c:709-1124 | In place: reads the packet, writes both channels of a stereo frame or the left channel of a mono frame and nothing else, and returns four bytes per sample. |
| DnsName.NameAtUnique | tinysvcmdns.c:230-274 | A position of a buffer reads as at most one name. |
| DnsName.LabelLen | tinysvcmdns.c:138-155 | The length of a name in place, for every buffer and position. |
| DnsName.UncompressNlabel | tinysvcmdns.c:230-274 | Where the buffer reads as a name, both passes end, the measured length is the copied length, and the copy is that name through strncpy, label by label; None outside the packet. |
| DnsName.CopiedExact | tinysvcmdns.c:252-272 | Copying label by label leaves a name without zeros in its labels as it is. |
| DnsName.PointerExact | tinysvcmdns.c:820 | A pointer is the word 0xC000 plus 14 bits of the position; it leads back to its position if and only if the position is below 0x4000. |
| DnsName.FindSkipsLonger | tinysvcmdns.c:818-836 | A suffix of the name being written never matches an entry of that same name. |
| DnsName.EncodeNameKeepsSound | tinysvcmdns.c:809-850 | In any buffer that ends up holding the bytes, a written name reads back as itself, its length in place is the length returned, and every entry of the compression list still leads to a real label that reads as the entry's name, as long as pointers fit. |
| DnsName.EncodeNameBackward | tinysvcmdns.c:809-850 | A pointer goes strictly backward, every entry stays before the end of what is written, and a name written at up to 0x4000 has a pointer that fits. |
| DnsName.EncodeNameReads | tinysvcmdns.c:809-850 | In any buffer that ends up holding the bytes, a written name reads back if and only if it has no pointer or the 14 bits of its pointer lead to the rest of the name; its length in place is the length written. |
| DnsName.FarEntryMisreads | tinysvcmdns.c:818-823 | A name that matches an entry at 0x4000 or beyond reads back if and only if that name also stands at the position less its high bits; never if the byte there is not its first. |
| DnsName.EncodeNameKeepsNear | tinysvcmdns.c:809-850 | Entries before 0x4000 keep leading to real labels that read as their names, in packets of any size. |
| DnsName.EncodeNameInto | tinysvcmdns.c:809-850 | The loop in place writes those bytes at the offset, nothing else, and extends the list. |
| DnsPacket.ClassRoundTrip | tinysvcmdns.c:657-658 | The flush bit always survives; the class field re-encodes to the same word if and only if bit 7 was clear. |
| DnsPacket.TxtParses | tinysvcmdns.c:709-734 | TXT strings come back in order, and are refused if and only if one has 63 bytes. |
| DnsPacket.PacketPointersFit | tinysvcmdns.c:950-1016 | In a packet of up to 0x4000 bytes every pointer fits. |
| DnsPacket.PacketReencode | tinysvcmdns.c:632-805 | Encoding a parsed packet of A, AAAA, PTR and TXT answers gives the identical bytes if and only if every class had bit 7 clear. |
| DnsReadBack.RrReadsBack | tinysvcmdns.c:632-754 | A record whose pointers, as far as the parser follows them, lead there parses back with name, type, flush bit, TTL and data, or is refused if and only if a TXT string has 63 bytes; any other record does not parse back. It ends where it ended in every case. |
| DnsReadBack.PacketReadsBack | tinysvcmdns.c:757-805 | A reply of any size parses back if and only if every pointer to 0x4000 or beyond that the parser follows leads, with its 14 bits, to the rest of its name, and no answer has a TXT string of 63 bytes; nearer pointers never fail. |
| DnsReadBack.PacketRoundTrip | tinysvcmdns.c:950-1016 | So any reply of up to 0x4000 bytes, and any longer one whose pointers fit, parses back: header, and all answers in order, whatever other sections follow; it is refused if and only if an answer has a TXT string of 63 bytes. |
| DnsReadBack.FarPacketMisreads | tinysvcmdns.c:818-823 | The encoder reaches far entries: a reply of three records does not parse back. |
| DnsLayout.HeaderLayout | tinysvcmdns.c:966-971 | Six words in network order: id, flags and the four counts. |
| DnsLayout.PacketLayout | tinysvcmdns.c:985-1005 | Header, answers, authority and additional records, one after the other. |
| DnsLayout.RrLayout | tinysvcmdns.c:864-882 | Behind its name a record has type, class with the flush bit on top, lifetime and data length in network order, and then exactly that much data. |
| DnsLayout.AddressLayout | tinysvcmdns.c:885-893 | Address records hold their address. |
| DnsLayout.PtrLayout | tinysvcmdns.c:895-900 | A PTR record holds its target as a name, which reads back as far as its pointer does. |
| DnsLayout.TxtLayout | tinysvcmdns.c:902-909 | A TXT record holds each string behind its length. |
| DnsLayout.SrvLayout | tinysvcmdns.c:911-920 | An SRV record holds priority, weight and port, in this order, and its host as a name. |
| DnsLayout.NsecLayout | tinysvcmdns.c:922-933 | An NSEC record holds its own name, window 0 and five bytes of bitmap. |
| DnsLayout.TxtFitsMeaning | tinysvcmdns.c:86-89 | The parser refuses exactly strings of 63 bytes. |
| DnsLayout.ParsedPktLayout | tinysvcmdns.c:757-805 | What the parser takes from which byte of any packet: header words, and as many questions and answers as they say. |
| DnsLayout.ParsedRrLayout | tinysvcmdns.c:650-672 | The same for the fields of a record; only bit 7 of the class is cleared. |
| DnsLayout.ParsedDataLayout | tinysvcmdns.c:677-743 | The same for the data of each type, with the lengths that are refused and where parsing goes on. |
| DnsLayout.ParsedTxtLayout | tinysvcmdns.c:711-738 | One string of a TXT record, refused beyond 62 bytes or the packet, and the next unless the data ends. |
| DnsLayout.ParsedQuestionLayout | tinysvcmdns.c:603-628 | The same for a question. |
| DnsReadBack.QuestionReadsBack | tinysvcmdns.c:603-628 | A question parses back with its type, unicast bit and class, and ends where it ended, if and only if its name can be followed. |
| DnsReadBack.QueryRoundTrip | tinysvcmdns.c:757-805 | A query of questions and known answers, written as the format asks, parses to both in order. |
| DnsPacket.EncodeRrInto | tinysvcmdns.c:854-946 | One record in place, the length filled in after the data, changes nothing around it. |
| DnsPacket.EncodePktInto | tinysvcmdns.c:950-1016 | The packet in place, over three sections; -1 exactly when a record fills the buffer to its last byte, also with records still to come. |
| DnsPacket.ParseRrFrom | tinysvcmdns.c:632-754 | One record, with every way of giving up. |
| DnsPacket.ParseQuestionFrom | tinysvcmdns.c:603-628 | One question. |
| DnsPacket.ParsePktFrom | tinysvcmdns.c:757-805 | Header, questions and answers. |
| RecordList.RrList.Add | tinysvcmdns.c:373-394 | The walk to the last node and its relinking append a record unless it is in the list, and say which; the nodes stay a chain without sharing. |
| RecordList.RrList.Unlink | tinysvcmdns.c:1284-1288 | Redirecting the head or the previous node's link removes exactly that node. |
| DnsResponder.Mdnsd.AddRr | tinysvcmdns.c:470-490 | Adds to the group of that name or to a new group in front, and keeps names distinct and every record in the group of its name. |
| DnsResponder.IndexAgreesWithFlat | tinysvcmdns.c:470-499 | After any additions the lookup of any name is the flat list of the records added with it, each once, in insertion order. |
| DnsResponder.FlatMembers | tinysvcmdns.c:470-499 | That list holds exactly the added records of the name. |
| DnsResponder.FlatInOrder | tinysvcmdns.c:373-394 | In the order in which they were added. |
| DnsResponder.PopulateAnswers | tinysvcmdns.c:1151-1177 | Appends the selected records of a name and returns how many were new. |
| DnsResponder.CollectedMembers | tinysvcmdns.c:1250-1270 | Before suppression the answers are exactly the stored records that a multicast question asks for, each once. |
| DnsResponder.UnsuppressedMeaning | tinysvcmdns.c:512-525 | A record is removed if and only if the first known answer of its name and type, with its target if it is a PTR record, has at least half of its lifetime, rounded down. |
| DnsResponder.FirstMatchIn | tinysvcmdns.c:512-525 | The first matching record of the known answers. |
| DnsResponder.Reply.RemoveKnown | tinysvcmdns.c:1273-1299 | The loop over nodes with its previous and next pointers leaves, in order, exactly the records whose first match is absent or has less than half the lifetime, with the count equal to the length. |
| DnsResponder.Unsuppressed | tinysvcmdns.c:1273-1299 | A record stays if and only if it is not suppressed. |
| DnsResponder.UnsuppressedInOrder | tinysvcmdns.c:1273-1299 | Those that stay keep their order. |
| DnsResponder.RelatedMembers | tinysvcmdns.c:1180-1213 | The records one step away: those of a PTR target's or SRV host's name but for NSEC, the TXT records of an SRV record's own name, the NSEC records of an address's own name. |
| DnsResponder.WorkCloses | tinysvcmdns.c:1180-1213 | The pass over the list that it appends to ends, with a list closed under the relation. |
| DnsResponder.AdditionalIsReachable | tinysvcmdns.c:1302-1306 | The additional records are exactly the records reachable from the answers in one or more PTR, SRV, A or AAAA steps, each once. |
| DnsResponder.Reply.AddRelated | tinysvcmdns.c:1180-1213 | Either pass, with the walked list possibly being the extended one; the count follows the length. |
| DnsResponder.Reply.Process | tinysvcmdns.c:1234-1314 | A packet with flags below 0x800 (a standard query) gets its collected, unsuppressed answers and their additional records under its id and flags 0x8400; anything else leaves the reply alone. |
| DnsResponder.Reply.Announce | tinysvcmdns.c:1216-1230 | The announcement of a service type with its additional records. |
| JitterBuffer.WireDiff | player.h:15-18 | Wrapped differences of numbers less than 2^15 apart order as the unbounded numbers do. |
| JitterBuffer.PutRefines | player.c:191-229 | Each of the four branches of a put does to the ring what the abstract put does to the map. |
| JitterBuffer.GetRefines | player.c:342-391 | So does a get: frame, underrun, buffering and last-chance requests. |
| JitterBuffer.RunRefines | player.c:86-108 | In every run without overrun the ring gives the frames and the requests of the unbounded map, across any number of 16-bit wraps and slot reuses. |
| JitterOverrun.OverrunPlays | player.c:361-370 | What a get plays right after the first arrival that overruns the ring: the frame of a stale slot, or the one just stored. |
| JitterOverrun.OverrunPlaysRight | player.c:361-370 | That one frame is the one due for its number, or silence, if and only if the number is within one turn of the old position or the slot holds silence; always with a start fill of 0, and with one of 512 only if the new frame equals the due one. |
| JitterOverrun.OverrunPlaysStaleFrame | player.c:361-364 | A run in which a number that never arrived is played as an old frame. |
| JitterOverrun.GetRestarts | player.c:361-366 | With a start fill of 1 to 511, the get after the overrun is the get of a ring that restarts at the new read cursor. |
| JitterOverrun.RestartRefines | player.c:361-364 | After the first arrival that overruns the ring, with a start fill below 512, the restarted ring refines the map again if and only if the restart skips no accepted number, apart from one whose slot the new packet takes. |
| JitterOverrun.OverrunHarmless | player.c:342-391 | Then all later frames and requests are right, in every run without a further overrun. |
| JitterOverrun.OverrunFramesRight | player.c:342-391 | With a start fill of 1 to 511, all frames from that get on are right, in every such run, if and only if each accepted number that is skipped in a slot of its own was silence. |
| JitterOverrun.FramesRight | player.c:342-391 | For any ring whose cursors agree with the map: every run from a get on plays the frames of the map if and only if each slot would play what is due for its number. |
| JitterOverrun.EdgeFills | player.c:361-370 | With a start fill of 0 or 512 the new frame is played at once and its slot emptied; with 0 the next get runs dry. |
| JitterBuffer.SessionState | player.c:191-229 | The cursors and the accepted frames of a session are functions of its history. |
| JitterBuffer.SessionDelivers | player.c:342-391 | A session delivers consecutive numbers, each once: the next frame is the last one accepted for exactly that number, or silence. |
| JitterBuffer.WaitingMeaning | player.c:223-226 | A session is buffering unless some packet has filled the buffer up to the start fill and no get has come back empty since. |
| JitterBuffer.GetAsksFor | player.c:370-381 | A get that plays asks for the missing numbers 16, 32, 64, .. after the next one, up to half of the start fill. |
| JitterBuffer.RingDelivers | player.c:342-391 | The same of the ring itself, for a session anywhere in a longer run, after any flushes. |
| JitterBuffer.GapsAreRequested | player.c:202-208 | Packets that moved the write cursor and ranges asked for on arrival are disjoint, and together are everything from the sync to the highest number. |
| JitterBuffer.ResendPacketCounts | rtp.c:178-193 | A request has its four fixed bytes, and its 16-bit fields give the first missing number and the size of the gap. |
| JitterBuffer.RtpRequestResend | rtp.c:184-190 | The eight bytes of a request. |
| JitterBuffer.AudioBuffer.PlayerPutPacket | player.c:191-229 | The whole new state of the player's variables after a packet. |
| JitterBuffer.AudioBuffer.BufferGetFrame | player.c:342-391 | And after taking a frame, overrun included. |
| JitterBuffer.AudioBuffer.PlayerFlush | player.c:95-101 | And after a flush. |
| SampleOutput.DitherWithinOne | player.c:238-250 | Below unity volume a sample comes out within one of its undithered value if and only if the conversion does not wrap, and as 0x7FFF if it does. |
| SampleOutput.FrameWithinOne | player.c:238-250 | The same for every sample of a frame, with the noise of its place. |
| SampleOutput.DitheredMeaning | player.c:238-250 | Unless it wraps, the output is sample times volume plus the new random number less the last one, over 2^16 rounded down. |
| SampleOutput.NextMeaning | player.c:232-236 | The random numbers are the low 16 bits, signed, of a 64-bit linear congruential generator. |
| SampleOutput.WrapIsReached | player.c:232-250 | The wrapping case is real: the third sample after program start can come out as 0x7FFF for -0x8000. |
| SampleOutput.DitherWraps | player.c:238-250 | The conversion to 16 bits wraps if and only if the sample is -32768, the volume 65535 and the noise below -32768. |
| SampleOutput.NoiseTelescopes | player.c:232-250 | Over any run the noise adds up to the last random number less the first, at most 65535 in magnitude. |
| SampleOutput.StuffedMeaning | player.c:411-424 | An inserted stereo sample is halfway between its neighbours, rounded down, channel by channel, and removing it gives the frame back. |
| SampleOutput.StuffedAt | player.c:411-424 | And every other sample stays, in order. |
| SampleOutput.UnityIsExact | player.c:238-250 | At unity volume samples pass unchanged. |
| SampleOutput.Output.DitheredVol | player.c:238-250 | One sample and the dither state after it. |
| SampleOutput.Output.StuffBuffer | player.c:393-430 | The returned prefix is the dithered frame with one midpoint inserted or one stereo sample removed, its length is the return value, and writes stay within frame_size + 3 stereo samples. |
| PlayerOwnership.RunKeepsInv | rtsp.c:71-97 | Every step of every thread keeps the invariant, in every interleaving. |
| PlayerOwnership.OwnershipSafety | rtsp.c:71-97 | At most one thread has the player, `rtsp_playing` tells a thread the truth about itself, the session runs only while somebody has the player, and only that thread starts or stops it. |
| PlayerOwnership.ChecksOfRunning | rtp.c:134-176 | A fresh taker finds `running` clear, an owner that takes again finds it set, and `rtp_shutdown` always finds it set. |
| PlayerOwnership.DiesOnlyOnRepeatedSetup | rtsp.c:389-412 | A thread dies in a check of `running` if and only if it repeats SETUP while it has the player. |
| PlayerOwnership.SetupDiesIffOwner | rtsp.c:389-412 | A SETUP request ends in that death if and only if its thread had the player when the request began, whatever other threads do meanwhile. |
| PlayerOwnership.RepeatedSetupDies | rtsp.c:389-412 | Such a run exists, for any thread. |
| PlayerOwnership.TakesOver | rtsp.c:71-97 | A run in which a second thread waits in SETUP until the first leaves, and then has the player. |
| ThreadReaper.ThreadTable.TrackThread | rtsp.c:102-106 | The table grows by the new connection. |
| ThreadReaper.ThreadTable.CleanupThreads | rtsp.c:108-124 | The swap-remove loop ends and does what `Reap` says. |
| ThreadReaper.ReapPartitions | rtsp.c:108-124 | Every connection is joined exactly once or still in the table, never both. |
| ThreadReaper.ReapDecides | rtsp.c:108-124 | What is joined was finished at the look that joined it, and what stays was seen running by some look, however threads finish meanwhile. |
| ThreadReaper.CleanupDecides | rtsp.c:108-124 | With threads that only go from running to finished, what is joined has finished, and what stays had not finished when the loop began. |
| ThreadReaper.CleanupExact | rtsp.c:108-124 | A connection that does not finish meanwhile is joined if it has finished and kept if not, as often as it is in the table. |

## Left out

- AlacFrame.AlacFile.AlacDecodeFrame: 16-bit samples only, because `init_decoder` refuses every other size (player.c:134-136); with that, `deinterlace_24` and the bytes stored beside a 24-bit stream are not modelled. A quantisation of 0 is accepted where there is no filter, but not for a frame so short that its filter never runs.
- AlacRice.HistoryStep: for multipliers of up to 64 and sample sizes up to 24, because beyond them the C products leave 32 bits.
- AlacRice.EntropyDecodeValue: the mask is given by its number of ones; every call passes a mask of the form 2^n - 1.
- SampleOutput.Output.StuffBuffer: an insertion at point 0, which the code can draw, interpolates with two values in front of the frame; the model asks for a point of at least 1.
- JitterBuffer.AudioBuffer.PlayerPutPacket: one step, whereas the code decodes between two locked sections; a get or a flush in between is not modelled.
- DnsResponder.Mdnsd.AddRr: the store's groups and the records of a group are sequences; the linked lists are those of the replies.
- DnsPacket.EncodePktInto: a record that does not fit the rest of the buffer, which the code writes beyond its end, is excluded.
- PlayerOwnership.OwnershipSafety: thread ids are never used again. The code never clears `playing_thread`, and pthreads may give an id to a new thread once the old one is joined; such a thread would take itself for the player while another thread holds the mutex. Safety only. Whether a take-over ever succeeds depends on signals and on the global `please_shutdown`, which the code itself calls a race (rtsp.c:86); nor is a shutdown modelled that a signal starts inside a connection thread.
- Behaviour on cyclic names, truncated packets and zero runs past the frame.
- Prediction types other than 0, sample sizes 20 and 32, big-endian hosts.
- AES, RSA, MD5, base64, sockets, files, signals, processes and all audio and mDNS backends.
- The floating-point rate control, the biquad filters and the resampler.
- The RTSP request parser, headers and authentication, whose results depend on where reads end.
- `create_nlabel`, `nlabel_to_str` and service registration, and freeing memory.

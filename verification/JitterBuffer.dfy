/** The jitter buffer of player.c: a ring of 512 frames indexed by wrapping
    16-bit sequence numbers, and the unbounded map that it refines. */
module JitterBuffer {
  import opened Arith
  import opened Wrappers

  const BUFFER_FRAMES := 512
  const SEQ_RANGE := 0x1_0000

  type Frame = seq<int16>

  datatype Slot = Slot(ready: bool, data: Frame)

  /** A resend request: the first and the last missing number. */
  datatype Range = Range(first: uint16, last: uint16)

  /** What does not change while a stream plays. */
  datatype Config = Config(startFill: nat, silence: Frame)

  predicate ConfigOk(cfg: Config) {
    cfg.startFill <= BUFFER_FRAMES
  }

  // ----- Sequence numbers -----

  function Wire(n: int): uint16 {
    n % SEQ_RANGE
  }

  /** seq_diff, and its result as a signed fill level. */
  function SeqDiff(a: uint16, b: uint16): uint16 {
    Wire(b as int - a)
  }

  function SignedDiff(a: uint16, b: uint16): int16 {
    Wrap16(b as int - a)
  }

  /** Whether b is after a. */
  predicate SeqOrder(a: uint16, b: uint16) {
    SignedDiff(a, b) > 0
  }

  function BufIdx(n: uint16): (i: nat)
    ensures i < BUFFER_FRAMES
  {
    n % BUFFER_FRAMES
  }

  predicate Near(d: int) {
    -0x8000 <= d < 0x8000
  }

  /** Numbers less than half the range apart compare as unbounded numbers do. */
  lemma WireDiff(a: int, b: int)
    requires Near(b - a)
    ensures SignedDiff(Wire(a), Wire(b)) == b - a
    ensures SeqDiff(Wire(a), Wire(b)) == 1 <==> b == a + 1
  {
    hide SignExt;
    Pow2At16();
    var k := (b - Wire(b)) / SEQ_RANGE - (a - Wire(a)) / SEQ_RANGE;
    assert Wire(b) as int - Wire(a) == (b - a) + (-k) * SEQ_RANGE;
    SignExtCongruent(b - a, -k, 16);
    SignExtIdentity(b - a, 16);
  }

  lemma WireStep(a: int, d: int)
    ensures Wire(Wire(a) as int + d) == Wire(a + d)
  {
  }

  // ----- The ring as it is -----

  datatype State = State(read: uint16, write: uint16, buffering: bool, synced: bool, slots: seq<Slot>)

  predicate IsState(st: State) {
    |st.slots| == BUFFER_FRAMES
  }

  function SyncTo(st: State, seqno: uint16): State {
    if st.synced then st else st.(write := Wire(seqno as int - 1), read := seqno, synced := true)
  }

  datatype PutResult = PutResult(state: State, resends: seq<Range>)

  function Store(st: State, seqno: uint16, frame: Frame): State
    requires IsState(st)
  {
    st.(slots := st.slots[BufIdx(seqno) := Slot(true, frame)])
  }

  /** player_put_packet, with the decoded frame as a parameter. */
  function Put(st: State, seqno: uint16, frame: Frame, cfg: Config): (r: PutResult)
    requires IsState(st)
    ensures IsState(r.state)
  {
    var s := SyncTo(st, seqno);
    var expected := SeqDiff(s.write, seqno) == 1;
    var newer := !expected && SeqOrder(s.write, seqno);
    var late := !expected && !newer && SeqOrder(s.read, seqno);
    var s1 := if expected || newer then s.(write := seqno) else s;
    var s2 := if expected || newer || late then Store(s1, seqno, frame) else s1;
    PutResult(
      s2.(buffering := s2.buffering && SignedDiff(s2.read, s2.write) < cfg.startFill),
      if newer then [Range(Wire(s.write as int + 1), Wire(seqno as int - 1))] else [])
  }

  datatype GetResult = GetResult(state: State, frame: Option<Frame>, resends: seq<Range>)

  /** The last-chance requests at distances i, 2i, 4i, .. below the limit. */
  function LastChance(slots: seq<Slot>, read: uint16, i: nat, limit: int): seq<Range>
    requires |slots| == BUFFER_FRAMES && i >= 1
    decreases limit - i
  {
    if i >= limit then []
    else
      var next := Wire(read as int + i);
      (if slots[BufIdx(next)].ready then [] else [Range(next, next)]) + LastChance(slots, read, 2 * i, limit)
  }

  /** buffer_get_frame; no frame on an underrun or while buffering. */
  function Get(st: State, cfg: Config): (r: GetResult)
    requires IsState(st)
    ensures IsState(r.state)
  {
    if st.buffering then GetResult(st, None, [])
    else
      var fill := SignedDiff(st.read, st.write);
      if fill < 1 || !st.synced then GetResult(st.(buffering := true), None, [])
      else
        var read := if fill >= BUFFER_FRAMES then Wire(st.write as int - cfg.startFill) else st.read;
        var next := Wire(read as int + 1);
        var slot := st.slots[BufIdx(read)];
        var data := if slot.ready then slot.data else cfg.silence;
        GetResult(st.(read := next, slots := st.slots[BufIdx(read) := Slot(false, data)]), Some(data),
                  LastChance(st.slots, next, 16, cfg.startFill / 2))
  }

  /** ab_resync */
  function Flush(st: State): (r: State)
    requires IsState(st)
    ensures IsState(r)
  {
    st.(slots := seq(BUFFER_FRAMES, i requires 0 <= i < BUFFER_FRAMES => Slot(false, st.slots[i].data)),
        synced := false, buffering := true)
  }

  // ----- The unbounded map -----

  /** Since the last sync: the next number to play, the highest number seen, and
      every accepted frame by its number. */
  datatype Abstract =
    | Idle(buffering: bool)
    | Playing(read: int, write: int, accepted: map<int, Frame>, buffering: bool)

  datatype Event = PutEvent(n: int, frame: Frame) | GetEvent | FlushEvent

  datatype Output = Output(frame: Option<Frame>, resends: seq<(int, int)>)

  datatype Step = Step(state: Abstract, output: Output)

  function Fetch(accepted: map<int, Frame>, n: int, cfg: Config): Frame {
    if n in accepted then accepted[n] else cfg.silence
  }

  function MissingAt(accepted: map<int, Frame>, read: int, i: nat, limit: int): seq<(int, int)>
    requires i >= 1
    decreases limit - i
  {
    if i >= limit then []
    else (if read + i in accepted then [] else [(read + i, read + i)]) + MissingAt(accepted, read, 2 * i, limit)
  }

  function AbstractStep(a: Abstract, ev: Event, cfg: Config): Step {
    match ev
    case FlushEvent => Step(Idle(true), Output(None, []))
    case PutEvent(n, frame) => (
      match a
      case Idle(waiting) => Step(Playing(n, n, map[n := frame], waiting && cfg.startFill > 0), Output(None, []))
      case Playing(read, write, accepted, buffering) =>
        if n > write then
          Step(Playing(read, n, accepted[n := frame], buffering && n - read < cfg.startFill),
               Output(None, if n > write + 1 then [(write + 1, n - 1)] else []))
        else
          var accepted' := if n > read then accepted[n := frame] else accepted;
          Step(Playing(read, write, accepted', buffering && write - read < cfg.startFill), Output(None, [])))
    case GetEvent => (
      match a
      case Idle(_) => Step(Idle(true), Output(None, []))
      case Playing(read, write, accepted, buffering) =>
        if buffering || write == read then Step(a.(buffering := true), Output(None, []))
        else Step(a.(read := read + 1),
                  Output(Some(Fetch(accepted, read, cfg)), MissingAt(accepted, read + 1, 16, cfg.startFill / 2))))
  }

  /** No overrun, and arriving packets within 2^15 of the cursors. */
  predicate Legal(a: Abstract, ev: Event) {
    ev.PutEvent? && a.Playing? ==> Near(ev.n - a.write) && Near(ev.n - a.read) && ev.n - a.read < BUFFER_FRAMES
  }

  // ----- The refinement -----

  /** The number at or after `read`, within one turn of the ring, that lives in slot j. */
  function Resident(read: int, j: nat): int {
    read + (j - read) % BUFFER_FRAMES
  }

  /** Each slot is ready exactly when its resident has been accepted, and then
      holds the accepted frame. */
  predicate SlotsHold(slots: seq<Slot>, read: int, accepted: map<int, Frame>) {
    && |slots| == BUFFER_FRAMES
    && forall j :: 0 <= j < BUFFER_FRAMES ==>
         && slots[j].ready == (Resident(read, j) in accepted)
         && (slots[j].ready ==> slots[j].data == accepted[Resident(read, j)])
  }

  predicate Refines(st: State, a: Abstract) {
    && IsState(st)
    && match a
       case Idle(waiting) =>
         && !st.synced && st.buffering == waiting
         && forall j :: 0 <= j < BUFFER_FRAMES ==> !st.slots[j].ready
       case Playing(read, write, accepted, buffering) =>
         && st.synced && st.buffering == buffering
         && st.read == Wire(read) && st.write == Wire(write)
         && read <= write < read + BUFFER_FRAMES
         && (forall n <- accepted :: n <= write)
         && SlotsHold(st.slots, read, accepted)
  }

  lemma ResidentRange(read: int, j: nat)
    requires j < BUFFER_FRAMES
    ensures read <= Resident(read, j) < read + BUFFER_FRAMES && Resident(read, j) % BUFFER_FRAMES == j
  {
    var q := (j - read) / BUFFER_FRAMES;
    assert Resident(read, j) == j - BUFFER_FRAMES * q;
  }

  lemma WireMod(n: int)
    ensures Wire(n) % BUFFER_FRAMES == n % BUFFER_FRAMES
  {
    var q := n / SEQ_RANGE;
    assert Wire(n) == n - BUFFER_FRAMES * (128 * q);
  }

  lemma SameResidue(a: int, b: int)
    requires a % BUFFER_FRAMES == b % BUFFER_FRAMES && -BUFFER_FRAMES < a - b < BUFFER_FRAMES
    ensures a == b
  {
  }

  /** In a window of one turn a number and its slot determine each other. */
  lemma SlotOf(read: int, n: int, j: nat)
    requires read <= n < read + BUFFER_FRAMES && j < BUFFER_FRAMES
    ensures Resident(read, j) == n <==> j == BufIdx(Wire(n))
  {
    hide Resident, Wire;
    WireMod(n);
    ResidentRange(read, j);
    if j == BufIdx(Wire(n)) {
      SameResidue(Resident(read, j), n);
    }
  }

  /** Moving the window on by one changes the resident of one slot only. */
  lemma ResidentMoves(read: int, j: nat)
    requires j < BUFFER_FRAMES
    ensures Resident(read + 1, j) == if j == BufIdx(Wire(read)) then read + BUFFER_FRAMES else Resident(read, j)
  {
    hide Resident, Wire;
    WireMod(read);
    ResidentRange(read, j);
    ResidentRange(read + 1, j);
    if j == BufIdx(Wire(read)) {
      SameResidue(Resident(read + 1, j), read + BUFFER_FRAMES);
    } else {
      SameResidue(Resident(read, j), Resident(read + 1, j));
    }
  }

  /** The requests of the two levels agree, number by number. */
  predicate SameResends(wire: seq<Range>, numbers: seq<(int, int)>) {
    && |wire| == |numbers|
    && forall i :: 0 <= i < |wire| ==> wire[i] == Range(Wire(numbers[i].0), Wire(numbers[i].1))
  }

  lemma StoreRefines(slots: seq<Slot>, read: int, n: int, accepted: map<int, Frame>, frame: Frame)
    requires SlotsHold(slots, read, accepted) && read <= n < read + BUFFER_FRAMES
    ensures SlotsHold(slots[BufIdx(Wire(n)) := Slot(true, frame)], read, accepted[n := frame])
  {
    hide Resident, Wire, BufIdx;
    forall j: nat | j < BUFFER_FRAMES {
      SlotOf(read, n, j);
    }
  }

  lemma PutRefines(st: State, a: Abstract, n: int, frame: Frame, cfg: Config)
    requires Refines(st, a) && ConfigOk(cfg) && Legal(a, PutEvent(n, frame))
    ensures Refines(Put(st, Wire(n), frame, cfg).state, AbstractStep(a, PutEvent(n, frame), cfg).state)
    ensures SameResends(Put(st, Wire(n), frame, cfg).resends, AbstractStep(a, PutEvent(n, frame), cfg).output.resends)
  {
    hide Wire, SignedDiff, SeqDiff, Resident, BufIdx;
    match a
    case Idle(waiting) =>
      WireStep(n, -1);
      WireDiff(n - 1, n);
      WireDiff(n, n);
      StoreRefines(st.slots, n, n, map[], frame);
    case Playing(read, write, accepted, buffering) =>
      WireDiff(write, n);
      WireDiff(read, n);
      WireDiff(read, write);
      WireStep(write, 1);
      WireStep(n, -1);
      if n > read {
        StoreRefines(st.slots, read, n, accepted, frame);
      }
  }

  lemma TakeRefines(slots: seq<Slot>, read: int, accepted: map<int, Frame>, data: Frame)
    requires SlotsHold(slots, read, accepted) && forall n <- accepted :: n < read + BUFFER_FRAMES
    ensures SlotsHold(slots[BufIdx(Wire(read)) := Slot(false, data)], read + 1, accepted)
  {
    hide Resident, Wire, BufIdx;
    var after := slots[BufIdx(Wire(read)) := Slot(false, data)];
    forall j | 0 <= j < BUFFER_FRAMES
      ensures after[j].ready == (Resident(read + 1, j) in accepted)
      ensures after[j].ready ==> after[j].data == accepted[Resident(read + 1, j)]
    {
      ResidentMoves(read, j);
      assert j != BufIdx(Wire(read)) ==> after[j] == slots[j];
    }
  }

  lemma GetRefines(st: State, a: Abstract, cfg: Config)
    requires Refines(st, a) && ConfigOk(cfg)
    ensures Refines(Get(st, cfg).state, AbstractStep(a, GetEvent, cfg).state)
    ensures Get(st, cfg).frame == AbstractStep(a, GetEvent, cfg).output.frame
    ensures SameResends(Get(st, cfg).resends, AbstractStep(a, GetEvent, cfg).output.resends)
  {
    hide Wire, SignedDiff, SeqDiff, Resident, BufIdx, LastChance, MissingAt;
    match a
    case Idle(_) =>
    case Playing(read, write, accepted, buffering) =>
      WireDiff(read, write);
      WireStep(read, 1);
      if !buffering && write != read {
        SlotOf(read, read, BufIdx(Wire(read)));
        var data := Fetch(accepted, read, cfg);
        TakeRefines(st.slots, read, accepted, data);
        ScanRefines(st.slots, read, accepted, 16, cfg.startFill / 2);
      }
  }

  /** The last-chance scan looks beyond the slot that is being emptied. */
  lemma {:induction false} ScanRefines(slots: seq<Slot>, read: int, accepted: map<int, Frame>, i: nat, limit: int)
    requires SlotsHold(slots, read, accepted) && i >= 1 && limit < BUFFER_FRAMES
    ensures SameResends(LastChance(slots, Wire(read + 1), i, limit), MissingAt(accepted, read + 1, i, limit))
    decreases limit - i
  {
    hide Wire, Resident, BufIdx;
    if i < limit {
      WireStep(read + 1, i);
      SlotOf(read, read + 1 + i, BufIdx(Wire(read + 1 + i)));
      ScanRefines(slots, read, accepted, 2 * i, limit);
    }
  }

  // ----- Whole runs -----

  datatype Observed = Observed(frame: Option<Frame>, resends: seq<Range>)

  datatype Run<S, O> = Run(state: S, outputs: seq<O>)

  function ConcreteStep(st: State, ev: Event, cfg: Config): (State, Observed)
    requires IsState(st)
    ensures IsState(ConcreteStep(st, ev, cfg).0)
  {
    match ev
    case PutEvent(n, frame) =>
      var r := Put(st, Wire(n), frame, cfg);
      (r.state, Observed(None, r.resends))
    case GetEvent =>
      var r := Get(st, cfg);
      (r.state, Observed(r.frame, r.resends))
    case FlushEvent => (Flush(st), Observed(None, []))
  }

  function ConcreteRun(st: State, evs: seq<Event>, cfg: Config): (r: Run<State, Observed>)
    requires IsState(st)
    ensures IsState(r.state) && |r.outputs| == |evs|
  {
    if evs == [] then Run(st, [])
    else
      var before := ConcreteRun(st, evs[..|evs| - 1], cfg);
      var (next, out) := ConcreteStep(before.state, evs[|evs| - 1], cfg);
      Run(next, before.outputs + [out])
  }

  function AbstractRun(a: Abstract, evs: seq<Event>, cfg: Config): (r: Run<Abstract, Output>)
    ensures |r.outputs| == |evs|
  {
    if evs == [] then Run(a, [])
    else
      var before := AbstractRun(a, evs[..|evs| - 1], cfg);
      var step := AbstractStep(before.state, evs[|evs| - 1], cfg);
      Run(step.state, before.outputs + [step.output])
  }

  predicate LegalRun(a: Abstract, evs: seq<Event>, cfg: Config) {
    evs == [] ||
      (LegalRun(a, evs[..|evs| - 1], cfg) && Legal(AbstractRun(a, evs[..|evs| - 1], cfg).state, evs[|evs| - 1]))
  }

  predicate SameOutput(c: Observed, o: Output) {
    c.frame == o.frame && SameResends(c.resends, o.resends)
  }

  /** Every legal run of the ring gives the frames and the requests of the
      unbounded map, across any number of 16-bit wraps. */
  lemma {:induction false} RunRefines(st: State, a: Abstract, evs: seq<Event>, cfg: Config)
    requires Refines(st, a) && ConfigOk(cfg) && LegalRun(a, evs, cfg)
    ensures IsState(st) && Refines(ConcreteRun(st, evs, cfg).state, AbstractRun(a, evs, cfg).state)
    ensures forall i :: 0 <= i < |evs| ==> SameOutput(ConcreteRun(st, evs, cfg).outputs[i],
        AbstractRun(a, evs, cfg).outputs[i])
  {
    hide Refines, Put, Get, Flush, Legal, AbstractStep;
    StateOf(st, a);
    if evs != [] {
      var last := |evs| - 1;
      RunRefines(st, a, evs[..last], cfg);
      StepRefines(ConcreteRun(st, evs[..last], cfg).state, AbstractRun(a, evs[..last], cfg).state, evs[last], cfg);
    }
  }

  lemma StateOf(st: State, a: Abstract)
    requires Refines(st, a)
    ensures IsState(st)
  {
  }

  lemma StepRefines(st: State, a: Abstract, ev: Event, cfg: Config)
    requires Refines(st, a) && ConfigOk(cfg) && Legal(a, ev)
    ensures IsState(st)
    ensures Refines(ConcreteStep(st, ev, cfg).0, AbstractStep(a, ev, cfg).state)
    ensures SameOutput(ConcreteStep(st, ev, cfg).1, AbstractStep(a, ev, cfg).output)
  {
    hide Put, Get, Legal;
    match ev
    case PutEvent(n, frame) => PutRefines(st, a, n, frame, cfg);
    case GetEvent => GetRefines(st, a, cfg);
    case FlushEvent =>
  }

  // ----- One session: from a sync to the next flush -----

  /** The frames delivered, in order. */
  function Frames(outs: seq<Output>): seq<Frame> {
    if outs == [] then []
    else
      var last := outs[|outs| - 1].frame;
      Frames(outs[..|outs| - 1]) + if last.Some? then [last.value] else []
  }

  predicate IsSession(evs: seq<Event>) {
    evs != [] && evs[0].PutEvent? && forall ev <- evs :: !ev.FlushEvent?
  }

  function Played(waiting: bool, evs: seq<Event>, cfg: Config): nat {
    |Frames(AbstractRun(Idle(waiting), evs, cfg).outputs)|
  }

  /** A number is still open as long as fewer frames have been played than lie
      before it; the number at the front counts as gone. */
  predicate Accepts(waiting: bool, before: seq<Event>, n: int, cfg: Config) {
    before == [] || (before[0].PutEvent? && n > before[0].n + Played(waiting, before, cfg))
  }

  /** The last frame accepted for exactly that number. */
  function LastAccepted(waiting: bool, evs: seq<Event>, n: int, cfg: Config): Option<Frame> {
    if evs == [] then None
    else
      var before, ev := evs[..|evs| - 1], evs[|evs| - 1];
      if ev.PutEvent? && ev.n == n && Accepts(waiting, before, n, cfg) then Some(ev.frame)
      else LastAccepted(waiting, before, n, cfg)
  }

  function OrSilence(frame: Option<Frame>, cfg: Config): Frame {
    match frame
    case Some(f) => f
    case None => cfg.silence
  }

  /** The highest number that has arrived. */
  function Highest(evs: seq<Event>): int
    requires IsSession(evs)
  {
    var last := |evs| - 1;
    if last == 0 then evs[0].n
    else if evs[last].PutEvent? then Max(Highest(evs[..last]), evs[last].n)
    else Highest(evs[..last])
  }

  function ToOption(m: map<int, Frame>, n: int): Option<Frame> {
    if n in m then Some(m[n]) else None
  }

  /** The cursors and the map of a session, in terms of its history alone. */
  lemma {:induction false} SessionState(waiting: bool, evs: seq<Event>, cfg: Config)
    requires IsSession(evs)
    ensures var a := AbstractRun(Idle(waiting), evs, cfg).state;
      && a.Playing? && a.read == evs[0].n + Played(waiting, evs, cfg)
      && a.write == Highest(evs) && a.read <= a.write
      && forall n :: ToOption(a.accepted, n) == LastAccepted(waiting, evs, n, cfg)
  {
    hide AbstractRun, AbstractStep, LastAccepted, Frames;
    var last := |evs| - 1;
    var before := evs[..last];
    var run := AbstractRun(Idle(waiting), before, cfg);
    assert evs == before + [evs[last]];
    RunSnoc(Idle(waiting), before, evs[last], cfg);
    FramesSnoc(run.outputs, AbstractStep(run.state, evs[last], cfg).output);
    if last == 0 {
      RunNothing(Idle(waiting), cfg);
      SyncStep(waiting, evs, cfg);
    } else {
      SessionState(waiting, before, cfg);
      CursorStep(run.state, evs[last], cfg);
      SessionStep(waiting, before, evs[last], run.state, cfg);
    }
  }

  lemma SyncStep(waiting: bool, evs: seq<Event>, cfg: Config)
    requires |evs| == 1 && evs[0].PutEvent?
    ensures var step := AbstractStep(Idle(waiting), evs[0], cfg);
      && step.state.Playing? && step.state.read == step.state.write == evs[0].n && step.output.frame == None
      && Frames([]) == []
      && forall n :: ToOption(step.state.accepted, n) == LastAccepted(waiting, evs, n, cfg)
  {
    forall n
      ensures LastAccepted(waiting, evs, n, cfg) == if n == evs[0].n then Some(evs[0].frame) else None
    {
      assert LastAccepted(waiting, [], n, cfg) == None;
    }
  }

  lemma CursorStep(st: Abstract, ev: Event, cfg: Config)
    requires st.Playing? && !ev.FlushEvent? && st.read <= st.write
    ensures var step := AbstractStep(st, ev, cfg);
      && step.state.Playing? && step.state.read <= step.state.write
      && step.state.read == st.read + (if step.output.frame.Some? then 1 else 0)
      && step.state.write == if ev.PutEvent? then Max(st.write, ev.n) else st.write
  {
    hide MissingAt;
  }

  lemma FramesSnoc(outs: seq<Output>, out: Output)
    ensures Frames(outs + [out]) == Frames(outs) + if out.frame.Some? then [out.frame.value] else []
  {
    assert (outs + [out])[..|outs|] == outs;
  }

  /** One more event of a session: the map still holds what was last accepted. */
  lemma SessionStep(waiting: bool, before: seq<Event>, ev: Event, st: Abstract, cfg: Config)
    requires before != [] && before[0].PutEvent? && !ev.FlushEvent? && st.Playing?
    requires st.read == before[0].n + Played(waiting, before, cfg) && st.read <= st.write
    requires forall n :: ToOption(st.accepted, n) == LastAccepted(waiting, before, n, cfg)
    ensures var a := AbstractStep(st, ev, cfg).state;
      a.Playing? && forall n :: ToOption(a.accepted, n) == LastAccepted(waiting, before + [ev], n, cfg)
  {
    hide MissingAt, AbstractRun, Played;
    var a, evs := AbstractStep(st, ev, cfg).state, before + [ev];
    assert evs[..|evs| - 1] == before;
    forall n
      ensures ToOption(a.accepted, n) == LastAccepted(waiting, evs, n, cfg)
    {
      assert ToOption(st.accepted, n) == LastAccepted(waiting, before, n, cfg);
      assert Accepts(waiting, before, n, cfg) <==> n > st.read;
    }
  }

  /** A session delivers consecutive numbers, each once: the frame after the
      k-th is the last one accepted for number k after the sync, or silence.
      There is none while buffering, or when only one number is left. */
  lemma SessionDelivers(waiting: bool, evs: seq<Event>, cfg: Config)
    requires IsSession(evs)
    ensures var next := evs[0].n + Played(waiting, evs, cfg);
      var out := AbstractRun(Idle(waiting), evs + [GetEvent], cfg).outputs[|evs|].frame;
      && (out.None? <==> AbstractRun(Idle(waiting), evs, cfg).state.buffering || next == Highest(evs))
      && (out.Some? ==> out.value == OrSilence(LastAccepted(waiting, evs, next, cfg), cfg))
  {
    hide LastAccepted, Played, AbstractRun, Highest, MissingAt;
    SessionState(waiting, evs, cfg);
    RunSnoc(Idle(waiting), evs, GetEvent, cfg);
  }

  // ----- When a session waits -----

  /** Buffering has ended with event s - 1, or had not begun. */
  predicate Started(waiting: bool, evs: seq<Event>, s: nat, cfg: Config)
    requires IsSession(evs)
  {
    && s <= |evs|
    && if s == 0 then !waiting
       else evs[s - 1].PutEvent? && Highest(evs[..s]) - (evs[0].n + Played(waiting, evs[..s], cfg)) >= cfg.startFill
  }

  /** Every get from event s on has delivered a frame. */
  predicate Undisturbed(waiting: bool, evs: seq<Event>, s: nat, cfg: Config) {
    forall j :: s <= j < |evs| && evs[j].GetEvent? ==> AbstractRun(Idle(waiting), evs, cfg).outputs[j].frame.Some?
  }

  /** A session is buffering unless some packet has filled the buffer up to the
      start fill, and no get has come back empty since. */
  lemma {:induction false} WaitingMeaning(waiting: bool, evs: seq<Event>, cfg: Config)
    requires IsSession(evs)
    ensures AbstractRun(Idle(waiting), evs, cfg).state.buffering
            <==> !exists s: nat :: Started(waiting, evs, s, cfg) && Undisturbed(waiting, evs, s, cfg)
  {
    hide AbstractRun, AbstractStep, Played, Highest, LastAccepted, Started, Undisturbed;
    var last := |evs| - 1;
    var before := evs[..last];
    var run := AbstractRun(Idle(waiting), before, cfg);
    assert evs == before + [evs[last]];
    RunSnoc(Idle(waiting), before, evs[last], cfg);
    SessionState(waiting, evs, cfg);
    if last == 0 {
      RunNothing(Idle(waiting), cfg);
      FirstWaits(waiting, evs, cfg);
    } else {
      SessionState(waiting, before, cfg);
      WaitingMeaning(waiting, before, cfg);
      WaitingStep(run.state, evs[last], cfg);
      StartedNow(waiting, evs, cfg);
      StartedNow(waiting, before, cfg);
      forall s: nat | s <= last
        ensures Started(waiting, evs, s, cfg) <==> Started(waiting, before, s, cfg)
        ensures Undisturbed(waiting, evs, s, cfg) <==>
          Undisturbed(waiting, before, s, cfg)
          && (evs[last].GetEvent? ==> AbstractStep(run.state, evs[last], cfg).output.frame.Some?)
      {
        StartedBefore(waiting, before, evs[last], s, cfg);
        UndisturbedSnoc(waiting, before, evs[last], s, cfg);
      }
    }
  }

  lemma StartedBefore(waiting: bool, before: seq<Event>, ev: Event, s: nat, cfg: Config)
    requires IsSession(before) && IsSession(before + [ev]) && s <= |before|
    ensures Started(waiting, before + [ev], s, cfg) <==> Started(waiting, before, s, cfg)
  {
    hide Played, Highest;
    assert (before + [ev])[..s] == before[..s];
  }

  lemma StartedNow(waiting: bool, evs: seq<Event>, cfg: Config)
    requires IsSession(evs)
    ensures Undisturbed(waiting, evs, |evs|, cfg)
    ensures Started(waiting, evs, |evs|, cfg)
            <==> evs[|evs| - 1].PutEvent? && Highest(evs) - (evs[0].n + Played(waiting, evs, cfg)) >= cfg.startFill
    ensures forall s: nat :: Started(waiting, evs, s, cfg) ==> s <= |evs|
  {
    hide Played, Highest, AbstractRun;
    assert evs[..|evs|] == evs;
  }

  lemma FirstWaits(waiting: bool, evs: seq<Event>, cfg: Config)
    requires |evs| == 1 && evs[0].PutEvent?
    ensures AbstractStep(Idle(waiting), evs[0], cfg).state.buffering == (waiting && cfg.startFill > 0)
    ensures AbstractRun(Idle(waiting), evs, cfg).state.buffering
            <==> !exists s: nat :: Started(waiting, evs, s, cfg) && Undisturbed(waiting, evs, s, cfg)
  {
    SyncStep(waiting, evs, cfg);
    RunSnoc(Idle(waiting), [], evs[0], cfg);
    assert [] + [evs[0]] == evs && evs[..1] == evs;
    FramesSnoc([], AbstractStep(Idle(waiting), evs[0], cfg).output);
    assert Played(waiting, evs, cfg) == 0;
    assert Started(waiting, evs, 0, cfg) <==> !waiting;
    assert Started(waiting, evs, 1, cfg) <==> cfg.startFill == 0;
    assert Undisturbed(waiting, evs, 0, cfg) && Undisturbed(waiting, evs, 1, cfg);
  }

  lemma UndisturbedSnoc(waiting: bool, before: seq<Event>, ev: Event, s: nat, cfg: Config)
    requires s <= |before|
    ensures Undisturbed(waiting, before + [ev], s, cfg) <==>
      Undisturbed(waiting, before, s, cfg)
      && (ev.GetEvent? ==>
            AbstractStep(AbstractRun(Idle(waiting), before, cfg).state, ev, cfg).output.frame.Some?)
  {
    hide AbstractStep, AbstractRun;
    RunSnoc(Idle(waiting), before, ev, cfg);
    var evs, outs := before + [ev], AbstractRun(Idle(waiting), before + [ev], cfg).outputs;
    var earlier := AbstractRun(Idle(waiting), before, cfg).outputs;
    assert forall j :: 0 <= j < |before| ==> evs[j] == before[j] && outs[j] == earlier[j];
    assert evs[|before|] == ev;
  }

  lemma WaitingStep(st: Abstract, ev: Event, cfg: Config)
    requires st.Playing? && !ev.FlushEvent? && st.read <= st.write
    ensures var step := AbstractStep(st, ev, cfg);
      && step.state.Playing?
      && (ev.PutEvent? ==> step.state.buffering == (st.buffering && step.state.write - step.state.read < cfg.startFill))
      && (ev.GetEvent? ==> step.state.buffering == step.output.frame.None?)
      && (ev.GetEvent? && step.output.frame.Some? ==> !st.buffering)
  {
    hide MissingAt;
  }

  // ----- Last-chance requests -----

  /** d is i, 2i, 4i, .. and below the limit. */
  ghost predicate Doubled(d: int, i: nat, limit: int) {
    d < limit && exists k: nat :: d == i * Pow2(k)
  }

  lemma DoubleProduct(i: nat, k: nat)
    ensures 2 * i * Pow2(k) == i * Pow2(k + 1) && i * Pow2(k) >= i && i * Pow2(0) == i
  {
    var p := Pow2(k);
    assert Pow2(k + 1) == 2 * p;
    assert 2 * i * p == i * (2 * p);
    assert i * p >= i * 1;
  }

  lemma DoubledStep(d: int, i: nat, limit: int)
    requires i >= 1
    ensures Doubled(d, i, limit) <==> i < limit && (d == i || Doubled(d, 2 * i, limit))
  {
    hide Pow2;
    DoubleProduct(i, 0);
    if Doubled(d, i, limit) {
      var k: nat :| d == i * Pow2(k);
      DoubleProduct(i, k);
      if k > 0 {
        DoubleProduct(i, k - 1);
      }
    }
    if Doubled(d, 2 * i, limit) {
      var k: nat :| d == 2 * i * Pow2(k);
      DoubleProduct(i, k);
      DoubleProduct(i, k + 1);
    }
  }

  /** Which numbers the scan asks for: those at distances i, 2i, 4i, .. below the
      limit that have not been accepted. */
  lemma {:induction false} MissingMeaning(accepted: map<int, Frame>, read: int, i: nat, limit: int, n: int)
    requires i >= 1
    ensures (n, n) in MissingAt(accepted, read, i, limit) <==> n !in accepted && Doubled(n - read, i, limit)
    ensures forall r <- MissingAt(accepted, read, i, limit) :: r.0 == r.1
    decreases limit - i
  {
    hide Doubled;
    DoubledStep(n - read, i, limit);
    if i < limit {
      MissingMeaning(accepted, read, 2 * i, limit, n);
    }
  }

  /** A get that plays asks for the missing numbers 16, 32, 64, .. after the next
      one, up to half of the start fill. */
  lemma GetAsksFor(a: Abstract, cfg: Config, n: int)
    requires a.Playing? && AbstractStep(a, GetEvent, cfg).output.frame.Some?
    ensures (n, n) in AbstractStep(a, GetEvent, cfg).output.resends
            <==> n !in a.accepted && Doubled(n - (a.read + 1), 16, cfg.startFill / 2)
  {
    hide MissingAt, Doubled;
    MissingMeaning(a.accepted, a.read + 1, 16, cfg.startFill / 2, n);
  }

  // ----- Sessions of the ring, anywhere in a run -----

  lemma {:induction false} RunAppend(a: Abstract, pre: seq<Event>, evs: seq<Event>, cfg: Config)
    ensures var before := AbstractRun(a, pre, cfg);
      && AbstractRun(a, pre + evs, cfg).state == AbstractRun(before.state, evs, cfg).state
      && AbstractRun(a, pre + evs, cfg).outputs == before.outputs + AbstractRun(before.state, evs, cfg).outputs
    decreases |evs|
  {
    hide AbstractStep;
    if evs == [] {
      assert pre + evs == pre;
    } else {
      var last := |evs| - 1;
      assert (pre + evs)[..|pre + evs| - 1] == pre + evs[..last];
      RunAppend(a, pre, evs[..last], cfg);
    }
  }

  /** The frames the ring delivers, in order. */
  function Delivered(outs: seq<Observed>): seq<Frame> {
    if outs == [] then []
    else
      var last := outs[|outs| - 1].frame;
      Delivered(outs[..|outs| - 1]) + if last.Some? then [last.value] else []
  }

  lemma {:induction false} DeliveredAsFrames(outs: seq<Observed>, model: seq<Output>, from: nat)
    requires from <= |outs| == |model| && forall i :: 0 <= i < |outs| ==> SameOutput(outs[i], model[i])
    ensures Delivered(outs[from..]) == Frames(model[from..])
    decreases |outs|
  {
    if from < |outs| {
      var last := |outs| - 1;
      DeliveredAsFrames(outs[..last], model[..last], from);
      assert outs[from..][..last - from] == outs[..last][from..]
          && model[from..][..last - from] == model[..last][from..];
    }
  }

  /** A session starts at the beginning or after a flush. */
  predicate Starts(a: Abstract, pre: seq<Event>) {
    if pre == [] then a.Idle? else pre[|pre| - 1].FlushEvent?
  }

  function WaitingAt(a: Abstract, pre: seq<Event>): bool
    requires Starts(a, pre)
  {
    pre != [] || a.buffering
  }

  lemma StartsIdle(a: Abstract, pre: seq<Event>, cfg: Config)
    requires Starts(a, pre)
    ensures AbstractRun(a, pre, cfg).state == Idle(WaitingAt(a, pre))
  {
  }

  /** What a session of the ring delivers, after any earlier sessions: the next
      frame is the last one accepted for the number that follows those already
      delivered, or silence; none while buffering, or when only one is left. */
  lemma RingDelivers(st: State, a: Abstract, pre: seq<Event>, evs: seq<Event>, cfg: Config)
    requires Refines(st, a) && ConfigOk(cfg) && Starts(a, pre) && IsSession(evs) && LegalRun(a, pre + evs, cfg)
    ensures IsState(st)
    ensures var waiting, run := WaitingAt(a, pre), ConcreteRun(st, pre + evs, cfg);
      var next := evs[0].n + |Delivered(run.outputs[|pre|..])|;
      var out := ConcreteRun(st, pre + evs + [GetEvent], cfg).outputs[|pre + evs|].frame;
      && (out.None? <==> run.state.buffering || next == Highest(evs))
      && (out.Some? ==> out.value == OrSilence(LastAccepted(waiting, evs, next, cfg), cfg))
  {
    hide AbstractRun, ConcreteRun, LastAccepted, Highest, Refines, LegalRun, AbstractStep, IsSession, Played;
    StateOf(st, a);
    var waiting, all := WaitingAt(a, pre), pre + evs;
    var run, model := ConcreteRun(st, all, cfg), AbstractRun(a, all, cfg);
    StartsIdle(a, pre, cfg);
    RunAppend(a, pre, evs, cfg);
    RunRefines(st, a, all, cfg);
    GetIsLegal(a, all, cfg);
    RunRefines(st, a, all + [GetEvent], cfg);
    RunSnoc(a, all, GetEvent, cfg);
    RunSnoc(Idle(waiting), evs, GetEvent, cfg);
    SessionDelivers(waiting, evs, cfg);
    assert model.outputs[|pre|..] == AbstractRun(Idle(waiting), evs, cfg).outputs;
    DeliveredAsFrames(run.outputs, model.outputs, |pre|);
    PlayedIs(waiting, evs, cfg);
    SameBuffering(run.state, model.state);
  }

  lemma PlayedIs(waiting: bool, evs: seq<Event>, cfg: Config)
    ensures Played(waiting, evs, cfg) == |Frames(AbstractRun(Idle(waiting), evs, cfg).outputs)|
  {
  }

  lemma SameBuffering(st: State, a: Abstract)
    requires Refines(st, a)
    ensures st.buffering == a.buffering
  {
  }

  lemma GetIsLegal(a: Abstract, evs: seq<Event>, cfg: Config)
    requires LegalRun(a, evs, cfg)
    ensures LegalRun(a, evs + [GetEvent], cfg)
  {
    assert (evs + [GetEvent])[..|evs|] == evs;
  }

  lemma RunNothing(a: Abstract, cfg: Config)
    ensures AbstractRun(a, [], cfg) == Run(a, [])
  {
  }

  lemma RunSnoc(a: Abstract, evs: seq<Event>, ev: Event, cfg: Config)
    ensures var step := AbstractStep(AbstractRun(a, evs, cfg).state, ev, cfg);
      && AbstractRun(a, evs + [ev], cfg).state == step.state
      && AbstractRun(a, evs + [ev], cfg).outputs == AbstractRun(a, evs, cfg).outputs + [step.output]
  {
    assert (evs + [ev])[..|evs|] == evs;
  }

  // ----- Resend coverage -----

  /** The arrival of n moved the write cursor. */
  predicate Advanced(evs: seq<Event>, n: int)
    requires IsSession(evs)
  {
    var last := |evs| - 1;
    if last == 0 then n == evs[0].n
    else (evs[last].PutEvent? && evs[last].n == n && n > Highest(evs[..last])) || Advanced(evs[..last], n)
  }

  /** An arriving packet made the player ask for n. */
  predicate Requested(waiting: bool, evs: seq<Event>, n: int, cfg: Config) {
    evs != [] &&
      var last := |evs| - 1;
      var resends := AbstractRun(Idle(waiting), evs, cfg).outputs[last].resends;
      || (evs[last].PutEvent? && resends != [] && resends[0].0 <= n <= resends[0].1)
      || Requested(waiting, evs[..last], n, cfg)
  }

  /** Packets that moved the cursor and requests for gaps are disjoint, and
      together they are everything from the sync to the highest number. */
  lemma {:induction false} GapsAreRequested(waiting: bool, evs: seq<Event>, n: int, cfg: Config)
    requires IsSession(evs)
    ensures !(Advanced(evs, n) && Requested(waiting, evs, n, cfg))
    ensures Advanced(evs, n) || Requested(waiting, evs, n, cfg) <==> evs[0].n <= n <= Highest(evs)
  {
    hide LastAccepted, MissingAt, Played, AbstractRun, AbstractStep;
    var last := |evs| - 1;
    var before := evs[..last];
    var st := AbstractRun(Idle(waiting), before, cfg).state;
    assert evs == before + [evs[last]];
    RunSnoc(Idle(waiting), before, evs[last], cfg);
    if last == 0 {
      RunNothing(Idle(waiting), cfg);
      SyncAsksNothing(waiting, evs[0], cfg);
    } else {
      GapsAreRequested(waiting, before, n, cfg);
      SessionState(waiting, before, cfg);
      PutAsksForGap(st, evs[last], cfg);
    }
  }

  lemma SyncAsksNothing(waiting: bool, ev: Event, cfg: Config)
    requires ev.PutEvent?
    ensures AbstractStep(Idle(waiting), ev, cfg).output.resends == []
  {
  }

  /** The gap between the cursor and an arriving packet, if any. */
  lemma PutAsksForGap(st: Abstract, ev: Event, cfg: Config)
    requires st.Playing?
    ensures ev.PutEvent? ==> AbstractStep(st, ev, cfg).output.resends
                             == if ev.n > st.write + 1 then [(st.write + 1, ev.n - 1)] else []
  {
  }

  /** rtp_request_resend: the packet for a range. */
  function ResendPacket(r: Range): seq<byte> {
    var count := Wire(r.last as int - r.first + 1);
    [0x80, 0xD5, 0, 1, r.first / 256, r.first % 256, count / 256, count % 256]
  }

  method RtpRequestResend(first: uint16, last: uint16) returns (req: array<byte>)
    ensures fresh(req) && req[..] == ResendPacket(Range(first, last))
  {
    req := new byte[8];
    req[0], req[1] := 0x80, 0x55 + 0x80;
    req[2], req[3] := 0, 1;
    req[4], req[5] := first / 256, first % 256;
    var count := Wire(last as int - first + 1);
    req[6], req[7] := count / 256, count % 256;
  }

  /** The 16-bit fields of a request give the first missing number and the size of the gap. */
  lemma ResendPacketCounts(first: int, last: int)
    requires 0 <= last - first < SEQ_RANGE - 1
    ensures var req := ResendPacket(Range(Wire(first), Wire(last)));
      && req[..4] == [0x80, 0x55 + 0x80, 0, 1]
      && req[4] as int * 256 + req[5] == first % 0x1_0000
      && req[6] as int * 256 + req[7] == last - first + 1
  {
    hide Wire;
    CountOfWire(first, last);
  }

  lemma CountOfWire(first: int, last: int)
    requires 0 <= last - first < SEQ_RANGE - 1
    ensures Wire(Wire(last) as int - Wire(first) + 1) == last - first + 1 && Wire(first) == first % SEQ_RANGE
  {
  }

  // ----- The player's variables -----

  class AudioBuffer {
    const cfg: Config
    var abRead: uint16
    var abWrite: uint16
    var abBuffering: bool
    var abSynced: bool
    const audioBuffer: array<Slot>

    predicate Valid()
      reads this
    {
      audioBuffer.Length == BUFFER_FRAMES && ConfigOk(cfg)
    }

    function Current(): (st: State)
      reads this, audioBuffer
    {
      State(abRead, abWrite, abBuffering, abSynced, audioBuffer[..])
    }

    constructor (cfg: Config)
      requires ConfigOk(cfg)
      ensures Valid() && Refines(Current(), Idle(true)) && this.cfg == cfg
    {
      this.cfg := cfg;
      audioBuffer := new Slot[BUFFER_FRAMES](_ => Slot(false, []));
      abRead, abWrite, abBuffering, abSynced := 0, 0, true, false;
    }

    method PlayerPutPacket(seqno: uint16, frame: Frame) returns (resends: seq<Range>)
      requires Valid()
      modifies this, audioBuffer
      ensures Valid() && PutResult(Current(), resends) == Put(old(Current()), seqno, frame, cfg)
    {
      hide Wire, SignedDiff, SeqDiff;
      resends := [];
      if !abSynced {
        abWrite := Wire(seqno as int - 1);
        abRead := seqno;
        abSynced := true;
      }
      var abuf := -1;
      if SeqDiff(abWrite, seqno) == 1 {
        abuf := BufIdx(seqno);
        abWrite := seqno;
      } else if SeqOrder(abWrite, seqno) {
        resends := [Range(Wire(abWrite as int + 1), Wire(seqno as int - 1))];
        abuf := BufIdx(seqno);
        abWrite := seqno;
      } else if SeqOrder(abRead, seqno) {
        abuf := BufIdx(seqno);
      }
      var fill := SignedDiff(abRead, abWrite);
      if abuf >= 0 {
        audioBuffer[abuf] := Slot(true, frame);
      }
      if abBuffering && fill >= cfg.startFill {
        abBuffering := false;
      }
    }

    /** The scan for last-chance requests. */
    method ScanAhead() returns (resends: seq<Range>)
      requires Valid()
      ensures resends == LastChance(audioBuffer[..], abRead, 16, cfg.startFill / 2)
    {
      hide Wire, BufIdx;
      resends := [];
      var i := 16;
      while i < cfg.startFill / 2
        invariant i >= 1
        invariant resends + LastChance(audioBuffer[..], abRead, i, cfg.startFill / 2)
            == LastChance(audioBuffer[..], abRead, 16, cfg.startFill / 2)
      {
        var next := Wire(abRead as int + i);
        if !audioBuffer[BufIdx(next)].ready {
          resends := resends + [Range(next, next)];
        }
        i := i * 2;
      }
    }

    method BufferGetFrame() returns (frame: Option<Frame>, resends: seq<Range>)
      requires Valid()
      modifies this, audioBuffer
      ensures Valid() && GetResult(Current(), frame, resends) == Get(old(Current()), cfg)
    {
      hide Wire, SignedDiff, SeqDiff, BufIdx, LastChance;
      if abBuffering {
        return None, [];
      }
      var fill := SignedDiff(abRead, abWrite);
      if fill < 1 || !abSynced {
        abBuffering := true;
        return None, [];
      }
      if fill >= BUFFER_FRAMES {
        abRead := Wire(abWrite as int - cfg.startFill);
      }
      var read := abRead;
      abRead := Wire(abRead as int + 1);
      resends := ScanAhead();
      var slot := audioBuffer[BufIdx(read)];
      var data := if slot.ready then slot.data else cfg.silence;
      audioBuffer[BufIdx(read)] := Slot(false, data);
      return Some(data), resends;
    }

    method PlayerFlush()
      requires Valid()
      modifies this, audioBuffer
      ensures Valid() && Current() == Flush(old(Current()))
    {
      for i := 0 to BUFFER_FRAMES
        invariant unchanged(this)
        invariant forall j :: 0 <= j < BUFFER_FRAMES ==>
          audioBuffer[j] == if j < i then Slot(false, old(audioBuffer[j]).data) else old(audioBuffer[j])
      {
        audioBuffer[i] := audioBuffer[i].(ready := false);
      }
      abSynced := false;
      abBuffering := true;
      assert audioBuffer[..] == Flush(old(Current())).slots;
    }
  }
}

/** The jitter buffer of player.c beyond its limit: what the restart after an
    overrun plays, and exactly when it is the right frames. */
module JitterOverrun {
  import opened Arith
  import opened Wrappers
  import opened JitterBuffer

  // ----- The first frame after the restart -----

  /** An arrival that fills the ring beyond one turn. */
  predicate Overruns(a: Abstract, n: int) {
    a.Playing? && Near(n - a.write) && Near(n - a.read) && n - a.read >= BUFFER_FRAMES
  }

  /** The number whose frame is in the slot that the restart reads, when that
      is not the slot just written. */
  function Stale(a: Abstract, n: int, cfg: Config): int
    requires a.Playing?
  {
    Resident(a.read, BufIdx(Wire(n - cfg.startFill)))
  }

  /** What is played after an overrun, for number n - startFill. */
  lemma OverrunPlays(st: State, a: Abstract, n: int, frame: Frame, cfg: Config)
    requires Refines(st, a) && ConfigOk(cfg) && Overruns(a, n)
    ensures var g := Get(Put(st, Wire(n), frame, cfg).state, cfg);
      && g.frame == Some(if cfg.startFill % BUFFER_FRAMES == 0 then frame else Fetch(a.accepted, Stale(a, n, cfg), cfg))
      && g.state.read == Wire(n - cfg.startFill + 1)
  {
    hide Wire, SignedDiff, SeqDiff, Resident, BufIdx, LastChance;
    WireDiff(a.write, n);
    WireDiff(a.read, n);
    WireStep(n, -(cfg.startFill as int));
    WireStep(n - cfg.startFill, 1);
    SameSlot(n, cfg.startFill);
  }

  /** The slot read and the slot written are the same for a start fill of zero
      or of the whole ring. */
  lemma SameSlot(n: int, fill: nat)
    requires fill <= BUFFER_FRAMES
    ensures BufIdx(Wire(n - fill)) == BufIdx(Wire(n)) <==> fill % BUFFER_FRAMES == 0
  {
    hide Wire;
    WireMod(n);
    WireMod(n - fill);
    if fill % BUFFER_FRAMES != 0 && (n - fill) % BUFFER_FRAMES == n % BUFFER_FRAMES {
      SameResidue(n - fill, n);
    }
  }

  /** When the restart after an overrun plays what the unbounded map holds for
      its number, exactly: always with a start fill of zero; with a start fill
      of the whole ring if the new frame happens to be that of the number;
      otherwise if the number is within one turn of the old position, or the
      slot holds nothing but silence. */
  lemma OverrunPlaysRight(st: State, a: Abstract, n: int, frame: Frame, cfg: Config)
    requires Refines(st, a) && ConfigOk(cfg) && Overruns(a, n)
    ensures var r := n - cfg.startFill;
      Get(Put(st, Wire(n), frame, cfg).state, cfg).frame == Some(Fetch(a.accepted[n := frame], r, cfg))
      <==> if cfg.startFill == 0 then true
           else if cfg.startFill == BUFFER_FRAMES then Fetch(a.accepted, r, cfg) == frame
           else r < a.read + BUFFER_FRAMES || Fetch(a.accepted, Stale(a, n, cfg), cfg) == cfg.silence
  {
    hide Get, Put, Wire, Resident, BufIdx, SlotsHold;
    OverrunPlays(st, a, n, frame, cfg);
    var r := n - cfg.startFill;
    if r < a.read + BUFFER_FRAMES {
      SlotOf(a.read, r, BufIdx(Wire(r)));
    }
  }

  /** A run that goes wrong at once: the overrun branch leaves old frames ready,
      and number 512, which never arrived, is played as the frame of number 0. */
  lemma OverrunPlaysStaleFrame(stale: Frame, later: Frame, silence: Frame, slots: seq<Slot>)
    requires |slots| == BUFFER_FRAMES
    ensures var cfg := Config(1, silence);
      var first := Put(State(0, 0, true, false, slots), 0, stale, cfg).state;
      var second := Put(first, 513, later, cfg).state;
      && Get(second, cfg).frame == Some(stale) && Get(second, cfg).state.read == 513
    ensures !Legal(Playing(0, 0, map[0 := stale], true), PutEvent(513, later))
  {
    hide LastChance;
    WireDiff(-1, 0);
    WireDiff(0, 513);
    WireDiff(0, 0);
  }

  // ----- The ring after the restart -----

  /** The ring as the restart leaves it: the get moves the read cursor first. */
  function Restarted(st: State, n: int, frame: Frame, cfg: Config): (r: State)
    requires IsState(st)
    ensures IsState(r)
  {
    Put(st, Wire(n), frame, cfg).state.(read := Wire(n - cfg.startFill))
  }

  /** The map that restarts at the same number. */
  function RestartedMap(a: Abstract, n: int, frame: Frame, cfg: Config): Abstract
    requires a.Playing?
  {
    Playing(n - cfg.startFill, n, a.accepted[n := frame], false)
  }

  lemma PutOverruns(st: State, a: Abstract, n: int, frame: Frame, cfg: Config)
    requires Refines(st, a) && ConfigOk(cfg) && Overruns(a, n)
    ensures IsState(st)
    ensures Put(st, Wire(n), frame, cfg).state
         == State(st.read, Wire(n), false, true, st.slots[BufIdx(Wire(n)) := Slot(true, frame)])
  {
    hide Wire, SignedDiff, SeqDiff, BufIdx, SlotsHold;
    WireDiff(a.write, n);
    WireDiff(a.read, n);
  }

  /** A get that restarts is a get of the restarted ring. */
  lemma GetRestarts(st: State, a: Abstract, n: int, frame: Frame, cfg: Config)
    requires Refines(st, a) && ConfigOk(cfg) && Overruns(a, n) && 1 <= cfg.startFill < BUFFER_FRAMES
    ensures IsState(st)
    ensures Get(Put(st, Wire(n), frame, cfg).state, cfg) == Get(Restarted(st, n, frame, cfg), cfg)
  {
    hide Wire, SignedDiff, SeqDiff, BufIdx, SlotsHold, LastChance;
    PutOverruns(st, a, n, frame, cfg);
    WireDiff(a.read, n);
    WireDiff(n - cfg.startFill, n);
    WireStep(n, -(cfg.startFill as int));
  }

  /** What a get plays from a slot. */
  function Plays(s: Slot, cfg: Config): Frame {
    if s.ready then s.data else cfg.silence
  }

  /** Slot by slot: what the restart makes of a slot depends on whether it skips
      the slot's number and whether that number had been accepted. */
  lemma SlotAfterRestart(st: State, a: Abstract, n: int, frame: Frame, cfg: Config, j: nat)
    requires Refines(st, a) && ConfigOk(cfg) && Overruns(a, n) && cfg.startFill < BUFFER_FRAMES && j < BUFFER_FRAMES
    ensures IsState(st)
    ensures var slot, m := Restarted(st, n, frame, cfg).slots[j], Resident(a.read, j);
      var accepted, m' := a.accepted[n := frame], Resident(n - cfg.startFill, j);
      var skipped := j != BufIdx(Wire(n)) && m < n - cfg.startFill;
      && (slot.ready == (m' in accepted) && (slot.ready ==> slot.data == accepted[m'])
          <==> !(skipped && m in a.accepted))
      && (Plays(slot, cfg) == Fetch(accepted, m', cfg) <==> !(skipped && Fetch(a.accepted, m, cfg) != cfg.silence))
  {
    hide Resident, Wire, BufIdx, Put;
    var r := n - cfg.startFill;
    PutOverruns(st, a, n, frame, cfg);
    SlotOf(r, n, j);
    ResidentRange(a.read, j);
    ResidentRange(r, j);
    var m, m' := Resident(a.read, j), Resident(r, j);
    if m >= r {
      SameResidue(m, m');
    } else if m' < m + BUFFER_FRAMES {
      SameResidue(m, m');
    }
  }

  /** A skipped number of the map lives in its slot, and in no slot that n takes
      unless it has the residue of n. */
  lemma SkippedSlot(a: Abstract, n: int, k: int)
    requires a.Playing? && a.read <= k < a.read + BUFFER_FRAMES
    ensures var j := k % BUFFER_FRAMES;
      Resident(a.read, j) == k && (j == BufIdx(Wire(n)) <==> k % BUFFER_FRAMES == n % BUFFER_FRAMES)
  {
    hide Resident, Wire;
    WireMod(n);
    ResidentRange(a.read, k % BUFFER_FRAMES);
    SameResidue(Resident(a.read, k % BUFFER_FRAMES), k);
  }

  /** Accepted and skipped by the restart, in a slot of its own. */
  predicate Skipped(a: Abstract, n: int, k: int, cfg: Config)
    requires a.Playing?
  {
    k in a.accepted && a.read <= k < n - cfg.startFill && k % BUFFER_FRAMES != n % BUFFER_FRAMES
  }

  /** The refinement survives an overrun exactly when the restart skips no
      accepted number, apart from one whose slot the new packet takes. */
  lemma RestartRefines(st: State, a: Abstract, n: int, frame: Frame, cfg: Config)
    requires Refines(st, a) && ConfigOk(cfg) && Overruns(a, n) && cfg.startFill < BUFFER_FRAMES
    ensures IsState(st)
    ensures Refines(Restarted(st, n, frame, cfg), RestartedMap(a, n, frame, cfg))
            <==> forall k <- a.accepted :: !Skipped(a, n, k, cfg)
  {
    hide Resident, Wire, BufIdx, Put;
    PutOverruns(st, a, n, frame, cfg);
    forall j: nat | j < BUFFER_FRAMES
      ensures var m := Resident(a.read, j);
        && m % BUFFER_FRAMES == j && a.read <= m
        && (j == BufIdx(Wire(n)) <==> m % BUFFER_FRAMES == n % BUFFER_FRAMES)
    {
      ResidentRange(a.read, j);
      SkippedSlot(a, n, Resident(a.read, j));
    }
    forall j: nat | j < BUFFER_FRAMES {
      SlotAfterRestart(st, a, n, frame, cfg, j);
    }
    forall k | k in a.accepted && Skipped(a, n, k, cfg)
      ensures !Refines(Restarted(st, n, frame, cfg), RestartedMap(a, n, frame, cfg))
    {
      SkippedSlot(a, n, k);
    }
  }

  // ----- Whether every later frame is right -----

  /** The cursors of the ring are those of the map. */
  predicate Tracks(st: State, a: Abstract) {
    && IsState(st) && a.Playing?
    && st.synced && st.buffering == a.buffering
    && st.read == Wire(a.read) && st.write == Wire(a.write)
    && a.read <= a.write < a.read + BUFFER_FRAMES
    && forall n <- a.accepted :: n <= a.write
  }

  /** From each slot a get would play what is due for the slot's number. */
  predicate SlotsPlay(slots: seq<Slot>, read: int, accepted: map<int, Frame>, cfg: Config) {
    && |slots| == BUFFER_FRAMES
    && forall j :: 0 <= j < BUFFER_FRAMES ==> Plays(slots[j], cfg) == Fetch(accepted, Resident(read, j), cfg)
  }

  /** Like Refines, but an empty slot is as good as one that holds silence. */
  predicate PlaysLike(st: State, a: Abstract, cfg: Config) {
    if a.Idle? then Refines(st, a) else Tracks(st, a) && SlotsPlay(st.slots, a.read, a.accepted, cfg)
  }

  lemma RefinesPlaysLike(st: State, a: Abstract, cfg: Config)
    requires Refines(st, a)
    ensures PlaysLike(st, a, cfg)
  {
    hide Resident, Wire;
  }

  lemma StorePlays(slots: seq<Slot>, read: int, n: int, accepted: map<int, Frame>, frame: Frame, cfg: Config)
    requires SlotsPlay(slots, read, accepted, cfg) && read <= n < read + BUFFER_FRAMES
    ensures SlotsPlay(slots[BufIdx(Wire(n)) := Slot(true, frame)], read, accepted[n := frame], cfg)
  {
    hide Resident, Wire, BufIdx;
    forall j: nat | j < BUFFER_FRAMES {
      SlotOf(read, n, j);
    }
  }

  lemma TakePlays(slots: seq<Slot>, read: int, accepted: map<int, Frame>, data: Frame, cfg: Config)
    requires SlotsPlay(slots, read, accepted, cfg) && forall n <- accepted :: n < read + BUFFER_FRAMES
    ensures SlotsPlay(slots[BufIdx(Wire(read)) := Slot(false, data)], read + 1, accepted, cfg)
  {
    hide Resident, Wire, BufIdx;
    var after := slots[BufIdx(Wire(read)) := Slot(false, data)];
    forall j | 0 <= j < BUFFER_FRAMES
      ensures Plays(after[j], cfg) == Fetch(accepted, Resident(read + 1, j), cfg)
    {
      ResidentMoves(read, j);
      assert j != BufIdx(Wire(read)) ==> after[j] == slots[j];
    }
  }

  /** What a legal packet does to the cursors and to one slot of the ring. */
  lemma PutTracks(st: State, a: Abstract, n: int, frame: Frame, cfg: Config)
    requires Tracks(st, a) && ConfigOk(cfg) && Legal(a, PutEvent(n, frame))
    ensures var next, r := AbstractStep(a, PutEvent(n, frame), cfg).state, Put(st, Wire(n), frame, cfg).state;
      && Tracks(r, next) && next.read == a.read
      && (if n > a.read
          then r.slots == st.slots[BufIdx(Wire(n)) := Slot(true, frame)] && next.accepted == a.accepted[n := frame]
          else r.slots == st.slots && next.accepted == a.accepted)
  {
    hide Wire, SignedDiff, SeqDiff, BufIdx;
    WireDiff(a.write, n);
    WireDiff(a.read, n);
    WireDiff(a.read, a.write);
    WireDiff(a.read, n);
  }

  /** What a get does, where there is something to play. */
  lemma GetTracks(st: State, a: Abstract, cfg: Config)
    requires Tracks(st, a) && ConfigOk(cfg)
    ensures var next, r := AbstractStep(a, GetEvent, cfg), Get(st, cfg);
      && Tracks(r.state, next.state) && next.state.accepted == a.accepted
      && if a.buffering || a.write == a.read
         then r.frame == next.output.frame == None && next.state.read == a.read && r.state.slots == st.slots
         else
           && var slot := st.slots[BufIdx(Wire(a.read))];
           && next.state.read == a.read + 1 && !next.state.buffering && next.state.write == a.write
           && r.frame == Some(Plays(slot, cfg)) && next.output.frame == Some(Fetch(a.accepted, a.read, cfg))
           && r.state.slots == st.slots[BufIdx(Wire(a.read)) := Slot(false, Plays(slot, cfg))]
  {
    hide Wire, SignedDiff, SeqDiff, BufIdx, LastChance, MissingAt;
    WireDiff(a.read, a.write);
    WireStep(a.read, 1);
  }

  lemma StepPlaysLike(st: State, a: Abstract, ev: Event, cfg: Config)
    requires PlaysLike(st, a, cfg) && ConfigOk(cfg) && Legal(a, ev)
    ensures IsState(st)
    ensures PlaysLike(ConcreteStep(st, ev, cfg).0, AbstractStep(a, ev, cfg).state, cfg)
    ensures ConcreteStep(st, ev, cfg).1.frame == AbstractStep(a, ev, cfg).output.frame
  {
    hide Put, Get, Resident, Wire, BufIdx, SlotsPlay, AbstractStep, Legal;
    if a.Idle? {
      StepRefines(st, a, ev, cfg);
      RefinesPlaysLike(ConcreteStep(st, ev, cfg).0, AbstractStep(a, ev, cfg).state, cfg);
    } else {
      match ev
      case PutEvent(n, frame) => PutPlaysLike(st, a, n, frame, cfg);
      case GetEvent => GetPlaysLike(st, a, cfg);
      case FlushEvent => FlushPlaysLike(st, a, cfg);
    }
  }

  lemma PutPlaysLike(st: State, a: Abstract, n: int, frame: Frame, cfg: Config)
    requires PlaysLike(st, a, cfg) && a.Playing? && ConfigOk(cfg) && Legal(a, PutEvent(n, frame))
    ensures IsState(st)
    ensures PlaysLike(Put(st, Wire(n), frame, cfg).state, AbstractStep(a, PutEvent(n, frame), cfg).state, cfg)
    ensures AbstractStep(a, PutEvent(n, frame), cfg).output.frame == None
  {
    hide Put, Wire, BufIdx, SlotsPlay;
    PutTracks(st, a, n, frame, cfg);
    if n > a.read {
      StorePlays(st.slots, a.read, n, a.accepted, frame, cfg);
    }
  }

  lemma GetPlaysLike(st: State, a: Abstract, cfg: Config)
    requires PlaysLike(st, a, cfg) && a.Playing? && ConfigOk(cfg)
    ensures IsState(st)
    ensures PlaysLike(Get(st, cfg).state, AbstractStep(a, GetEvent, cfg).state, cfg)
    ensures Get(st, cfg).frame == AbstractStep(a, GetEvent, cfg).output.frame
  {
    hide Get, Wire, BufIdx, Resident, AbstractStep;
    GetTracks(st, a, cfg);
    if !a.buffering && a.write != a.read {
      var slot := st.slots[BufIdx(Wire(a.read))];
      SlotOf(a.read, a.read, BufIdx(Wire(a.read)));
      TakePlays(st.slots, a.read, a.accepted, Plays(slot, cfg), cfg);
    }
  }

  lemma FlushPlaysLike(st: State, a: Abstract, cfg: Config)
    requires IsState(st)
    ensures PlaysLike(Flush(st), AbstractStep(a, FlushEvent, cfg).state, cfg)
    ensures AbstractStep(a, FlushEvent, cfg).output.frame == None
  {
  }

  /** The two levels play the same. */
  predicate FramesAgree(st: State, a: Abstract, evs: seq<Event>, cfg: Config)
    requires IsState(st)
  {
    forall i :: 0 <= i < |evs| ==>
      ConcreteRun(st, evs, cfg).outputs[i].frame == AbstractRun(a, evs, cfg).outputs[i].frame
  }

  lemma {:induction false} RunPlaysLike(st: State, a: Abstract, evs: seq<Event>, cfg: Config)
    requires PlaysLike(st, a, cfg) && ConfigOk(cfg) && LegalRun(a, evs, cfg)
    ensures IsState(st)
    ensures PlaysLike(ConcreteRun(st, evs, cfg).state, AbstractRun(a, evs, cfg).state, cfg)
        && FramesAgree(st, a, evs, cfg)
  {
    hide PlaysLike, ConcreteStep, AbstractStep, Legal;
    PlaysLikeState(st, a, cfg);
    if evs != [] {
      var last := |evs| - 1;
      RunPlaysLike(st, a, evs[..last], cfg);
      StepPlaysLike(ConcreteRun(st, evs[..last], cfg).state, AbstractRun(a, evs[..last], cfg).state, evs[last], cfg);
    }
  }

  lemma PlaysLikeState(st: State, a: Abstract, cfg: Config)
    requires PlaysLike(st, a, cfg)
    ensures IsState(st)
  {
  }

  // ----- A run that reaches a wrong slot -----

  /** The slot of number m would play something else than is due. */
  predicate WrongAt(st: State, a: Abstract, m: int, cfg: Config) {
    && Tracks(st, a) && !a.buffering && a.read <= m < a.read + BUFFER_FRAMES
    && Plays(st.slots[BufIdx(Wire(m))], cfg) != Fetch(a.accepted, m, cfg)
  }

  /** A legal run, and where it leads on both levels. */
  predicate LeadsTo(st: State, a: Abstract, evs: seq<Event>, st': State, a': Abstract, cfg: Config) {
    && IsState(st) && LegalRun(a, evs, cfg)
    && ConcreteRun(st, evs, cfg).state == st' && AbstractRun(a, evs, cfg).state == a'
  }

  lemma LeadsOn(st: State, a: Abstract, evs: seq<Event>, st': State, a': Abstract, ev: Event, cfg: Config)
    requires LeadsTo(st, a, evs, st', a', cfg) && Legal(a', ev)
    ensures IsState(st')
    ensures LeadsTo(st, a, evs + [ev], ConcreteStep(st', ev, cfg).0, AbstractStep(a', ev, cfg).state, cfg)
    ensures FramesAgree(st, a, evs + [ev], cfg)
            ==> ConcreteStep(st', ev, cfg).1.frame == AbstractStep(a', ev, cfg).output.frame
  {
    hide ConcreteStep, AbstractStep, Legal;
    assert (evs + [ev])[..|evs|] == evs;
    if FramesAgree(st, a, evs + [ev], cfg) {
      assert ConcreteRun(st, evs + [ev], cfg).outputs[|evs|].frame
          == AbstractRun(a, evs + [ev], cfg).outputs[|evs|].frame;
    }
  }

  /** A get that does not reach m leaves its slot wrong. */
  lemma WrongAfterGet(st: State, a: Abstract, m: int, cfg: Config)
    requires WrongAt(st, a, m, cfg) && ConfigOk(cfg) && a.write > a.read && m > a.read
    ensures WrongAt(Get(st, cfg).state, AbstractStep(a, GetEvent, cfg).state, m, cfg)
    ensures AbstractStep(a, GetEvent, cfg).state.read == a.read + 1
  {
    hide Get, Wire, BufIdx, AbstractStep, Tracks, Fetch;
    TracksState(st, a);
    GetTracks(st, a, cfg);
    SlotOf(a.read, a.read, BufIdx(Wire(m)));
    SlotOf(a.read, m, BufIdx(Wire(m)));
  }

  lemma TracksState(st: State, a: Abstract)
    requires Tracks(st, a)
    ensures IsState(st) && a.Playing?
  {
  }

  /** So does a packet for another number. */
  lemma WrongAfterPut(st: State, a: Abstract, m: int, n: int, frame: Frame, cfg: Config)
    requires WrongAt(st, a, m, cfg) && ConfigOk(cfg) && a.write == a.read && a.read < n <= a.read + 2 && n != m
    ensures Legal(a, PutEvent(n, frame))
    ensures var next := AbstractStep(a, PutEvent(n, frame), cfg).state;
      WrongAt(Put(st, Wire(n), frame, cfg).state, next, m, cfg) && next.write > next.read == a.read
  {
    hide Put, Wire, BufIdx;
    PutTracks(st, a, n, frame, cfg);
    SlotOf(a.read, n, BufIdx(Wire(m)));
    SlotOf(a.read, m, BufIdx(Wire(m)));
  }

  /** From a wrong slot some legal run plays a wrong frame; `pre` is the run so far. */
  lemma {:induction false} WrongIsPlayed(st0: State, a0: Abstract, pre: seq<Event>, st: State, a: Abstract, m: int,
                                         cfg: Config)
    returns (evs: seq<Event>)
    requires LeadsTo(st0, a0, pre, st, a, cfg) && WrongAt(st, a, m, cfg) && ConfigOk(cfg)
    ensures IsState(st0)
    ensures LegalRun(a0, pre + evs, cfg) && !FramesAgree(st0, a0, pre + evs, cfg)
    ensures a.write > a.read ==> evs != [] && evs[0] == GetEvent
    decreases m - a.read, if a.write == a.read then 1 else 0
  {
    hide Get, Put, Wire, BufIdx, AbstractStep, Tracks, LegalRun, ConcreteRun, AbstractRun, FramesAgree;
    TracksState(st, a);
    if a.write == a.read {
      var n := if m == a.read + 1 then m + 1 else a.read + 1;
      var ev := PutEvent(n, []);
      CursorsOrdered(st, a);
      WrongAfterPut(st, a, m, n, [], cfg);
      LeadsOn(st0, a0, pre, st, a, ev, cfg);
      var rest := WrongIsPlayed(st0, a0, pre + [ev], ConcreteStep(st, ev, cfg).0, AbstractStep(a, ev, cfg).state, m,
                                cfg);
      evs := [ev] + rest;
      assert pre + evs == pre + [ev] + rest;
    } else {
      CursorsOrdered(st, a);
      LeadsOn(st0, a0, pre, st, a, GetEvent, cfg);
      if m == a.read {
        GetTracks(st, a, cfg);
        evs := [GetEvent];
      } else {
        WrongAfterGet(st, a, m, cfg);
        var rest := WrongIsPlayed(st0, a0, pre + [GetEvent], Get(st, cfg).state, AbstractStep(a, GetEvent, cfg).state,
                                  m, cfg);
        evs := [GetEvent] + rest;
        assert pre + evs == pre + [GetEvent] + rest;
      }
    }
  }

  lemma CursorsOrdered(st: State, a: Abstract)
    requires Tracks(st, a)
    ensures a.read <= a.write
  {
  }

  // ----- The exact condition -----

  /** From cursors that agree, every legal run that begins with a get plays the
      frames of the map, exactly when every slot plays what is due. */
  lemma FramesRight(st: State, a: Abstract, cfg: Config)
    requires Tracks(st, a) && !a.buffering && a.write > a.read && ConfigOk(cfg)
    ensures SlotsPlay(st.slots, a.read, a.accepted, cfg)
            <==> forall evs :: LegalRun(a, [GetEvent] + evs, cfg) ==> FramesAgree(st, a, [GetEvent] + evs, cfg)
  {
    hide LegalRun, FramesAgree, Wire, BufIdx, Resident;
    if SlotsPlay(st.slots, a.read, a.accepted, cfg) {
      forall evs | LegalRun(a, [GetEvent] + evs, cfg)
        ensures FramesAgree(st, a, [GetEvent] + evs, cfg)
      {
        RunPlaysLike(st, a, [GetEvent] + evs, cfg);
      }
    } else {
      var j: nat :| j < BUFFER_FRAMES && Plays(st.slots[j], cfg) != Fetch(a.accepted, Resident(a.read, j), cfg);
      var m := Resident(a.read, j);
      ResidentRange(a.read, j);
      SlotOf(a.read, m, j);
      NoEvents(st, a, cfg);
      var evs := WrongIsPlayed(st, a, [], st, a, m, cfg);
      assert [] + evs == [GetEvent] + evs[1..];
    }
  }

  lemma NoEvents(st: State, a: Abstract, cfg: Config)
    requires IsState(st)
    ensures LeadsTo(st, a, [], st, a, cfg)
  {
  }

  /** Equal gets are followed by equal runs. */
  lemma {:induction false} SameAfterGet(s: State, t: State, evs: seq<Event>, cfg: Config)
    requires IsState(s) && IsState(t) && Get(s, cfg) == Get(t, cfg)
    ensures ConcreteRun(s, [GetEvent] + evs, cfg) == ConcreteRun(t, [GetEvent] + evs, cfg)
    decreases |evs|
  {
    hide Get, Put, Flush;
    var all := [GetEvent] + evs;
    if evs == [] {
      assert all[..0] == [];
    } else {
      assert all[..|all| - 1] == [GetEvent] + evs[..|evs| - 1];
      SameAfterGet(s, t, evs[..|evs| - 1], cfg);
    }
  }

  /** After the first arrival that overruns the ring, all frames from the next get
      on are right, in every legal run, exactly when each accepted number that
      the restart skips in a slot of its own was silence. */
  lemma OverrunFramesRight(st: State, a: Abstract, n: int, frame: Frame, cfg: Config)
    requires Refines(st, a) && ConfigOk(cfg) && Overruns(a, n) && 1 <= cfg.startFill < BUFFER_FRAMES
    ensures IsState(st)
    ensures var after, restarted := Put(st, Wire(n), frame, cfg).state, RestartedMap(a, n, frame, cfg);
      (forall evs :: LegalRun(restarted, [GetEvent] + evs, cfg)
          ==> FramesAgree(after, restarted, [GetEvent] + evs, cfg))
      <==> forall k <- a.accepted :: Skipped(a, n, k, cfg) ==> a.accepted[k] == cfg.silence
  {
    hide Refines, Put, Get, LegalRun, FramesAgree, Wire, SlotsPlay, Skipped, RestartedMap;
    StateOf(st, a);
    var after, ring, restarted := Put(st, Wire(n), frame, cfg).state, Restarted(st, n, frame, cfg),
        RestartedMap(a, n, frame, cfg);
    GetRestarts(st, a, n, frame, cfg);
    RestartTracks(st, a, n, frame, cfg);
    RestartPlays(st, a, n, frame, cfg);
    FramesRight(ring, restarted, cfg);
    forall evs: seq<Event>
      ensures FramesAgree(after, restarted, [GetEvent] + evs, cfg)
          == FramesAgree(ring, restarted, [GetEvent] + evs, cfg)
    {
      SameFrames(after, ring, restarted, evs, cfg);
    }
  }

  lemma SameFrames(s: State, t: State, a: Abstract, evs: seq<Event>, cfg: Config)
    requires IsState(s) && IsState(t) && Get(s, cfg) == Get(t, cfg)
    ensures FramesAgree(s, a, [GetEvent] + evs, cfg) == FramesAgree(t, a, [GetEvent] + evs, cfg)
  {
    hide Get, ConcreteRun, AbstractRun;
    SameAfterGet(s, t, evs, cfg);
  }

  lemma RestartTracks(st: State, a: Abstract, n: int, frame: Frame, cfg: Config)
    requires Refines(st, a) && ConfigOk(cfg) && Overruns(a, n) && 1 <= cfg.startFill < BUFFER_FRAMES
    ensures IsState(st)
    ensures var restarted := RestartedMap(a, n, frame, cfg);
      Tracks(Restarted(st, n, frame, cfg), restarted) && !restarted.buffering && restarted.write > restarted.read
  {
    hide Put, Wire, BufIdx, SlotsHold;
    PutOverruns(st, a, n, frame, cfg);
  }

  lemma RestartPlays(st: State, a: Abstract, n: int, frame: Frame, cfg: Config)
    requires Refines(st, a) && ConfigOk(cfg) && Overruns(a, n) && cfg.startFill < BUFFER_FRAMES
    ensures IsState(st)
    ensures var restarted := RestartedMap(a, n, frame, cfg);
      SlotsPlay(Restarted(st, n, frame, cfg).slots, restarted.read, restarted.accepted, cfg)
      <==> forall k <- a.accepted :: Skipped(a, n, k, cfg) ==> a.accepted[k] == cfg.silence
  {
    hide Resident, Wire, BufIdx, Put;
    PutOverruns(st, a, n, frame, cfg);
    forall j: nat | j < BUFFER_FRAMES
      ensures var m := Resident(a.read, j);
        && m % BUFFER_FRAMES == j && a.read <= m
        && (j == BufIdx(Wire(n)) <==> m % BUFFER_FRAMES == n % BUFFER_FRAMES)
    {
      ResidentRange(a.read, j);
      SkippedSlot(a, n, Resident(a.read, j));
    }
    forall j: nat | j < BUFFER_FRAMES {
      SlotAfterRestart(st, a, n, frame, cfg, j);
    }
    forall k | k in a.accepted && Skipped(a, n, k, cfg) && a.accepted[k] != cfg.silence
      ensures !SlotsPlay(Restarted(st, n, frame, cfg).slots, n - cfg.startFill, a.accepted[n := frame], cfg)
    {
      SkippedSlot(a, n, k);
    }
  }

  /** And when the refinement survives, the requests are right as well. */
  lemma OverrunHarmless(st: State, a: Abstract, n: int, frame: Frame, evs: seq<Event>, cfg: Config)
    requires Refines(st, a) && ConfigOk(cfg) && Overruns(a, n) && 1 <= cfg.startFill < BUFFER_FRAMES
    requires forall k <- a.accepted :: !Skipped(a, n, k, cfg)
    requires LegalRun(RestartedMap(a, n, frame, cfg), [GetEvent] + evs, cfg)
    ensures IsState(st)
    ensures var after, restarted := Put(st, Wire(n), frame, cfg).state, RestartedMap(a, n, frame, cfg);
      forall i :: 0 <= i < 1 + |evs| ==>
        SameOutput(ConcreteRun(after, [GetEvent] + evs, cfg).outputs[i],
                   AbstractRun(restarted, [GetEvent] + evs, cfg).outputs[i])
  {
    hide Refines, Put, Get, LegalRun, Wire, Skipped, RestartedMap, ConcreteRun, AbstractRun;
    StateOf(st, a);
    RestartRefines(st, a, n, frame, cfg);
    GetRestarts(st, a, n, frame, cfg);
    SameAfterGet(Put(st, Wire(n), frame, cfg).state, Restarted(st, n, frame, cfg), evs, cfg);
    RunRefines(Restarted(st, n, frame, cfg), RestartedMap(a, n, frame, cfg), [GetEvent] + evs, cfg);
  }

  /** The two start fills at the edge. With zero the restart plays the new frame
      at once and then runs dry, its read cursor beyond its write cursor; with
      the whole ring it plays the new frame early and loses it. */
  lemma EdgeFills(st: State, a: Abstract, n: int, frame: Frame, cfg: Config)
    requires Refines(st, a) && ConfigOk(cfg) && Overruns(a, n) && cfg.startFill % BUFFER_FRAMES == 0
    ensures IsState(st)
    ensures var g := Get(Put(st, Wire(n), frame, cfg).state, cfg);
      && g.frame == Some(frame) && !g.state.slots[BufIdx(Wire(n))].ready
      && (cfg.startFill == 0 ==> g.state.read == Wire(n + 1)
                                 && Get(g.state, cfg).frame == None && Get(g.state, cfg).state.buffering)
  {
    hide Wire, SignedDiff, SeqDiff, BufIdx, LastChance, SlotsHold;
    PutOverruns(st, a, n, frame, cfg);
    WireDiff(a.read, n);
    WireDiff(n + 1, n);
    WireStep(n, -(cfg.startFill as int));
    WireStep(n - cfg.startFill, 1);
    SameSlot(n, cfg.startFill);
  }
}

/** Who plays: the trylock protocol between RTSP connection threads (rtsp.c) and
    the `running` flag of the one RTP session (rtp.c), as interleaved steps. */
module PlayerOwnership {
  import opened Wrappers

  type Thread = nat

  /** Why a thread asks whether it is playing: SETUP, a request that only asks
      (TEARDOWN, FLUSH), the end of its conversation, or program shutdown. */
  datatype Purpose = Setup | Ask | Leave | Shutdown

  /** Where a thread stands. */
  datatype Pc =
    | Unborn
    | Conversing
    | TryPlaying(k: Purpose)                 // rtsp_playing: before the trylock
    | Compare(k: Purpose)                    // the trylock failed
    | Release(k: Purpose)                    // the trylock succeeded: before the unlock
    | Returned(k: Purpose, playing: bool)    // rtsp_playing has returned
    | TryTake(k: Purpose)                    // rtsp_take_player: before its trylock
    | Block(k: Purpose)                      // waiting in pthread_mutex_lock
    | WriteOwner(k: Purpose)                 // holds the mutex: before the write to playing_thread
    | Taken(k: Purpose, taker: bool)         // rtsp_take_player has returned; taker: it took the mutex
    | SettingUp                              // rtp_setup, past its check
    | ShuttingDown                           // before rtp_shutdown
    | Unlocking                              // before the final unlock
    | Done
    | Died                                   // a check of `running` failed

  /** `owners` is a history variable: who has taken the player and not given it up. */
  datatype State = State(mutex: Option<Thread>, playingThread: Option<Thread>, running: bool, pcs: map<Thread, Pc>,
                         owners: set<Thread>)

  const INITIAL := State(None, None, false, map[], {})

  function PcOf(st: State, t: Thread): Pc {
    if t in st.pcs then st.pcs[t] else Unborn
  }

  function At(st: State, t: Thread, pc: Pc): State {
    st.(pcs := st.pcs[t := pc])
  }

  /** One step of one thread. A thread id is never used again after Done. */
  predicate Next(st: State, st': State, t: Thread) {
    match PcOf(st, t)
    case Unborn => st' == At(st, t, Conversing) || st' == At(st, t, TryPlaying(Shutdown))
    case Conversing =>
      || st' == At(st, t, TryPlaying(Setup))
      || st' == At(st, t, TryPlaying(Ask))
      || st' == At(st, t, TryPlaying(Leave))
    case TryPlaying(k) =>
      st' == if st.mutex.None? then At(st, t, Release(k)).(mutex := Some(t)) else At(st, t, Compare(k))
    case Compare(k) => st' == At(st, t, Returned(k, st.playingThread == Some(t)))
    case Release(k) => st' == At(st, t, Returned(k, false)).(mutex := None)
    case Returned(k, playing) => (
      match k
      case Ask => st' == At(st, t, Conversing)
      case Leave => st' == At(st, t, if playing then ShuttingDown else Done)
      case _ => st' == At(st, t, if playing then Taken(k, false) else TryTake(k)))
    case TryTake(k) =>
      st' == if st.mutex.None? then At(st, t, WriteOwner(k)).(mutex := Some(t)) else At(st, t, Block(k))
    case Block(k) => st.mutex.None? && st' == At(st, t, WriteOwner(k)).(mutex := Some(t))
    case WriteOwner(k) => st' == At(st, t, Taken(k, true)).(playingThread := Some(t), owners := st.owners + {t})
    case Taken(k, _) =>
      if k == Shutdown then st' == At(st, t, Done).(mutex := None, owners := st.owners - {t})
      else st' == At(st, t, if st.running then Died else SettingUp)
    case SettingUp => st' == At(st, t, Conversing).(running := true)
    case ShuttingDown => st' == if st.running then At(st, t, Unlocking).(running := false) else At(st, t, Died)
    case Unlocking => st' == At(st, t, Done).(mutex := None, owners := st.owners - {t})
    case Done => false
    case Died => false
  }

  ghost predicate SomeStep(st: State, st': State) {
    exists t: Thread :: Next(st, st', t)
  }

  /** Any interleaving of any number of threads. */
  ghost predicate IsRun(run: seq<State>) {
    && run != [] && run[0] == INITIAL
    && (|run| > 1 ==> IsRun(run[..|run| - 1]) && SomeStep(run[|run| - 2], run[|run| - 1]))
  }

  // ----- The invariant -----

  predicate Holds(st: State, t: Thread) {
    st.mutex == Some(t)
  }

  predicate Named(st: State, t: Thread) {
    st.playingThread == Some(t)
  }

  predicate Owns(st: State, t: Thread) {
    Holds(st, t) && Named(st, t)
  }

  /** Between its steps a thread either owns the player with a session running,
      or has nothing to do with the mutex and is not the named thread. */
  predicate Settled(st: State, t: Thread) {
    if Owns(st, t) then st.running else !Holds(st, t) && !Named(st, t)
  }

  predicate ThreadOk(st: State, t: Thread) {
    && (t in st.owners <==> Owns(st, t))
    && match PcOf(st, t)
       case Unborn => !Holds(st, t) && !Named(st, t)
       case Conversing => Settled(st, t)
       case TryPlaying(k) => Settled(st, t) && (k == Shutdown ==> !Owns(st, t))
       case Compare(k) => Settled(st, t) && (k == Shutdown ==> !Owns(st, t))
       case Release(_) => Holds(st, t) && !Named(st, t)
       case Returned(k, playing) => Settled(st, t) && playing == Owns(st, t) && (k == Shutdown ==> !playing)
       case TryTake(_) => !Holds(st, t) && !Named(st, t)
       case Block(_) => !Holds(st, t) && !Named(st, t)
       case WriteOwner(_) => Holds(st, t) && !Named(st, t)
       case Taken(k, taker) => Owns(st, t) && st.running == !taker && (!taker ==> k == Setup)
       case SettingUp => Owns(st, t) && !st.running
       case ShuttingDown => Owns(st, t) && st.running
       case Unlocking => Owns(st, t) && !st.running
       case Done => !Holds(st, t)
       case Died => Owns(st, t) && st.running
  }

  predicate SessionOwned(st: State) {
    st.running ==> st.mutex.Some? && st.playingThread == st.mutex
  }

  ghost predicate Inv(st: State) {
    SessionOwned(st) && forall t: Thread :: ThreadOk(st, t)
  }

  /** A step keeps the invariant for the thread that takes it. */
  lemma StepKeepsOwn(st: State, st': State, t: Thread)
    requires SessionOwned(st) && ThreadOk(st, t) && Next(st, st', t)
    ensures ThreadOk(st', t) && SessionOwned(st')
  {
  }

  /** And for every other thread. */
  lemma StepKeepsOther(st: State, st': State, t: Thread, u: Thread)
    requires SessionOwned(st) && ThreadOk(st, t) && ThreadOk(st, u) && t != u && Next(st, st', t)
    ensures ThreadOk(st', u)
  {
    assert PcOf(st', u) == PcOf(st, u);
  }

  lemma {:induction false} RunKeepsInv(run: seq<State>)
    requires IsRun(run)
    ensures Inv(run[|run| - 1])
    decreases |run|
  {
    hide Next, ThreadOk, SessionOwned;
    var last := |run| - 1;
    if last == 0 {
      InitialOk();
    } else {
      RunKeepsInv(run[..last]);
      var st, st' := run[last - 1], run[last];
      var t: Thread :| Next(st, st', t);
      StepKeepsOwn(st, st', t);
      forall u: Thread | u != t
        ensures ThreadOk(st', u)
      {
        StepKeepsOther(st, st', t, u);
      }
    }
  }

  lemma InitialOk()
    ensures Inv(INITIAL)
  {
  }

  // ----- Safety in every interleaving -----

  /** At most one thread has the player; rtsp_playing tells a thread the truth
      about itself; the session runs only while somebody has the player; only
      that thread starts or stops it. */
  lemma OwnershipSafety(run: seq<State>, t: Thread, u: Thread)
    requires IsRun(run)
    ensures var st := run[|run| - 1];
      && (t in st.owners && u in st.owners ==> t == u)
      && (PcOf(st, t).Returned? ==> (PcOf(st, t).playing <==> t in st.owners))
      && (st.running ==> st.owners != {})
      && (PcOf(st, t).SettingUp? || PcOf(st, t).ShuttingDown? || PcOf(st, t).Taken? ==> t in st.owners)
  {
    RunKeepsInv(run);
    var st := run[|run| - 1];
    assert ThreadOk(st, t) && ThreadOk(st, u);
    if st.running {
      assert ThreadOk(st, st.mutex.value);
      assert st.mutex.value in st.owners;
    }
  }

  /** Who finds `running` how: a fresh taker finds it clear, an owner that takes
      again finds it set, and rtp_shutdown always finds it set. So the checks
      of `running` fail only in a second SETUP by the owner. */
  lemma ChecksOfRunning(run: seq<State>, t: Thread)
    requires IsRun(run)
    ensures var st := run[|run| - 1];
      && (PcOf(st, t).Taken? ==> st.running == !PcOf(st, t).taker)
      && (PcOf(st, t).Taken? && !PcOf(st, t).taker ==> PcOf(st, t).k == Setup)
      && (PcOf(st, t) == ShuttingDown ==> st.running)
  {
    RunKeepsInv(run);
    assert ThreadOk(run[|run| - 1], t);
  }

  /** A thread dies exactly when it repeats SETUP while it has the player. */
  lemma DiesOnlyOnRepeatedSetup(run: seq<State>, st': State, t: Thread)
    requires IsRun(run) && Next(run[|run| - 1], st', t)
    ensures PcOf(st', t) == Died <==> PcOf(run[|run| - 1], t) == Taken(Setup, false)
  {
    RunKeepsInv(run);
    assert ThreadOk(run[|run| - 1], t);
  }

  // ----- From the start of the request -----

  /** Inside a SETUP request, before its check of `running` is decided. */
  predicate InSetup(pc: Pc) {
    match pc
    case TryPlaying(k) => k == Setup
    case Compare(k) => k == Setup
    case Release(k) => k == Setup
    case Returned(k, _) => k == Setup
    case TryTake(k) => k == Setup
    case Block(k) => k == Setup
    case WriteOwner(k) => k == Setup
    case Taken(k, _) => k == Setup
    case _ => false
  }

  /** What is left to happen in a request of a thread that did or did not have
      the player when it began. */
  predicate Course(st: State, t: Thread, had: bool) {
    match PcOf(st, t)
    case TryPlaying(_) => (t in st.owners) == had
    case Compare(_) => (t in st.owners) == had
    case Returned(_, playing) => playing == had
    case Taken(_, taker) => taker == !had
    case Died => had
    case _ => !had
  }

  lemma CourseStep(st: State, st': State, t: Thread, u: Thread, had: bool)
    requires SessionOwned(st) && ThreadOk(st, t) && ThreadOk(st, u) && Next(st, st', u)
    requires InSetup(PcOf(st, t)) && Course(st, t, had)
    ensures InSetup(PcOf(st', t)) || PcOf(st', t) == SettingUp || PcOf(st', t) == Died
    ensures Course(st', t, had)
  {
    if u != t {
      assert PcOf(st', t) == PcOf(st, t);
    }
  }

  lemma {:induction false} CourseOfSetup(run: seq<State>, i: nat, t: Thread)
    requires IsRun(run) && i < |run| && PcOf(run[i], t) == TryPlaying(Setup)
    requires forall k :: i <= k < |run| - 1 ==> InSetup(PcOf(run[k], t))
    ensures Course(run[|run| - 1], t, t in run[i].owners)
    decreases |run|
  {
    hide Next, ThreadOk, SessionOwned, Course, InSetup;
    var last := |run| - 1;
    if i == last {
      StartOfCourse(run[i], t);
    } else {
      var before := run[..last];
      assert before[i] == run[i];
      CourseOfSetup(before, i, t);
      RunKeepsInv(before);
      var u: Thread :| Next(run[last - 1], run[last], u);
      CourseStep(run[last - 1], run[last], t, u, t in run[i].owners);
    }
  }

  lemma StartOfCourse(st: State, t: Thread)
    requires PcOf(st, t) == TryPlaying(Setup)
    ensures Course(st, t, t in st.owners)
  {
  }

  /** A SETUP request ends in death exactly when its thread had the player as the
      request began, whatever other threads do meanwhile. */
  lemma SetupDiesIffOwner(run: seq<State>, i: nat, t: Thread)
    requires IsRun(run) && i < |run| - 1 && PcOf(run[i], t) == TryPlaying(Setup)
    requires forall k :: i <= k < |run| - 1 ==> InSetup(PcOf(run[k], t))
    requires !InSetup(PcOf(run[|run| - 1], t))
    ensures PcOf(run[|run| - 1], t) == if t in run[i].owners then Died else SettingUp
  {
    hide Next, ThreadOk, SessionOwned, IsRun, Course, InSetup;
    var last := |run| - 1;
    CourseOfSetup(run, i, t);
    LastStep(run);
    CourseOfSetup(run[..last], i, t);
    RunKeepsInv(run[..last]);
    var u: Thread :| Next(run[last - 1], run[last], u);
    CourseStep(run[last - 1], run[last], t, u, t in run[i].owners);
    EndOfCourse(run[last], t, t in run[i].owners);
  }

  lemma LastStep(run: seq<State>)
    requires IsRun(run) && |run| > 1
    ensures IsRun(run[..|run| - 1]) && SomeStep(run[|run| - 2], run[|run| - 1])
  {
  }

  lemma EndOfCourse(st: State, t: Thread, had: bool)
    requires Course(st, t, had)
    ensures PcOf(st, t) == Died ==> had
    ensures PcOf(st, t) == SettingUp ==> !had
  {
  }

  /** A run that ends in st. */
  ghost predicate Reaches(run: seq<State>, st: State) {
    IsRun(run) && run[|run| - 1] == st
  }

  lemma Extend(run: seq<State>, st: State, st': State, t: Thread) returns (longer: seq<State>)
    requires Reaches(run, st) && Next(st, st', t)
    ensures Reaches(longer, st')
  {
    longer := run + [st'];
    assert longer[..|longer| - 1] == run;
    assert SomeStep(st, st');
  }

  function Playing(t: Thread): State {
    State(Some(t), Some(t), true, map[t := Conversing], {t})
  }

  /** A SETUP of a thread that finds nobody playing. */
  lemma SetupTakes(t: Thread) returns (run: seq<State>)
    ensures Reaches(run, Playing(t))
  {
    hide IsRun, Reaches;
    run := FirstState();
    run := SetupAsks(run, t);
    var s := State(None, None, false, map[t := TryTake(Setup)], {});
    var s1 := State(Some(t), None, false, map[t := WriteOwner(Setup)], {});
    run := Extend(run, s, s1, t);
    var s2 := State(Some(t), Some(t), false, map[t := Taken(Setup, true)], {t});
    run := Extend(run, s1, s2, t);
    var s3 := State(Some(t), Some(t), false, map[t := SettingUp], {t});
    run := Extend(run, s2, s3, t);
    run := Extend(run, s3, Playing(t), t);
  }

  lemma SetupAsks(start: seq<State>, t: Thread) returns (run: seq<State>)
    requires Reaches(start, INITIAL)
    ensures Reaches(run, State(None, None, false, map[t := TryTake(Setup)], {}))
  {
    hide IsRun, Reaches;
    var s1 := State(None, None, false, map[t := Conversing], {});
    run := Extend(start, INITIAL, s1, t);
    var s2 := State(None, None, false, map[t := TryPlaying(Setup)], {});
    run := Extend(run, s1, s2, t);
    var s3 := State(Some(t), None, false, map[t := Release(Setup)], {});
    run := Extend(run, s2, s3, t);
    var s4 := State(None, None, false, map[t := Returned(Setup, false)], {});
    run := Extend(run, s3, s4, t);
    run := Extend(run, s4, State(None, None, false, map[t := TryTake(Setup)], {}), t);
  }

  lemma FirstState() returns (run: seq<State>)
    ensures Reaches(run, INITIAL)
  {
    run := [INITIAL];
  }

  /** And a thread does die so: SETUP, and SETUP again on the same connection. */
  lemma RepeatedSetupDies(t: Thread) returns (run: seq<State>)
    ensures IsRun(run) && PcOf(run[|run| - 1], t) == Died
  {
    hide IsRun;
    run := SetupTakes(t);
    var s := Playing(t);
    var s1 := At(s, t, TryPlaying(Setup));
    run := Extend(run, s, s1, t);
    var s2 := At(s, t, Compare(Setup));
    run := Extend(run, s1, s2, t);
    var s3 := At(s, t, Returned(Setup, true));
    run := Extend(run, s2, s3, t);
    var s4 := At(s, t, Taken(Setup, false));
    run := Extend(run, s3, s4, t);
    run := Extend(run, s4, At(s, t, Died), t);
  }

  /** A take-over: u waits in its SETUP until t leaves, and then has the player. */
  lemma TakesOver(t: Thread, u: Thread) returns (run: seq<State>)
    requires t != u
    ensures Reaches(run, State(Some(u), Some(u), true, map[t := Done, u := Conversing], {u}))
  {
    hide IsRun, Reaches;
    run := WaitsFor(t, u);
    run := Leaves(run, t, u);
    var s := State(None, Some(t), false, map[t := Done, u := Block(Setup)], {});
    var s1 := State(Some(u), Some(t), false, map[t := Done, u := WriteOwner(Setup)], {});
    run := Extend(run, s, s1, u);
    var s2 := State(Some(u), Some(u), false, map[t := Done, u := Taken(Setup, true)], {u});
    run := Extend(run, s1, s2, u);
    var s3 := State(Some(u), Some(u), false, map[t := Done, u := SettingUp], {u});
    run := Extend(run, s2, s3, u);
    run := Extend(run, s3, State(Some(u), Some(u), true, map[t := Done, u := Conversing], {u}), u);
  }

  function Played(t: Thread, u: Thread, pc: Pc, other: Pc): State {
    State(Some(t), Some(t), true, map[t := pc, u := other], {t})
  }

  lemma WaitsFor(t: Thread, u: Thread) returns (run: seq<State>)
    requires t != u
    ensures Reaches(run, Played(t, u, Conversing, Block(Setup)))
  {
    hide IsRun, Reaches;
    run := SetupTakes(t);
    var c := Conversing;
    run := Extend(run, Playing(t), Played(t, u, c, Conversing), u);
    run := Extend(run, Played(t, u, c, Conversing), Played(t, u, c, TryPlaying(Setup)), u);
    run := Extend(run, Played(t, u, c, TryPlaying(Setup)), Played(t, u, c, Compare(Setup)), u);
    run := Extend(run, Played(t, u, c, Compare(Setup)), Played(t, u, c, Returned(Setup, false)), u);
    run := Extend(run, Played(t, u, c, Returned(Setup, false)), Played(t, u, c, TryTake(Setup)), u);
    run := Extend(run, Played(t, u, c, TryTake(Setup)), Played(t, u, c, Block(Setup)), u);
  }

  lemma FindsItself(start: seq<State>, t: Thread, u: Thread) returns (run: seq<State>)
    requires t != u && Reaches(start, Played(t, u, Conversing, Block(Setup)))
    ensures Reaches(run, Played(t, u, Returned(Leave, true), Block(Setup)))
  {
    hide IsRun, Reaches;
    var b := Block(Setup);
    run := Extend(start, Played(t, u, Conversing, b), Played(t, u, TryPlaying(Leave), b), t);
    run := Extend(run, Played(t, u, TryPlaying(Leave), b), Played(t, u, Compare(Leave), b), t);
    run := Extend(run, Played(t, u, Compare(Leave), b), Played(t, u, Returned(Leave, true), b), t);
  }

  lemma Leaves(start: seq<State>, t: Thread, u: Thread) returns (run: seq<State>)
    requires t != u && Reaches(start, Played(t, u, Conversing, Block(Setup)))
    ensures Reaches(run, State(None, Some(t), false, map[t := Done, u := Block(Setup)], {}))
  {
    hide IsRun, Reaches;
    var b := Block(Setup);
    run := FindsItself(start, t, u);
    run := Extend(run, Played(t, u, Returned(Leave, true), b), Played(t, u, ShuttingDown, b), t);
    var s := State(Some(t), Some(t), false, map[t := Unlocking, u := b], {t});
    run := Extend(run, Played(t, u, ShuttingDown, b), s, t);
    run := Extend(run, s, State(None, Some(t), false, map[t := Done, u := b], {}), t);
  }
}

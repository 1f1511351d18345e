/** The hand-shake between the FUSE thread (files/files.c) and the XMPP thread (wxmpp/wxmpp.c).

    Each access to a shared variable is one step of its own, so that the resets files.c makes
    outside the mutex interleave with everything the XMPP thread does. */
module Handshake {

  /** Which reply a FUSE call waits for: `signal_attr`, `signal_list` or `signal_read`. */
  datatype Kind = Attr | List | Read

  /** The four flags, in the order in which both threads assign them. */
  datatype Flags = Flags(attr: bool, list: bool, read: bool, fail: bool) {
    predicate Has(k: Kind) {
      match k
      case Attr => attr
      case List => list
      case Read => read
    }

    function With(k: Kind, value: bool): Flags {
      match k
      case Attr => this.(attr := value)
      case List => this.(list := value)
      case Read => this.(read := value)
    }

    /** Assign the `n`-th flag. */
    function Put(n: nat, value: bool): Flags {
      if n == 0 then this.(attr := value)
      else if n == 1 then this.(list := value)
      else if n == 2 then this.(read := value)
      else this.(fail := value)
    }

    predicate First(n: nat) {
      (n > 0 ==> attr) && (n > 1 ==> list) && (n > 2 ==> read) && (n > 3 ==> fail)
    }
  }

  /** What the FUSE thread does next. */
  datatype Fuse =
    | Resting
    | CheckFail(k: Kind)          // if (signal_fail == true), outside the mutex
    | Clear(k: Kind, n: nat)      // the four resets, outside the mutex
    | CheckOnline(k: Kind)        // if (!is_owner_online)
    | Lock(k: Kind)
    | Send(k: Kind)
    | Test(k: Kind)               // while (signal_k == false)
    | Asleep(k: Kind)             // inside pthread_cond_wait
    | Waking(k: Kind)             // woken, needs the mutex again
    | Examine(k: Kind)            // if (signal_fail == true), under the mutex
    | Reset(k: Kind, n: nat)      // the four resets, under the mutex
    | Finish(k: Kind)             // signal_k = false
    | Unlock(k: Kind)

  /** What the XMPP thread does next. */
  datatype Xmpp =
    | Listening
    | ReplyLock(k: Kind) | ReplySet(k: Kind) | ReplySignal | ReplyUnlock
    | DropLock | DropSet(n: nat) | DropSignal | DropUnlock

  datatype Owner = Free | ByFuse | ByXmpp

  /** What a FUSE call gives back. */
  datatype Outcome =
    | Underway
    | NoEntry    // -ENOENT
    | DotsOnly   // readdir succeeds, with "." and ".." and nothing else
    | Zeros      // read succeeds, with zeros
    | Replied    // what the reply says

  /** `outcome` is that of the current or the last FUSE call, `asked` the stanzas sent so far.
      `released` is history: a disconnect branch has finished since the current FUSE call passed its
      online check. */
  datatype State = State(flags: Flags, online: bool, mutex: Owner, fuse: Fuse, xmpp: Xmpp, outcome: Outcome,
                         asked: seq<Kind>, released: bool)

  const CLEAR := Flags(false, false, false, false)
  const ALL_SET := Flags(true, true, true, true)
  const START := State(CLEAR, false, Free, Resting, Listening, Replied, [], false)

  datatype Event =
    | Call(k: Kind)   // FUSE calls getattr, readdir or read
    | FuseRun         // the FUSE thread takes its next step
    | Spurious        // pthread_cond_wait returns without a signal
    | Reply(k: Kind)  // an attributes, list or read stanza arrives
    | Disconnect      // conn_handler with a connection error
    | Presence(online: bool)
    | XmppRun         // the XMPP thread takes its next step

  predicate Enabled(s: State, e: Event) {
    match e
    case Call(_) => s.fuse.Resting?
    case FuseRun =>
      && !s.fuse.Resting? && !s.fuse.Asleep?
      && ((s.fuse.Lock? || s.fuse.Waking?) ==> s.mutex.Free?)
    case Spurious => s.fuse.Asleep?
    case Reply(_) => s.xmpp.Listening?
    case Disconnect => s.xmpp.Listening?
    case Presence(_) => s.xmpp.Listening?
    case XmppRun => !s.xmpp.Listening? && ((s.xmpp.ReplyLock? || s.xmpp.DropLock?) ==> s.mutex.Free?)
  }

  /** What a call gives back when the connection was lost: only getattr reports an error. */
  function Failure(k: Kind): Outcome {
    match k
    case Attr => NoEntry
    case List => DotsOnly
    case Read => Zeros
  }

  function FuseStep(s: State): State {
    match s.fuse
    case Resting => s
    case CheckFail(k) => s.(fuse := if s.flags.fail then Clear(k, 0) else CheckOnline(k))
    case Clear(k, n) =>
      s.(flags := s.flags.Put(n, false), fuse := if n < 3 then Clear(k, n + 1) else CheckOnline(k))
    case CheckOnline(k) =>
      if s.online then s.(fuse := Lock(k), released := false) else s.(fuse := Resting, outcome := NoEntry)
    case Lock(k) => s.(mutex := ByFuse, fuse := Send(k))
    case Send(k) => s.(fuse := Test(k), asked := s.asked + [k])
    case Test(k) =>
      if s.flags.Has(k) then s.(fuse := Examine(k)) else s.(mutex := Free, fuse := Asleep(k))
    case Asleep(_) => s
    case Waking(k) => s.(mutex := ByFuse, fuse := Test(k))
    case Examine(k) =>
      if s.flags.fail then s.(fuse := Reset(k, 0), outcome := Failure(k))
      else s.(fuse := Finish(k), outcome := Replied)
    case Reset(k, n) =>
      s.(flags := s.flags.Put(n, false), fuse := if n < 3 then Reset(k, n + 1) else Finish(k))
    case Finish(k) => s.(flags := s.flags.With(k, false), fuse := Unlock(k))
    case Unlock(k) => s.(mutex := Free, fuse := Resting)
  }

  /** `pthread_cond_signal`: the only possible waiter is the FUSE thread. */
  function Signal(f: Fuse): Fuse {
    if f.Asleep? then Waking(f.k) else f
  }

  function XmppStep(s: State): State {
    match s.xmpp
    case Listening => s
    case ReplyLock(k) => s.(mutex := ByXmpp, xmpp := ReplySet(k))
    case ReplySet(k) => s.(flags := s.flags.With(k, true), xmpp := ReplySignal)
    case ReplySignal => s.(fuse := Signal(s.fuse), xmpp := ReplyUnlock)
    case ReplyUnlock => s.(mutex := Free, xmpp := Listening)
    case DropLock => s.(mutex := ByXmpp, xmpp := DropSet(0))
    case DropSet(n) =>
      s.(flags := s.flags.Put(n, true), xmpp := if n < 3 then DropSet(n + 1) else DropSignal)
    case DropSignal => s.(fuse := Signal(s.fuse), xmpp := DropUnlock)
    case DropUnlock => s.(mutex := Free, xmpp := Listening, released := true)
  }

  function Step(s: State, e: Event): State
    requires Enabled(s, e)
  {
    match e
    case Call(k) => s.(fuse := CheckFail(k), outcome := Underway)
    case FuseRun => FuseStep(s)
    case Spurious => s.(fuse := Waking(s.fuse.k))
    case Reply(k) => s.(xmpp := ReplyLock(k))
    case Disconnect => s.(online := false, xmpp := DropLock)
    case Presence(online) => s.(online := online)
    case XmppRun => XmppStep(s)
  }

  predicate Possible(s: State, es: seq<Event>)
    decreases |es|
  {
    es == [] || (Enabled(s, es[0]) && Possible(Step(s, es[0]), es[1..]))
  }

  function After(s: State, es: seq<Event>): State
    requires Possible(s, es)
    decreases |es|
  {
    if es == [] then s else After(Step(s, es[0]), es[1..])
  }

  // ----- the invariant -----

  /** The call has passed its online check and has not seen its flag yet. */
  predicate Waits(f: Fuse) {
    f.Lock? || f.Send? || f.Test? || f.Asleep? || f.Waking?
  }

  predicate FuseHolds(f: Fuse) {
    f.Send? || f.Test? || f.Examine? || f.Reset? || f.Finish? || f.Unlock?
  }

  predicate XmppHolds(x: Xmpp) {
    !x.Listening? && !x.ReplyLock? && !x.DropLock?
  }

  predicate Dropping(x: Xmpp) {
    x.DropLock? || x.DropSet? || x.DropSignal? || x.DropUnlock?
  }

  /** A `pthread_cond_signal` is still to come in the current critical section. */
  predicate SignalPending(x: Xmpp) {
    x.ReplySet? || x.ReplySignal? || x.DropSet? || x.DropSignal?
  }

  predicate Inv(s: State) {
    && (FuseHolds(s.fuse) <==> s.mutex.ByFuse?)
    && (XmppHolds(s.xmpp) <==> s.mutex.ByXmpp?)
    && (s.xmpp.DropSet? ==> s.xmpp.n < 4)
    && (s.fuse.Clear? ==> s.fuse.n < 4)
    && (s.fuse.Reset? ==> s.fuse.n < 4)
    && (Dropping(s.xmpp) ==> !s.online)
    && (s.fuse.Asleep? && s.flags.Has(s.fuse.k) ==> SignalPending(s.xmpp))
    && (Waits(s.fuse) || s.fuse.Examine? ==>
          && (s.xmpp.DropSet? ==> s.flags.First(s.xmpp.n))
          && (s.xmpp.DropSignal? || s.xmpp.DropUnlock? ==> s.flags.First(4))
          && (s.xmpp.DropUnlock? || s.released ==> s.flags.First(4) && !s.fuse.Asleep?))
  }

  lemma FuseStepKeepsInv(s: State)
    requires Inv(s) && Enabled(s, FuseRun)
    ensures Inv(FuseStep(s))
  {
  }

  lemma XmppStepKeepsInv(s: State)
    requires Inv(s) && Enabled(s, XmppRun)
    ensures Inv(XmppStep(s))
  {
  }

  lemma StepKeepsInv(s: State, e: Event)
    requires Inv(s) && Enabled(s, e)
    ensures Inv(Step(s, e))
  {
    match e
    case FuseRun => FuseStepKeepsInv(s);
    case XmppRun => XmppStepKeepsInv(s);
    case _ =>
  }

  lemma {:induction false} RunKeepsInv(s: State, es: seq<Event>)
    requires Inv(s) && Possible(s, es)
    ensures Inv(After(s, es))
    decreases |es|
  {
    if es != [] {
      StepKeepsInv(s, es[0]);
      RunKeepsInv(Step(s, es[0]), es[1..]);
    }
  }

  // ----- safety over all interleavings -----

  /** No lost wake-up: a sleeping call whose flag is set is about to be signalled. */
  lemma {:induction false} NeverAsleepWithFlag(es: seq<Event>)
    requires Possible(START, es)
    ensures var s := After(START, es);
      s.fuse.Asleep? && s.flags.Has(s.fuse.k) ==> s.mutex.ByXmpp? && SignalPending(s.xmpp)
  {
    RunKeepsInv(START, es);
  }

  /** A call during which a disconnect branch has finished is not asleep, finds its flag set, and
      finds `signal_fail` set. */
  lemma {:induction false} DisconnectReleases(es: seq<Event>)
    requires Possible(START, es)
    ensures var s := After(START, es);
      s.released && (Waits(s.fuse) || s.fuse.Examine?) ==>
        !s.fuse.Asleep? && s.flags.Has(s.fuse.k) && s.flags.fail
  {
    RunKeepsInv(START, es);
  }

  /** The two threads are never both inside the mutex. */
  lemma {:induction false} MutualExclusion(es: seq<Event>)
    requires Possible(START, es)
    ensures var s := After(START, es); !(FuseHolds(s.fuse) && XmppHolds(s.xmpp))
  {
    RunKeepsInv(START, es);
  }

  // ----- the released call ends, whatever the XMPP thread does -----

  /** The call needs nothing but its own steps to end. */
  predicate Leaving(s: State) {
    || s.fuse.Examine? || s.fuse.Reset? || s.fuse.Finish? || s.fuse.Unlock?
    || (Waits(s.fuse) && s.released)
  }

  /** How many steps of its own a leaving call has left. */
  function Rank(f: Fuse): nat {
    match f
    case Lock(_) => 11
    case Send(_) => 10
    case Waking(_) => 10
    case Test(_) => 9
    case Examine(_) => 8
    case Reset(_, n) => if n < 4 then 7 - n else 3
    case Finish(_) => 2
    case Unlock(_) => 1
    case _ => 0
  }

  function FuseRuns(es: seq<Event>): nat {
    if es == [] then 0 else (if es[0].FuseRun? then 1 else 0) + FuseRuns(es[1..])
  }

  /** The FUSE thread is idle at some point of the run. */
  predicate Ends(s: State, es: seq<Event>)
    requires Possible(s, es)
    decreases |es|
  {
    s.fuse.Resting? || (es != [] && Ends(Step(s, es[0]), es[1..]))
  }

  lemma LeavingStep(s: State, e: Event)
    requires Inv(s) && Leaving(s) && Enabled(s, e)
    ensures var t := Step(s, e);
      || t.fuse.Resting?
      || (Leaving(t) && Rank(t.fuse) + (if e.FuseRun? then 1 else 0) <= Rank(s.fuse))
  {
  }

  // ----- how it ends -----

  /** The flags a call leaves. */
  function Left(f: Flags, k: Kind): Flags {
    if f.fail then CLEAR else f.With(k, false)
  }

  function Result(f: Flags, k: Kind): Outcome {
    if f.fail then Failure(k) else Replied
  }

  /** The call has the mutex and its way out is settled: `f` is what it finds, or found, under the
      mutex when it examines `signal_fail`. */
  predicate Settled(s: State, k: Kind, f: Flags) {
    s.mutex.ByFuse? &&
    match s.fuse
    case Examine(k') => k' == k && s.flags == f
    case Reset(k', n) =>
      && k' == k && n < 4 && f.fail && s.outcome == Failure(k)
      && s.flags == Flags(f.attr && n < 1, f.list && n < 2, f.read && n < 3, true)
    case Finish(k') =>
      && k' == k
      && if f.fail then s.flags == CLEAR && s.outcome == Failure(k) else s.flags == f && s.outcome == Replied
    case Unlock(k') => k' == k && s.flags == Left(f, k) && s.outcome == Result(f, k)
    case _ => false
  }

  lemma ResettingStep(s: State, k: Kind, f: Flags)
    requires Settled(s, k, f) && s.fuse.Reset?
    ensures Settled(FuseStep(s), k, f)
  {
    hide Failure;
    var n, t := s.fuse.n, FuseStep(s);
    assert t == s.(flags := s.flags.Put(n, false), fuse := if n < 3 then Reset(k, n + 1) else Finish(k));
    hide FuseStep;
  }

  lemma SettledOwnStep(s: State, k: Kind, f: Flags)
    requires Settled(s, k, f)
    ensures var t := FuseStep(s);
      || Settled(t, k, f)
      || (t.fuse.Resting? && t.mutex.Free? && t.flags == Left(f, k) && t.outcome == Result(f, k))
  {
    hide Failure;
    match s.fuse
    case Examine(_) => assert FuseStep(s).flags == f;
    case Reset(_, _) => ResettingStep(s, k, f);
    case Finish(_) => assert FuseStep(s).flags == s.flags.With(k, false);
    case Unlock(_) => assert FuseStep(s).flags == s.flags;
  }

  /** The other thread cannot touch what the call holds. */
  lemma SettledOtherStep(s: State, e: Event)
    requires Inv(s) && FuseHolds(s.fuse) && Enabled(s, e) && !e.FuseRun?
    ensures var t := Step(s, e);
      t.mutex == s.mutex && t.fuse == s.fuse && t.flags == s.flags && t.outcome == s.outcome
  {
  }

  lemma SettledStep(s: State, e: Event, k: Kind, f: Flags)
    requires Inv(s) && Settled(s, k, f) && Enabled(s, e)
    ensures var t := Step(s, e);
      || Settled(t, k, f)
      || (t.fuse.Resting? && t.mutex.Free? && t.flags == Left(f, k) && t.outcome == Result(f, k))
  {
    hide FuseStep, XmppStep, Left, Result, Failure;
    if e.FuseRun? {
      SettledOwnStep(s, k, f);
    } else {
      SettledOtherStep(s, e);
    }
  }

  /** The first time the FUSE thread is idle it has left these flags and given back this outcome. */
  predicate EndsAs(s: State, es: seq<Event>, flags: Flags, outcome: Outcome)
    requires Possible(s, es)
    decreases |es|
  {
    if s.fuse.Resting? then s.flags == flags && s.outcome == outcome
    else es != [] && EndsAs(Step(s, es[0]), es[1..], flags, outcome)
  }

  /** The FUSE thread has the mutex until it is idle. */
  predicate HoldsToTheEnd(s: State, es: seq<Event>)
    requires Possible(s, es)
    decreases |es|
  {
    s.fuse.Resting? || (s.mutex.ByFuse? && (es == [] || HoldsToTheEnd(Step(s, es[0]), es[1..])))
  }

  lemma {:induction false} SettledCallEnds(s: State, es: seq<Event>, k: Kind, f: Flags)
    requires Inv(s) && Settled(s, k, f) && Possible(s, es) && FuseRuns(es) >= Rank(s.fuse)
    ensures EndsAs(s, es, Left(f, k), Result(f, k)) && HoldsToTheEnd(s, es)
    decreases |es|
  {
    hide Step, Inv, Left, Result;
    assert Rank(s.fuse) > 0;
    var t := Step(s, es[0]);
    SettledStep(s, es[0], k, f);
    LeavingStep(s, es[0]);
    StepKeepsInv(s, es[0]);
    if !t.fuse.Resting? {
      SettledCallEnds(t, es[1..], k, f);
    }
  }

  /** A call that has seen its flag keeps the mutex to its end, whatever the other thread does.  If
      the connection was lost it clears all four flags, and getattr gives back -ENOENT, readdir an
      empty directory, read zeros; if not it clears its own flag only and gives back the reply. */
  lemma {:induction false} ExaminedCallEnds(s: State, es: seq<Event>, k: Kind)
    requires Inv(s) && s.fuse == Examine(k) && Possible(s, es) && FuseRuns(es) >= 8
    ensures HoldsToTheEnd(s, es)
    ensures s.flags.fail ==>
      EndsAs(s, es, Flags(false, false, false, false),
        match k case Attr => NoEntry case List => DotsOnly case Read => Zeros)
    ensures !s.flags.fail ==>
      EndsAs(s, es, Flags(s.flags.attr && k != Attr, s.flags.list && k != List, s.flags.read && k != Read, false),
        Replied)
  {
    SettledCallEnds(s, es, k, s.flags);
  }

  lemma ReleasedIsAwake(s: State)
    requires Inv(s) && Waits(s.fuse) && s.released
    ensures Rank(s.fuse) > 0
  {
  }

  lemma WaitingStep(s: State, e: Event)
    requires Inv(s) && Enabled(s, e) && Waits(s.fuse) && s.released
    ensures var t := Step(s, e);
      && (Waits(t.fuse) || t.fuse.Examine?) && t.fuse.k == s.fuse.k && t.released
      && (t.fuse.Examine? ==> Settled(t, s.fuse.k, ALL_SET))
  {
  }

  lemma {:induction false} LostCallEnds(s: State, es: seq<Event>, k: Kind)
    requires Inv(s) && Possible(s, es) && FuseRuns(es) >= Rank(s.fuse)
    requires Waits(s.fuse) && s.fuse.k == k && s.released
    ensures EndsAs(s, es, CLEAR, Failure(k))
    decreases |es|
  {
    hide Step, Inv, Settled;
    ReleasedIsAwake(s);
    var t := Step(s, es[0]);
    WaitingStep(s, es[0]);
    LeavingStep(s, es[0]);
    StepKeepsInv(s, es[0]);
    if t.fuse.Examine? {
      SettledCallEnds(t, es[1..], k, ALL_SET);
    } else {
      LostCallEnds(t, es[1..], k);
    }
  }

  /** In every run in which the FUSE thread gets enough steps, at most 11, a leaving call ends; one that
      a disconnect released from its wait ends as a failure and leaves all flags clear. */
  lemma {:induction false} ReleasedCallEnds(s: State, es: seq<Event>)
    requires Inv(s) && Leaving(s) && Possible(s, es)
    requires FuseRuns(es) >= Rank(s.fuse)
    ensures Ends(s, es)
    ensures Waits(s.fuse) ==>
      EndsAs(s, es, Flags(false, false, false, false),
        match s.fuse.k case Attr => NoEntry case List => DotsOnly case Read => Zeros)
    decreases |es|
  {
    var t := Step(s, es[0]);
    LeavingStep(s, es[0]);
    StepKeepsInv(s, es[0]);
    if !t.fuse.Resting? {
      ReleasedCallEnds(t, es[1..]);
    }
    if Waits(s.fuse) {
      LostCallEnds(s, es, s.fuse.k);
    }
  }

  /** The deadlock the disconnect branch is there to avoid: a call that waits when the branch ends
      takes at most 11 more steps of its own, in whatever order the threads run from then on.  It ends
      as a failure and leaves all flags clear. */
  lemma {:induction false} DisconnectEndsTheWait(es: seq<Event>, more: seq<Event>, k: Kind)
    requires Possible(START, es)
    requires var s := After(START, es); s.xmpp.DropUnlock? && Waits(s.fuse) && s.fuse.k == k
    requires Possible(Step(After(START, es), XmppRun), more) && FuseRuns(more) >= 11
    ensures EndsAs(Step(After(START, es), XmppRun), more, Flags(false, false, false, false),
              match k case Attr => NoEntry case List => DotsOnly case Read => Zeros)
  {
    var s := After(START, es);
    RunKeepsInv(START, es);
    StepKeepsInv(s, XmppRun);
    LostCallEnds(Step(s, XmppRun), more, k);
  }

  /** How many steps of its own the XMPP thread takes before it gives the mutex back. */
  function HoldRank(x: Xmpp): nat {
    match x
    case ReplySet(_) => 3
    case ReplySignal => 2
    case ReplyUnlock => 1
    case DropSet(n) => if n < 4 then 6 - n else 3
    case DropSignal => 2
    case DropUnlock => 1
    case _ => 0
  }

  function XmppRuns(es: seq<Event>): nat {
    if es == [] then 0 else (if es[0].XmppRun? then 1 else 0) + XmppRuns(es[1..])
  }

  predicate ComesFree(s: State, es: seq<Event>)
    requires Possible(s, es)
    decreases |es|
  {
    !s.mutex.ByXmpp? || (es != [] && ComesFree(Step(s, es[0]), es[1..]))
  }

  /** The XMPP thread never keeps the mutex for more than 6 of its steps ... */
  lemma {:induction false} XmppGivesMutexBack(s: State, es: seq<Event>)
    requires Inv(s) && Possible(s, es) && XmppRuns(es) >= HoldRank(s.xmpp)
    ensures ComesFree(s, es)
    decreases |es|
  {
    if s.mutex.ByXmpp? {
      StepKeepsInv(s, es[0]);
      XmppGivesMutexBack(Step(s, es[0]), es[1..]);
    }
  }

  /** ... and until then it can always take one; so a leaving call is never stuck: it can move, or
      the XMPP thread holds the mutex and can move. */
  lemma {:induction false} LeavingIsNeverStuck(es: seq<Event>)
    requires Possible(START, es) && Leaving(After(START, es))
    ensures var s := After(START, es);
      Enabled(s, FuseRun) || (s.mutex.ByXmpp? && Enabled(s, XmppRun))
  {
    RunKeepsInv(START, es);
  }

  // ----- what does not release a call -----

  /** The call waits for a flag that is not set, and no reply of its kind and no disconnect is
      being handled. */
  predicate Stranded(s: State, k: Kind) {
    && (s.fuse == Test(k) || s.fuse == Asleep(k) || s.fuse == Waking(k))
    && !s.flags.Has(k) && !Dropping(s.xmpp)
    && s.xmpp != ReplyLock(k) && s.xmpp != ReplySet(k)
  }

  lemma StrandedStep(s: State, e: Event, k: Kind)
    requires Stranded(s, k) && Enabled(s, e) && e != Reply(k) && e != Disconnect
    ensures Stranded(Step(s, e), k)
  {
    match e
    case FuseRun => hide XmppStep;
    case XmppRun => hide FuseStep;
    case _ => hide FuseStep, XmppStep;
  }

  /** Only a reply of the awaited kind or a disconnect ends the wait: replies of the other kinds,
      spurious wake-ups and the owner going offline do not. */
  lemma {:induction false} OnlyReplyOrDisconnectReleases(s: State, es: seq<Event>, k: Kind)
    requires Stranded(s, k) && Possible(s, es)
    requires forall i :: 0 <= i < |es| ==> es[i] != Reply(k) && es[i] != Disconnect
    ensures Stranded(After(s, es), k)
    decreases |es|
  {
    if es != [] {
      StrandedStep(s, es[0], k);
      OnlyReplyOrDisconnectReleases(Step(s, es[0]), es[1..], k);
    }
  }

  // ----- a reply ends the wait -----

  /** A call for `k` waits and the reply to it is being handled, its signal still to come. */
  predicate Replying(s: State, k: Kind) {
    && Waits(s.fuse) && s.fuse.k == k
    && (s.xmpp == ReplyLock(k) || s.xmpp == ReplySet(k) || (s.xmpp == ReplySignal && s.flags.Has(k)))
  }

  /** The call has seen its flag, or is awake and will find it set. */
  predicate Reached(s: State) {
    || s.fuse.Examine? || s.fuse.Reset? || s.fuse.Finish? || s.fuse.Unlock?
    || (Waits(s.fuse) && !s.fuse.Asleep? && s.flags.Has(s.fuse.k))
  }

  function StepsToSignal(x: Xmpp): nat {
    match x
    case ReplyLock(_) => 3
    case ReplySet(_) => 2
    case ReplySignal => 1
    case _ => 0
  }

  lemma ReplyingStep(s: State, e: Event, k: Kind)
    requires Inv(s) && Replying(s, k) && Enabled(s, e)
    ensures var t := Step(s, e);
      || Reached(t)
      || (Replying(t, k) && StepsToSignal(t.xmpp) + (if e.XmppRun? then 1 else 0) <= StepsToSignal(s.xmpp))
  {
  }

  lemma ReachedStep(s: State, e: Event)
    requires Inv(s) && Reached(s) && Enabled(s, e)
    ensures var t := Step(s, e);
      t.fuse.Resting? || (Reached(t) && Rank(t.fuse) + (if e.FuseRun? then 1 else 0) <= Rank(s.fuse))
  {
  }

  lemma {:induction false} ReachedStays(s: State, es: seq<Event>)
    requires Inv(s) && Reached(s) && Possible(s, es)
    ensures Ends(s, es) || Reached(After(s, es))
    decreases |es|
  {
    hide Step, Inv;
    if es != [] {
      ReachedStep(s, es[0]);
      StepKeepsInv(s, es[0]);
      if !Step(s, es[0]).fuse.Resting? {
        ReachedStays(Step(s, es[0]), es[1..]);
      }
    }
  }

  lemma {:induction false} ReplyReaches(s: State, es: seq<Event>, k: Kind)
    requires Inv(s) && Replying(s, k) && Possible(s, es) && XmppRuns(es) >= StepsToSignal(s.xmpp)
    ensures Ends(s, es) || Reached(After(s, es))
    decreases |es|
  {
    hide Step, Inv, Reached;
    ReplyingStep(s, es[0], k);
    StepKeepsInv(s, es[0]);
    if Reached(Step(s, es[0])) {
      ReachedStays(Step(s, es[0]), es[1..]);
    } else {
      ReplyReaches(Step(s, es[0]), es[1..], k);
    }
  }

  lemma {:induction false} ReachedCallEnds(s: State, es: seq<Event>)
    requires Inv(s) && Reached(s) && Possible(s, es) && FuseRuns(es) >= Rank(s.fuse)
    ensures Ends(s, es)
    decreases |es|
  {
    assert Rank(s.fuse) > 0;
    hide Step, Inv, Reached;
    ReachedStep(s, es[0]);
    StepKeepsInv(s, es[0]);
    if !Step(s, es[0]).fuse.Resting? {
      ReachedCallEnds(Step(s, es[0]), es[1..]);
    }
  }

  /** When a reply of the awaited kind arrives for a waiting call, three steps of the XMPP thread are
      enough to release it, and 11 more of its own to end it, in whatever order the threads run. */
  lemma {:induction false} ReplyEndsTheWait(es: seq<Event>, k: Kind, handling: seq<Event>, more: seq<Event>)
    requires Possible(START, es)
    requires var s := After(START, es); s.xmpp.Listening? && Waits(s.fuse) && s.fuse.k == k
    requires var s := Step(After(START, es), Reply(k));
      && Possible(s, handling) && XmppRuns(handling) >= 3
      && Possible(After(s, handling), more) && FuseRuns(more) >= 11
    ensures var s := Step(After(START, es), Reply(k));
      Ends(s, handling) || Ends(After(s, handling), more)
  {
    var s := Step(After(START, es), Reply(k));
    RunKeepsInv(START, es);
    StepKeepsInv(After(START, es), Reply(k));
    RunKeepsInv(s, handling);
    ReplyReaches(s, handling, k);
    if Reached(After(s, handling)) {
      ReachedCallEnds(After(s, handling), more);
    }
  }

  // ----- a call while the owner is offline -----

  /** The call has not passed its online check. */
  predicate Begins(f: Fuse) {
    f.CheckFail? || f.Clear? || f.CheckOnline?
  }

  function StepsToCheck(f: Fuse): nat {
    match f
    case CheckFail(_) => 6
    case Clear(_, n) => if n < 4 then 5 - n else 2
    case CheckOnline(_) => 1
    case _ => 0
  }

  predicate ComesOnline(es: seq<Event>) {
    Presence(true) in es
  }

  predicate GoesOffline(es: seq<Event>) {
    Presence(false) in es || Disconnect in es
  }

  /** The call ends at its online check, with -ENOENT: it never locks, sends or waits. */
  predicate Refused(s: State, es: seq<Event>)
    requires Possible(s, es)
    decreases |es|
  {
    if s.fuse.Resting? then s.outcome == NoEntry
    else Begins(s.fuse) && es != [] && Refused(Step(s, es[0]), es[1..])
  }

  /** The call passes its online check. */
  predicate Accepted(s: State, es: seq<Event>)
    requires Possible(s, es)
    decreases |es|
  {
    s.fuse.Lock? || (Begins(s.fuse) && es != [] && Accepted(Step(s, es[0]), es[1..]))
  }

  lemma BeginningStep(s: State, e: Event)
    requires Inv(s) && Begins(s.fuse) && Enabled(s, e)
    ensures var t := Step(s, e);
      || (Begins(t.fuse) && StepsToCheck(t.fuse) + (if e.FuseRun? then 1 else 0) <= StepsToCheck(s.fuse))
      || (s.online && t.fuse.Lock?)
      || (!s.online && t.fuse.Resting? && t.outcome == NoEntry)
    ensures !s.online && e != Presence(true) ==> !Step(s, e).online
    ensures s.online && e != Presence(false) && e != Disconnect ==> Step(s, e).online
  {
  }

  lemma {:induction false} OfflineCallIsRefused(s: State, es: seq<Event>)
    requires Inv(s) && Begins(s.fuse) && !s.online && Possible(s, es) && !ComesOnline(es)
    requires FuseRuns(es) >= StepsToCheck(s.fuse)
    ensures Refused(s, es)
    decreases |es|
  {
    hide Step, Inv;
    assert StepsToCheck(s.fuse) > 0;
    BeginningStep(s, es[0]);
    StepKeepsInv(s, es[0]);
    if Begins(Step(s, es[0]).fuse) {
      OfflineCallIsRefused(Step(s, es[0]), es[1..]);
    }
  }

  lemma {:induction false} OnlineCallIsAccepted(s: State, es: seq<Event>)
    requires Inv(s) && Begins(s.fuse) && s.online && Possible(s, es) && !GoesOffline(es)
    requires FuseRuns(es) >= StepsToCheck(s.fuse)
    ensures Accepted(s, es)
    decreases |es|
  {
    hide Step, Inv;
    assert StepsToCheck(s.fuse) > 0;
    BeginningStep(s, es[0]);
    StepKeepsInv(s, es[0]);
    if Begins(Step(s, es[0]).fuse) {
      OnlineCallIsAccepted(Step(s, es[0]), es[1..]);
    }
  }

  /** Whether the owner is online is what the last event about it says. */
  lemma {:induction false} OwnerStays(s: State, es: seq<Event>)
    requires Possible(s, es)
    ensures !s.online && !ComesOnline(es) ==> !After(s, es).online
    ensures s.online && !GoesOffline(es) ==> After(s, es).online
    decreases |es|
  {
    if es != [] {
      OwnerStays(Step(s, es[0]), es[1..]);
    }
  }

  lemma InBoth(a: seq<Event>, b: seq<Event>)
    ensures ComesOnline(a + b) <==> ComesOnline(a) || ComesOnline(b)
    ensures GoesOffline(a + b) <==> GoesOffline(a) || GoesOffline(b)
  {
  }

  /** A call made after the owner went offline, or the connection broke, ends at its online check
      with -ENOENT; one made after the owner came online passes it.  Six steps of its own suffice. */
  lemma {:induction false} OnlineCheck(es: seq<Event>, e: Event, since: seq<Event>, k: Kind, more: seq<Event>)
    requires Possible(START, es) && Enabled(After(START, es), e)
    requires Possible(Step(After(START, es), e), since)
    requires var s := After(Step(After(START, es), e), since);
      s.fuse.Resting? && Possible(Step(s, Call(k)), more) && FuseRuns(more) >= 6
    ensures var s := Step(After(Step(After(START, es), e), since), Call(k));
      && ((e == Presence(false) || e == Disconnect) && !ComesOnline(since + more) ==> Refused(s, more))
      && (e == Presence(true) && !GoesOffline(since + more) ==> Accepted(s, more))
  {
    hide ComesOnline, GoesOffline;
    var s0 := Step(After(START, es), e);
    RunKeepsInv(START, es);
    StepKeepsInv(After(START, es), e);
    RunKeepsInv(s0, since);
    OwnerStays(s0, since);
    var s := After(s0, since);
    StepKeepsInv(s, Call(k));
    InBoth(since, more);
    hide Inv, Refused, Accepted;
    if (e == Presence(false) || e == Disconnect) && !ComesOnline(since + more) {
      OfflineCallIsRefused(Step(s, Call(k)), more);
    }
    if e == Presence(true) && !GoesOffline(since + more) {
      OnlineCallIsAccepted(Step(s, Call(k)), more);
    }
  }

  // ----- what is asked -----

  /** The call that a step lets pass its online check. */
  function Passing(s: State, e: Event): seq<Kind> {
    if e.FuseRun? && s.fuse.CheckOnline? && s.online then [s.fuse.k] else []
  }

  /** The calls that pass it in a run. */
  function PassingIn(s: State, es: seq<Event>): seq<Kind>
    requires Possible(s, es)
    decreases |es|
  {
    if es == [] then [] else Passing(s, es[0]) + PassingIn(Step(s, es[0]), es[1..])
  }

  /** What the current call has still to send. */
  function Unsent(s: State): seq<Kind> {
    if s.fuse.Lock? || s.fuse.Send? then [s.fuse.k] else []
  }

  lemma AskingStep(s: State, e: Event)
    requires Enabled(s, e)
    ensures Step(s, e).asked + Unsent(Step(s, e)) == s.asked + Unsent(s) + Passing(s, e)
  {
  }

  /** Every call that passes its online check sends one stanza, of its kind, before it waits; no other
      call sends anything. */
  lemma {:induction false} AsksOnce(s: State, es: seq<Event>)
    requires Possible(s, es)
    ensures After(s, es).asked + Unsent(After(s, es)) == s.asked + Unsent(s) + PassingIn(s, es)
    decreases |es|
  {
    hide Step, Enabled, Unsent, Passing;
    if es != [] {
      AskingStep(s, es[0]);
      AsksOnce(Step(s, es[0]), es[1..]);
    }
  }

  // ----- what answers a call that does not fail -----

  /** Who wrote a flag last: nobody since it was cleared, a reply, a disconnect, or a disconnect that
      set it again after the resets outside the mutex had passed it. */
  datatype Writer = Nobody | ByReply | ByDisconnect | ByOvertaking

  function Index(k: Kind): nat {
    match k
    case Attr => 0
    case List => 1
    case Read => 2
  }

  /** The resets outside the mutex have cleared flag `n` already and `signal_fail` not yet. */
  predicate Passed(f: Fuse, n: nat) {
    f.Clear? && n < f.n
  }

  /** The last writer of flag `k` after a step. */
  function NextWriter(s: State, e: Event, k: Kind, w: Writer): Writer {
    match e
    case FuseRun =>
      if (s.fuse.Clear? || s.fuse.Reset?) && s.fuse.n == Index(k) then Nobody
      else if s.fuse == Finish(k) then Nobody
      else w
    case XmppRun =>
      if s.xmpp == ReplySet(k) then ByReply
      else if s.xmpp == DropSet(Index(k)) then if Passed(s.fuse, Index(k)) then ByOvertaking else ByDisconnect
      else w
    case _ => w
  }

  /** ... and after a run. */
  function LastWriter(s: State, es: seq<Event>, k: Kind, w: Writer): Writer
    requires Possible(s, es)
    decreases |es|
  {
    if es == [] then w else LastWriter(Step(s, es[0]), es[1..], k, NextWriter(s, es[0], k, w))
  }

  /** A flag a disconnect has set the ordinary way comes with `signal_fail`, or will in a moment. */
  predicate Explained(s: State, k: Kind, w: Writer) {
    && (s.flags.Has(k) <==> w != Nobody)
    && (s.fuse.Clear? || s.fuse.Reset? ==> s.flags.fail)
    && (s.fuse == Examine(k) ==> s.flags.Has(k))
    && (w == ByDisconnect ==> s.flags.fail || (s.xmpp.DropSet? && s.xmpp.n > Index(k)))
    && (w == ByDisconnect ==> !Passed(s.fuse, Index(k)) && !(s.fuse.Reset? && Index(k) < s.fuse.n))
  }

  lemma ResetExplains(s: State, k: Kind, w: Writer)
    requires Explained(s, k, w) && (s.fuse.Clear? || s.fuse.Reset?) && s.fuse.n < 4
    ensures Explained(FuseStep(s), k, NextWriter(s, FuseRun, k, w))
  {
    match k
    case Attr =>
    case List =>
    case Read =>
  }

  lemma FinishExplains(s: State, k: Kind, w: Writer)
    requires Explained(s, k, w) && s.fuse.Finish?
    ensures Explained(FuseStep(s), k, NextWriter(s, FuseRun, k, w))
  {
    match k
    case Attr =>
    case List =>
    case Read =>
  }

  lemma CallStepExplains(s: State, k: Kind, w: Writer)
    requires Explained(s, k, w) && !s.fuse.Clear? && !s.fuse.Reset?
    ensures Explained(FuseStep(s), k, NextWriter(s, FuseRun, k, w))
  {
    if s.fuse.Finish? {
      FinishExplains(s, k, w);
    } else {
      assert FuseStep(s).flags == s.flags;
    }
  }

  lemma FuseStepExplains(s: State, k: Kind, w: Writer)
    requires Inv(s) && Explained(s, k, w) && Enabled(s, FuseRun)
    ensures Explained(FuseStep(s), k, NextWriter(s, FuseRun, k, w))
  {
    hide Explained, FuseStep, NextWriter;
    if s.fuse.Clear? || s.fuse.Reset? {
      ResetExplains(s, k, w);
    } else {
      CallStepExplains(s, k, w);
    }
  }

  lemma DropSetExplains(s: State, k: Kind, w: Writer)
    requires Explained(s, k, w) && s.xmpp.DropSet? && s.xmpp.n < 4 && !s.fuse.Reset? && !s.fuse.Examine?
    ensures Explained(XmppStep(s), k, NextWriter(s, XmppRun, k, w))
  {
    match k
    case Attr =>
    case List =>
    case Read =>
  }

  lemma HandlerStepExplains(s: State, k: Kind, w: Writer)
    requires Explained(s, k, w) && !s.xmpp.DropSet?
    requires s.xmpp.ReplySet? || s.xmpp.ReplySignal? || s.xmpp.DropSignal? ==> !s.fuse.Reset? && !s.fuse.Examine?
    ensures Explained(XmppStep(s), k, NextWriter(s, XmppRun, k, w))
  {
  }

  lemma XmppStepExplains(s: State, k: Kind, w: Writer)
    requires Inv(s) && Explained(s, k, w) && Enabled(s, XmppRun)
    ensures Explained(XmppStep(s), k, NextWriter(s, XmppRun, k, w))
  {
    hide Explained, XmppStep, NextWriter;
    if s.xmpp.DropSet? {
      DropSetExplains(s, k, w);
    } else {
      HandlerStepExplains(s, k, w);
    }
  }

  lemma OtherStepExplains(s: State, e: Event, k: Kind, w: Writer)
    requires Explained(s, k, w) && Enabled(s, e) && !e.FuseRun? && !e.XmppRun?
    ensures Explained(Step(s, e), k, w)
  {
  }

  lemma {:induction false} RunExplains(s: State, es: seq<Event>, k: Kind, w: Writer)
    requires Inv(s) && Explained(s, k, w) && Possible(s, es)
    ensures Inv(After(s, es)) && Explained(After(s, es), k, LastWriter(s, es, k, w))
    decreases |es|
  {
    hide Explained;
    if es != [] {
      StepKeepsInv(s, es[0]);
      match es[0] {
        case FuseRun => FuseStepExplains(s, k, w);
        case XmppRun => XmppStepExplains(s, k, w);
        case _ => OtherStepExplains(s, es[0], k, w);
      }
      RunExplains(Step(s, es[0]), es[1..], k, NextWriter(s, es[0], k, w));
    }
  }

  /** A call that has seen its flag and is about to end without failing was answered by a reply of its
      kind, if and only if the flag was not left over from a disconnect that overtook the resets of an
      earlier call. */
  lemma {:induction false} AnsweredUnlessOvertaken(es: seq<Event>, k: Kind)
    requires Possible(START, es)
    requires After(START, es).fuse == Examine(k) && !After(START, es).flags.fail
    ensures LastWriter(START, es, k, Nobody) == ByReply <==> LastWriter(START, es, k, Nobody) != ByOvertaking
  {
    RunExplains(START, es, k, Nobody);
  }

  /** A disconnect sets a flag behind the resets of a call. */
  predicate Overtakes(s: State, e: Event) {
    e.XmppRun? && s.xmpp.DropSet? && Passed(s.fuse, s.xmpp.n)
  }

  predicate NeverOvertakes(s: State, es: seq<Event>)
    requires Possible(s, es)
    decreases |es|
  {
    es == [] || (!Overtakes(s, es[0]) && NeverOvertakes(Step(s, es[0]), es[1..]))
  }

  lemma {:induction false} NotOvertaken(s: State, es: seq<Event>, k: Kind, w: Writer)
    requires Possible(s, es) && NeverOvertakes(s, es) && w != ByOvertaking
    ensures LastWriter(s, es, k, w) != ByOvertaking
    decreases |es|
  {
    hide Step, Enabled;
    if es != [] {
      NotOvertaken(Step(s, es[0]), es[1..], k, NextWriter(s, es[0], k, w));
    }
  }

  /** While no disconnect does, every call that ends without failing was answered. */
  lemma {:induction false} CalmRunsAreAnswered(es: seq<Event>, k: Kind)
    requires Possible(START, es) && NeverOvertakes(START, es)
    requires After(START, es).fuse == Examine(k) && !After(START, es).flags.fail
    ensures LastWriter(START, es, k, Nobody) == ByReply
  {
    NotOvertaken(START, es, k, Nobody);
    AnsweredUnlessOvertaken(es, k);
  }

  // ----- a call that ends well without a reply -----

  function Times(e: Event, n: nat): (es: seq<Event>)
    ensures |es| == n
    ensures forall i :: 0 <= i < n ==> es[i] == e
  {
    if n == 0 then [] else [e] + Times(e, n - 1)
  }

  lemma {:induction false} OneMore(s: State, e: Event, n: nat)
    requires Enabled(s, e)
    ensures Possible(s, Times(e, n + 1)) <==> Possible(Step(s, e), Times(e, n))
    ensures Possible(s, Times(e, n + 1)) ==> After(s, Times(e, n + 1)) == After(Step(s, e), Times(e, n))
  {
    hide Step, Enabled;
    assert Times(e, n + 1)[1..] == Times(e, n);
  }

  lemma {:induction false} Concatenated(s: State, a: seq<Event>, b: seq<Event>)
    requires Possible(s, a) && Possible(After(s, a), b)
    ensures Possible(s, a + b) && After(s, a + b) == After(After(s, a), b)
    decreases |a|
  {
    hide Step, Enabled;
    if a == [] {
      assert a + b == b;
    } else {
      assert (a + b)[1..] == a[1..] + b;
      Concatenated(Step(s, a[0]), a[1..], b);
    }
  }

  /** A whole disconnect branch while the FUSE thread stands still. */
  function Drop(): seq<Event> {
    [Disconnect] + Times(XmppRun, 7)
  }

  lemma {:induction false} DropSetRun(s: State)
    requires s.xmpp == DropSet(0) && s.mutex.ByXmpp? && !s.fuse.Asleep?
    ensures Possible(s, Times(XmppRun, 6))
    ensures After(s, Times(XmppRun, 6)) ==
      s.(flags := ALL_SET, mutex := Free, xmpp := Listening, released := true)
  {
    var s1 := XmppStep(s);
    var s2 := XmppStep(s1);
    var s3 := XmppStep(s2);
    var s4 := XmppStep(s3);
    var s5 := XmppStep(s4);
    assert s4 == s.(flags := ALL_SET, xmpp := DropSignal);
    assert s5 == s4.(xmpp := DropUnlock);
    OneMore(s, XmppRun, 5);
    OneMore(s1, XmppRun, 4);
    OneMore(s2, XmppRun, 3);
    OneMore(s3, XmppRun, 2);
    OneMore(s4, XmppRun, 1);
    OneMore(s5, XmppRun, 0);
  }

  lemma {:induction false} DropRun(s: State)
    requires s.xmpp.Listening? && s.mutex.Free? && !s.fuse.Asleep?
    ensures Possible(s, Drop())
    ensures After(s, Drop()) == s.(flags := ALL_SET, online := false, released := true)
  {
    var s0 := Step(s, Disconnect);
    var s1 := XmppStep(s0);
    assert s1 == s0.(mutex := ByXmpp, xmpp := DropSet(0));
    DropSetRun(s1);
    OneMore(s0, XmppRun, 6);
    assert Drop()[1..] == Times(XmppRun, 7);
  }

  /** A call after a disconnect, up to the last of its resets outside the mutex. */
  lemma {:induction false} ClearRun(s: State, k: Kind)
    requires s.fuse.Resting? && s.flags == ALL_SET
    ensures var es := [Call(k)] + Times(FuseRun, 4);
      Possible(s, es) && After(s, es) ==
        s.(flags := Flags(false, false, false, true), fuse := Clear(k, 3), outcome := Underway)
  {
    var s0 := Step(s, Call(k));
    var s1 := FuseStep(s0);
    var s2 := FuseStep(s1);
    var s3 := FuseStep(s2);
    OneMore(s0, FuseRun, 3);
    OneMore(s1, FuseRun, 2);
    OneMore(s2, FuseRun, 1);
    OneMore(s3, FuseRun, 0);
    assert ([Call(k)] + Times(FuseRun, 4))[1..] == Times(FuseRun, 4);
  }

  /** Its end: the last reset, and the owner is offline. */
  lemma {:induction false} OfflineRun(s: State, k: Kind)
    requires s.fuse == Clear(k, 3) && !s.online
    ensures var es := Times(FuseRun, 2);
      Possible(s, es) && After(s, es) ==
        s.(flags := s.flags.(fail := false), fuse := Resting, outcome := NoEntry)
  {
    OneMore(s, FuseRun, 1);
    OneMore(FuseStep(s), FuseRun, 0);
  }

  /** The next call, once the owner is back: its flag is set and `signal_fail` is not. */
  lemma {:induction false} LuckyCall(s: State, k: Kind)
    requires s.fuse == CheckFail(k) && s.online && s.mutex.Free? && s.flags.Has(k) && !s.flags.fail
    ensures Possible(s, Times(FuseRun, 5))
    ensures After(s, Times(FuseRun, 5)) ==
      s.(mutex := ByFuse, fuse := Examine(k), asked := s.asked + [k], released := false)
  {
    var s1 := FuseStep(s);
    var s2 := FuseStep(s1);
    var s3 := FuseStep(s2);
    var s4 := FuseStep(s3);
    assert s1 == s.(fuse := CheckOnline(k));
    assert s2 == s.(fuse := Lock(k), released := false);
    assert s3 == s.(mutex := ByFuse, fuse := Send(k), released := false);
    assert s4 == s.(mutex := ByFuse, fuse := Test(k), asked := s.asked + [k], released := false);
    OneMore(s, FuseRun, 4);
    OneMore(s1, FuseRun, 3);
    OneMore(s2, FuseRun, 2);
    OneMore(s3, FuseRun, 1);
    OneMore(s4, FuseRun, 0);
  }

  lemma {:induction false} LuckyRun(s: State, k: Kind)
    requires s.fuse.Resting? && s.xmpp.Listening? && s.mutex.Free? && s.flags.Has(k) && !s.flags.fail
    ensures var es := [Presence(true), Call(k)] + Times(FuseRun, 5);
      Possible(s, es) && After(s, es) ==
        s.(online := true, mutex := ByFuse, fuse := Examine(k), outcome := Underway, asked := s.asked + [k],
           released := false)
  {
    var es := [Presence(true), Call(k)] + Times(FuseRun, 5);
    assert es[1..] == [Call(k)] + Times(FuseRun, 5) && es[1..][1..] == Times(FuseRun, 5);
    hide Times, FuseStep;
    LuckyCall(Step(Step(s, Presence(true)), Call(k)), k);
  }

  function UnansweredRun(k: Kind): seq<Event> {
    Drop() + (([Call(k)] + Times(FuseRun, 4)) +
      (Drop() + (Times(FuseRun, 2) + ([Presence(true), Call(k)] + Times(FuseRun, 5)))))
  }

  lemma {:induction false} NobodyReplies(k: Kind)
    ensures forall i :: 0 <= i < |UnansweredRun(k)| ==> !UnansweredRun(k)[i].Reply?
  {
  }

  /** It happens: of two calls of the same kind the first one is overtaken by a disconnect, and the
      second one ends without failing although no reply has ever arrived. */
  lemma {:induction false} EndsWellUnanswered(k: Kind)
    ensures forall i :: 0 <= i < |UnansweredRun(k)| ==> !UnansweredRun(k)[i].Reply?
    ensures Possible(START, UnansweredRun(k))
    ensures var s := After(START, UnansweredRun(k));
      s.fuse == Examine(k) && s.flags.Has(k) && !s.flags.fail
  {
    var clear, offline := [Call(k)] + Times(FuseRun, 4), Times(FuseRun, 2);
    var lucky := [Presence(true), Call(k)] + Times(FuseRun, 5);
    NobodyReplies(k);
    hide Times;
    DropRun(START);
    var s1 := After(START, Drop());
    ClearRun(s1, k);
    var s2 := After(s1, clear);
    DropRun(s2);
    var s3 := After(s2, Drop());
    OfflineRun(s3, k);
    var s4 := After(s3, offline);
    LuckyRun(s4, k);
    hide Drop, Times, Step, Possible, After;
    Concatenated(s3, offline, lucky);
    Concatenated(s2, Drop(), offline + lucky);
    Concatenated(s1, clear, Drop() + (offline + lucky));
    Concatenated(START, Drop(), clear + (Drop() + (offline + lucky)));
  }
}

/** What the agreement of files and slots gives the user: one slot a project, truthful answers,
    restarts that never run out of slots, and one report for every shell that was ever asked for. */
module ShellPromises {
  import opened Basics
  import opened ShellTable
  import opened ShellRuns

  // ----- one slot a project -----

  /** Slot `i` is a live shell of project `p`. */
  predicate Runs(s: State, p: string, i: nat) {
    i < |s.slots| && s.slots[i].Some? && s.slots[i].value.project == Some(p)
  }

  lemma OneSlotEach(s: State, p: string, i: nat, j: nat)
    requires Inv(s) && Runs(s, p, i) && Runs(s, p, j)
    ensures i == j
  {
    assert RunsIn(s, OpenKey(p), i) && RunsIn(s, OpenKey(p), j);
  }

  function LiveSlots(s: State): set<nat> {
    set i: nat | i < |s.slots| && s.slots[i].Some?
  }

  /** The sizes are numbers, the fork succeeds and a slot is free. */
  predicate CanStart(s: State, e: Event)
    requires e.OpenRequest?
  {
    e.width.Cells? && e.height.Cells? && e.pid != -1 && exists i :: 0 <= i < |s.slots| && s.slots[i].None?
  }

  /** Ids are told apart by the part that fits the path of the project file: their first 112
      characters. */
  predicate SameProject(p: Option<string>, q: Option<string>) {
    p == q || (p.Some? && q.Some? && |p.value| >= 112 && |q.value| >= 112 && p.value[..112] == q.value[..112])
  }

  lemma SameProjectIs(p: string, q: string)
    ensures SameProject(Some(p), Some(q)) <==> OpenKey(p) == OpenKey(q)
  {
    assert |p| >= 112 ==> OpenKey(p) == p[..112];
    assert |q| >= 112 ==> OpenKey(q) == q[..112];
  }

  predicate RunsSame(s: State, project: Option<string>, i: nat) {
    && project.Some? && i < |s.slots| && s.slots[i].Some? && SameProject(s.slots[i].value.project, project)
  }

  ghost predicate Running(s: State, project: Option<string>) {
    exists i :: RunsSame(s, project, i)
  }

  lemma SameProjectIsReflexive(p: Option<string>)
    ensures SameProject(p, p)
  {
  }

  lemma RunsSameIs(s: State, project: Option<string>, i: nat)
    ensures RunsSame(s, project, i) <==> project.Some? && RunsIn(s, OpenKey(project.value), i)
  {
    if project.Some? && i < |s.slots| && s.slots[i].Some? && s.slots[i].value.project.Some? {
      SameProjectIs(s.slots[i].value.project.value, project.value);
    }
  }

  lemma FileOf(s: State, key: string, i: nat)
    requires Inv(s)
    ensures RunsIn(s, key, i) <==> key in s.files && s.files[key] == i
  {
  }

  lemma RunningIs(s: State, project: Option<string>)
    requires Inv(s)
    ensures Running(s, project) <==> project.Some? && OpenKey(project.value) in s.files
  {
    hide RunsSame, RunsIn, OpenKey;
    if i :| RunsSame(s, project, i) {
      RunsSameIs(s, project, i);
      FileOf(s, OpenKey(project.value), i);
    }
    if project.Some? && OpenKey(project.value) in s.files {
      RunsSameIs(s, project, s.files[OpenKey(project.value)]);
      FileOf(s, OpenKey(project.value), s.files[OpenKey(project.value)]);
    }
  }

  /** Slot `i` is a connected shell of the project and holds the request. */
  predicate Holds(s: State, i: nat, project: Option<string>, request: string) {
    && i < |s.slots| && s.slots[i].Some? && s.slots[i].value.connected
    && SameProject(s.slots[i].value.project, project) && s.slots[i].value.request == Some(request)
  }

  /** An open request that carries both sizes. */
  predicate HasSizes(e: Event)
    requires e.OpenRequest?
  {
    !e.width.Missing? && !e.height.Missing?
  }

  /** When an open request is answered, and how.  It gets no answer, and changes nothing, exactly when
      its project runs already and it names no user.  Otherwise it is answered once (unless the answer
      overflows its buffer): with the slot of a connected shell of that project which holds the
      request, if the project runs already or a shell can be started, and with an error if not. */
  lemma OpenIsAnswered(s: State, e: Event) returns (answer: Option<Response>)
    requires Inv(s) && e.OpenRequest? && e.request.Some?
    ensures answer.None? <==> HasSizes(e) && Running(s, e.project) && e.user.None?
    ensures answer.None? ==> Step(s, e) == s
    ensures answer.Some? ==>
      Step(s, e).sent == s.sent + if FitsBuffer(answer.value) then [answer.value] else []
    ensures answer.Some? ==> answer.value.Opened? || answer.value.OpenFailed?
    ensures answer.Some? ==> answer.value.request == e.request.value
    ensures answer.Some? ==>
      (answer.value.Opened? <==> HasSizes(e) && (Running(s, e.project) || CanStart(s, e)))
    ensures answer.Some? && answer.value.Opened? ==> (answer.value.running <==> Running(s, e.project))
    ensures answer.Some? && answer.value.Opened? ==>
      Holds(Step(s, e), answer.value.slot, e.project, e.request.value)
  {
    RunningIs(s, e.project);
    hide FitsBuffer, OpenKey, SameProject, Running;
    if !HasSizes(e) {
      answer := Some(OpenFailed(e.request.value));
    } else if e.project.Some? && OpenKey(e.project.value) in s.files {
      var i := s.files[OpenKey(e.project.value)];
      RunsSameIs(s, e.project, i);
      FileOf(s, OpenKey(e.project.value), i);
      answer := if e.user.None? then None else Some(Opened(e.request.value, i, true));
    } else if CanStart(s, e) {
      answer := Some(Opened(e.request.value, FirstFree(s.slots, 0), false));
      SameProjectIsReflexive(e.project);
    } else {
      answer := Some(OpenFailed(e.request.value));
    }
  }

  /** Opening a running project hands its shell to the new request and user, and allocates nothing. */
  lemma ReopenFindsTheSlot(s: State, e: Event, i: nat)
    requires Inv(s) && e.OpenRequest? && e.request.Some? && e.user.Some? && HasSizes(e)
    requires RunsSame(s, e.project, i)
    ensures var t, shell := Step(s, e), s.slots[i].value;
      && t.files == s.files && t.effects == s.effects && LiveSlots(t) == LiveSlots(s)
      && t.slots ==
           s.slots[i := Some(Shell(i, shell.width, shell.height, shell.pid, e.request, shell.project, e.user, true))]
      && t.sent == s.sent +
           (if FitsBuffer(Opened(e.request.value, i, true)) then [Opened(e.request.value, i, true)] else [])
  {
    hide FitsBuffer, OpenKey, SameProject;
    RunsSameIs(s, e.project, i);
    FileOf(s, OpenKey(e.project.value), i);
  }

  /** Opening anything else, when a shell can be started, fills the least free slot: a record with the
      sizes as they were asked for, the process of the fork, the request, the project and, for a
      project, the user.  One project file is written, for the first 112 characters of the id. */
  lemma OpenStartsAShell(s: State, e: Event) returns (k: nat)
    requires Inv(s) && e.OpenRequest? && e.request.Some? && !Running(s, e.project) && CanStart(s, e)
    ensures k < MAX_SHELLS && s.slots[k].None? && forall j :: 0 <= j < k ==> s.slots[j].Some?
    ensures var t, user := Step(s, e), if e.project.Some? then e.user else None;
      && t.slots == s.slots[k := Some(Shell(k, e.width.n, e.height.n, e.pid, e.request, e.project, user, true))]
      && t.effects == s.effects
      && t.sent == s.sent +
           (if FitsBuffer(Opened(e.request.value, k, false)) then [Opened(e.request.value, k, false)] else [])
    ensures Step(s, e).files ==
      match e.project
      case None => s.files
      case Some(p) => s.files[(if |p| <= 112 then p else p[..112]) := k]
  {
    RunningIs(s, e.project);
    hide FitsBuffer, Running;
    k := FirstFree(s.slots, 0);
  }

  /** Without both sizes, and when no shell can be started, nothing but an error is published. */
  lemma OpenFails(s: State, e: Event)
    requires Inv(s) && e.OpenRequest? && e.request.Some?
    requires !HasSizes(e) || (!Running(s, e.project) && !CanStart(s, e))
    ensures Step(s, e) == s.(sent := s.sent +
      if FitsBuffer(OpenFailed(e.request.value)) then [OpenFailed(e.request.value)] else [])
  {
    RunningIs(s, e.project);
    hide FitsBuffer, Running, OpenKey;
  }

  const OPEN_WITHOUT_USER := OpenRequest(Some("1"), Cells(80), Cells(24), Some("p"), None, 7)

  lemma {:induction false} Twice(s: State, e: Event)
    requires |s.slots| == MAX_SHELLS && Defined(s, e)
    ensures Defined(Step(s, e), e) && Step(Step(s, e), e) == Step(s, e) ==>
      Possible(s, [e, e]) && After(s, [e, e]) == Step(s, e)
  {
    hide Step, Defined;
    assert [] + [e] == [e] && [e] + [e] == [e, e];
    LastStep(s, [], e);
    LastStep(s, [e], e);
  }

  lemma HolderRuns(s: State, i: nat, project: Option<string>, request: string)
    requires Holds(s, i, project, request)
    ensures i < |s.slots| && (project.Some? ==> Running(s, project))
  {
    assert project.Some? ==> RunsSame(s, project, i);
  }

  lemma {:induction false} DecimalOfAByte(n: nat)
    requires n < 256
    ensures |Decimal(n)| == if n < 10 then 1 else if n < 100 then 2 else 3
  {
    if n >= 100 {
      assert |Decimal(n / 10)| == 1 + |Decimal(n / 10 / 10)|;
    }
  }

  /** The requests whose answer to an open fits its 256 bytes. */
  lemma {:induction false} OpenAnswersFit(request: string, slot: nat, running: bool)
    requires slot < MAX_SHELLS
    ensures FitsBuffer(OpenFailed(request)) <==> |request| <= 238
    ensures FitsBuffer(Opened(request, slot, running)) <==>
      |request| + (if slot < 10 then 1 else if slot < 100 then 2 else 3) <= if running then 228 else 227
  {
    ResponseSizes(Opened(request, slot, running));
    ResponseSizes(OpenFailed(request));
    hide ResponseSize;
    DecimalOfAByte(slot);
  }

  /** Whenever a request without a user starts a project, the same request sent again is lost. */
  lemma RepeatedOpenIsLost(s: State, e: Event) returns (slot: nat)
    requires Inv(s) && e.OpenRequest? && e.request.Some? && e.project.Some? && e.user.None?
    requires !Running(s, e.project) && CanStart(s, e)
    ensures Step(s, e).sent ==
      s.sent + if FitsBuffer(Opened(e.request.value, slot, false)) then [Opened(e.request.value, slot, false)] else []
    ensures Holds(Step(s, e), slot, e.project, e.request.value)
    ensures Step(Step(s, e), e) == Step(s, e)
  {
    StepKeepsInv(s, e);
    hide Step, Inv, FitsBuffer, Running, Holds;
    var answer := OpenIsAnswered(s, e);
    slot := answer.value.slot;
    HolderRuns(Step(s, e), slot, e.project, e.request.value);
    var none := OpenIsAnswered(Step(s, e), e);
  }

  /** A run that loses an answer: the first request starts the project and is answered, the second one
      is not. */
  lemma SecondOpenIsNotAnswered() returns (slot: nat)
    ensures var e, s := OPEN_WITHOUT_USER, Step(START, OPEN_WITHOUT_USER);
      && s.sent == [Opened("1", slot, false)] && Holds(s, slot, e.project, "1")
      && Possible(START, [e, e]) && After(START, [e, e]) == s
  {
    var e := OPEN_WITHOUT_USER;
    StartAgrees();
    assert START.slots[0].None?;
    assert !Running(START, e.project) && CanStart(START, e);
    hide Step, Inv, FitsBuffer, Running, Holds;
    slot := RepeatedOpenIsLost(START, e);
    HolderRuns(Step(START, e), slot, e.project, "1");
    OpenAnswersFit("1", slot, false);
    Twice(START, e);
  }

  /** A status request is answered exactly when request and project are short enough for the 128 bytes
      of the answer, which never holds for ids the path buffer cuts off; otherwise nothing happens.
      The answer says "running" exactly when some slot runs the project. */
  lemma StatusIsTrue(s: State, request: string, p: string) returns (running: bool)
    requires Inv(s)
    ensures running <==> exists i :: Runs(s, p, i)
    ensures Step(s, StatusRequest(Some(request), Some(p))) ==
      if StrSize(|request|) + StrSize(|p|) <= if running then 111 else 110
      then s.(sent := s.sent + [Status(request, p, running)]) else s
  {
    running := exists i :: Runs(s, p, i);
    ResponseSizes(Status(request, p, StatusKey(p) in s.files));
    hide ResponseSize;
    if |p| <= 111 {
      if p in s.files {
        assert RunsIn(s, p, s.files[p]);
        assert Runs(s, p, s.files[p]);
      }
      if i :| Runs(s, p, i) {
        assert RunsIn(s, p, i);
      }
    }
  }

  // ----- restarts -----

  lemma {:induction false} ShortenBelow(n: nat, limit: nat)
    requires limit > 0
    ensures Shorten(n, limit) < limit && Shorten(n, limit) <= n
  {
    if n >= limit {
      ShortenBelow(n / 10, limit);
    }
  }

  /** The 8 bytes of a size string keep the size exactly in this range. */
  lemma SizeSurvives(n: int)
    ensures Reprinted(n) == n <==> -999_999 <= n <= 9_999_999
  {
    ShortenBelow(if n < 0 then -n else n, if n < 0 then 1_000_000 else 10_000_000);
  }

  lemma {:induction false} DigitsOf(n: nat)
    ensures |Decimal(n)| == (if n < 10 then 1 else |Decimal(n / 10)| + 1) && |Decimal(n)| >= 1
  {
  }

  lemma {:induction false} DigitCount(n: nat, d: nat)
    requires d == 6 || d == 7
    ensures |Decimal(n)| <= d <==> n < if d == 6 then 1_000_000 else 10_000_000
  {
    var n1 := n / 10;
    var n2 := n1 / 10;
    var n3 := n2 / 10;
    var n4 := n3 / 10;
    var n5 := n4 / 10;
    var n6 := n5 / 10;
    hide Decimal;
    DigitsOf(n);
    DigitsOf(n1);
    DigitsOf(n2);
    DigitsOf(n3);
    DigitsOf(n4);
    DigitsOf(n5);
    DigitsOf(n6);
  }

  lemma {:induction false} ShortenIsCut(n: nat, d: nat)
    requires d == 6 || d == 7
    ensures var limit := if d == 6 then 1_000_000 else 10_000_000;
      Decimal(Shorten(n, limit)) == if |Decimal(n)| <= d then Decimal(n) else Decimal(n)[..d]
    decreases n
  {
    DigitCount(n, d);
    if n >= 1_000_000 {
      ShortenIsCut(n / 10, d);
    }
  }

  lemma {:induction false} ShortenPositive(n: nat, limit: nat)
    requires limit >= 10 && n > 0
    ensures Shorten(n, limit) > 0
  {
    if n >= limit {
      ShortenPositive(n / 10, limit);
    }
  }

  /** A restart reads its sizes from the first seven characters of their printed form. */
  lemma ReprintedIsCut(n: int)
    ensures Printed(Reprinted(n)) == if |Printed(n)| <= 7 then Printed(n) else Printed(n)[..7]
  {
    ShortenIsCut(if n < 0 then -n else n, if n < 0 then 6 else 7);
    hide Decimal, Shorten;
    if n < 0 {
      ShortenPositive(-n, 1_000_000);
    }
  }

  /** It comes back in the least free slot, which always exists, with the same project and user, no
      request, disconnected, and the size read back from 8 bytes; nothing else changes. */
  lemma RestartTakesTheLeastFreeSlot(s: State, e: Event, p: string) returns (k: nat)
    requires Inv(s) && Defined(s, e) && e.ProcessEnd? && Runs(s, p, e.slot)
    requires !s.slots[e.slot].value.connected && |p| <= 48 && e.pid != -1
    requires (e.ending.Exited? && e.ending.code != 0) || e.ending == Killed(11)
    ensures k <= e.slot && (s.slots[k].None? || k == e.slot)
    ensures forall j :: 0 <= j < k ==> s.slots[j].Some?
    ensures var shell := s.slots[e.slot].value;
      Step(s, e).slots == s.slots[e.slot := None][k := Some(
        Shell(k, Reprinted(shell.width), Reprinted(shell.height), e.pid, None, Some(p), shell.user, false))]
    ensures Step(s, e).files == s.files[p := k] && Runs(Step(s, e), p, k)
  {
    hide FitsBuffer, Reprinted;
    var i, u := e.slot, Released(s, e.slot, e.ending);
    assert RunsIn(s, p, i);
    assert u.slots[i].None?;
    k := FirstFree(u.slots, 0);
    assert forall j :: 0 <= j < k ==> u.slots[j] == s.slots[j];
  }

  /** When a project's shell ends, the project occupies a slot afterwards exactly when it was in the
      background, exited with a code other than 0 or got SIGSEGV, its id fits `remove`, and the fork
      succeeds. */
  lemma WhenAProjectComesBack(s: State, e: Event, p: string)
    requires Inv(s) && Defined(s, e) && e.ProcessEnd? && Runs(s, p, e.slot)
    ensures (exists k :: Runs(Step(s, e), p, k)) <==>
      && !s.slots[e.slot].value.connected
      && ((e.ending.Exited? && e.ending.code != 0) || e.ending == Killed(11))
      && |p| <= 48 && e.pid != -1
  {
    hide FitsBuffer, FirstFree;
    var i, shell, t := e.slot, s.slots[e.slot].value, Step(s, e);
    var u := Released(s, i, e.ending);
    forall k | Runs(s, p, k)
      ensures k == i
    {
      OneSlotEach(s, p, k, i);
    }
    assert forall k :: Runs(u, p, k) ==> k != i && Runs(s, p, k);
    if Restarts(shell, e.ending) {
      if |p| > 48 {
        StaleFileBlocksRestart(s, i, e.ending, e.pid);
      } else if e.pid != -1 {
        var k := RestartTakesTheLeastFreeSlot(s, e, p);
      }
    }
  }

  /** Otherwise its slot is free afterwards, and so is that of a shell without a project; the project
      file goes, by the part of its name that fits `remove`. */
  lemma EndFreesTheSlot(s: State, e: Event)
    requires Inv(s) && Defined(s, e) && e.ProcessEnd?
    requires var shell := s.slots[e.slot].value;
      || shell.connected || shell.project.None? || |shell.project.value| > 48 || e.pid == -1
      || e.ending == Exited(0) || (e.ending.Killed? && e.ending.signal != 11)
    ensures var t, project := Step(s, e), s.slots[e.slot].value.project;
      && t.slots == s.slots[e.slot := None] && t.effects == s.effects
      && t.files == (if project.None? then s.files
                     else s.files - {if |project.value| <= 48 then project.value else project.value[..48]})
  {
    hide FitsBuffer, FirstFree;
    var shell := s.slots[e.slot].value;
    if Restarts(shell, e.ending) && |shell.project.value| > 48 {
      StaleFileBlocksRestart(s, e.slot, e.ending, e.pid);
    }
  }

  // ----- one report for each end -----

  /** What a step means for the shell in slot `i`. */
  datatype Touch = Asked(request: string) | Started | Unasked

  function AskedOf(request: Option<string>, shell: Option<ShellRef>, i: nat): Touch {
    if request.Some? && shell.Some? && shell.value.Number? && shell.value.id == i then Asked(request.value)
    else Unasked
  }

  /** The step sends the shell in slot `i` a request (by opening it, opening its project again, typing
      into it or closing it), or starts it without one. */
  function Touched(s: State, e: Event, i: nat): Touch
    requires |s.slots| == MAX_SHELLS && Defined(s, e)
  {
    match e
    case OpenRequest(request, width, height, project, user, pid) =>
      if request.None? || width.Missing? || height.Missing? then Unasked
      else if project.Some? && OpenKey(project.value) in s.files then
        if s.files[OpenKey(project.value)] == i && user.Some? then Asked(request.value) else Unasked
      else if FirstFree(s.slots, 0) == i && !width.Invalid? && !height.Invalid? && pid != -1 then Asked(request.value)
      else Unasked
    case CloseRequest(request, shell, _) => AskedOf(request, shell, i)
    case KeysRequest(request, shell, text) => if text == "" then Unasked else AskedOf(request, shell, i)
    case DisconnectRequest(_, _) => Unasked
    case StatusRequest(_, _) => Unasked
    case ProcessEnd(slot, ending, pid) =>
      if Restarts(s.slots[slot].value, ending) && pid != -1 && FirstFree(s.slots[slot := None], 0) == i then Started
      else Unasked
  }

  /** The latest request of the shell that a run leaves in slot `i`, read off the steps alone. */
  function LatestRequest(s: State, es: seq<Event>, i: nat): Option<string>
    requires |s.slots| == MAX_SHELLS && Possible(s, es)
    decreases |es|
  {
    if es == [] then None
    else
      var before, e := es[..|es| - 1], es[|es| - 1];
      assert es == before + [e];
      LastStep(s, before, e);
      match Touched(After(s, before), e, i)
      case Asked(request) => Some(request)
      case Started => None
      case Unasked => LatestRequest(s, before, i)
  }

  lemma OpenConnects(s: State, e: Event, i: nat)
    requires |s.slots| == MAX_SHELLS && Defined(s, e) && e.OpenRequest?
    requires i < MAX_SHELLS && Step(s, e).slots[i].Some?
    ensures Step(s, e).slots[i].value.connected <==>
      Touched(s, e, i).Asked? || (s.slots[i].Some? && s.slots[i].value.connected)
  {
    hide FitsBuffer, OpenKey;
  }

  predicate Detached(s: State, e: Event, i: nat)
    requires |s.slots| == MAX_SHELLS && Defined(s, e)
  {
    match e
    case CloseRequest(request, shell, _) => AskedOf(request, shell, i).Asked?
    case DisconnectRequest(request, shell) => AskedOf(request, shell, i).Asked?
    case ProcessEnd(_, _, _) => Touched(s, e, i).Started?
    case _ => false
  }

  lemma EndRemembersRequests(s: State, e: Event, i: nat)
    requires |s.slots| == MAX_SHELLS && Defined(s, e) && e.ProcessEnd?
    requires i < MAX_SHELLS && Step(s, e).slots[i].Some?
    ensures if Touched(s, e, i).Started? then Step(s, e).slots[i].value.request == None
            else Touched(s, e, i).Unasked? && s.slots[i] == Step(s, e).slots[i]
  {
    hide FitsBuffer, OpenKey;
  }

  /** Whether a shell is in the foreground: a request to open it connects it, closing and disconnecting
      it or a restart detaches it, and nothing else matters. */
  lemma StepConnects(s: State, e: Event, i: nat)
    requires |s.slots| == MAX_SHELLS && Defined(s, e)
    requires i < MAX_SHELLS && Step(s, e).slots[i].Some?
    ensures Step(s, e).slots[i].value.connected <==>
      if e.OpenRequest? then Touched(s, e, i).Asked? || (s.slots[i].Some? && s.slots[i].value.connected)
      else !Detached(s, e, i) && s.slots[i].Some? && s.slots[i].value.connected
  {
    hide FitsBuffer, OpenKey;
    if e.ProcessEnd? {
      EndRemembersRequests(s, e, i);
    } else if e.OpenRequest? {
      OpenConnects(s, e, i);
      hide Step;
    }
  }

  predicate SameProcess(s: State, t: State, i: nat) {
    && i < |s.slots| && s.slots[i].Some? && i < |t.slots| && t.slots[i].Some?
    && var before, after := s.slots[i].value, t.slots[i].value;
    && after.id == before.id && after.pid == before.pid
    && after.width == before.width && after.height == before.height && after.project == before.project
  }

  lemma OpenKeepsTheProcess(s: State, request: Option<string>, width: Extent, height: Extent,
                            project: Option<string>, user: Option<string>, pid: int, i: nat)
    requires i < |s.slots| && s.slots[i].Some?
    ensures SameProcess(s, Open(s, request, width, height, project, user, pid), i)
  {
    hide FitsBuffer, OpenKey;
  }

  /** As long as a shell lives it keeps its process, its size and its project. */
  lemma StepKeepsTheProcess(s: State, e: Event, i: nat)
    requires |s.slots| == MAX_SHELLS && Defined(s, e)
    requires i < MAX_SHELLS && s.slots[i].Some? && !(e.ProcessEnd? && e.slot == i)
    ensures SameProcess(s, Step(s, e), i)
  {
    hide FitsBuffer, OpenKey, Open;
    match e
    case OpenRequest(request, width, height, project, user, pid) =>
      OpenKeepsTheProcess(s, request, width, height, project, user, pid, i);
    case ProcessEnd(slot, ending, pid) =>
      var shell, u := s.slots[slot].value, Released(s, slot, ending);
      OpenKeepsTheProcess(u, None, Cells(Reprinted(shell.width)), Cells(Reprinted(shell.height)), shell.project,
        shell.user, pid, i);
    case _ =>
  }

  lemma OpenKeepsOtherUsers(s: State, request: Option<string>, width: Extent, height: Extent,
                            project: Option<string>, user: Option<string>, pid: int, i: nat)
    requires i < |s.slots| && s.slots[i].Some?
    ensures SameProcess(s, Open(s, request, width, height, project, user, pid), i)
    ensures Open(s, request, width, height, project, user, pid).slots[i].value.user ==
      if !width.Missing? && !height.Missing? && request.Some? && user.Some? && project.Some?
        && OpenKey(project.value) in s.files && s.files[OpenKey(project.value)] == i
      then user else s.slots[i].value.user
  {
    OpenKeepsTheProcess(s, request, width, height, project, user, pid, i);
    hide FitsBuffer, OpenKey;
  }

  /** Opening its project again is all that changes the user of a live shell. */
  lemma StepKeepsTheUser(s: State, e: Event, i: nat)
    requires |s.slots| == MAX_SHELLS && Defined(s, e)
    requires i < MAX_SHELLS && s.slots[i].Some? && !(e.ProcessEnd? && e.slot == i)
    ensures Step(s, e).slots[i].Some?
    ensures Step(s, e).slots[i].value.user ==
      if e.OpenRequest? && Touched(s, e, i).Asked? then e.user else s.slots[i].value.user
  {
    StepKeepsTheProcess(s, e, i);
    hide FitsBuffer, OpenKey, Open;
    match e
    case OpenRequest(request, width, height, project, user, pid) =>
      OpenKeepsOtherUsers(s, request, width, height, project, user, pid, i);
    case ProcessEnd(slot, ending, pid) =>
      var shell, u := s.slots[slot].value, Released(s, slot, ending);
      OpenKeepsOtherUsers(u, None, Cells(Reprinted(shell.width)), Cells(Reprinted(shell.height)), shell.project,
        shell.user, pid, i);
    case _ =>
  }

  /** The live shell a close request, or a keys request with text, names. */
  function Target(s: State, e: Event): (shell: Option<Shell>)
    requires |s.slots| == MAX_SHELLS && Defined(s, e)
    ensures shell.Some? ==> e.CloseRequest? || e.KeysRequest?
    ensures shell.Some? ==> e.shell.Some? && e.shell.value.Number?
  {
    if !(e.CloseRequest? || (e.KeysRequest? && e.text != "")) then None
    else if e.request.Some? && e.shell.Some? && e.shell.value.Number? then s.slots[e.shell.value.id]
    else None
  }

  /** Only closing and typing act on a process, once each, and only on the process of the live shell
      they name; a close in the background does not. */
  lemma StepActs(s: State, e: Event)
    requires |s.slots| == MAX_SHELLS && Defined(s, e)
    ensures Step(s, e).effects == s.effects + match Target(s, e)
      case None => []
      case Some(shell) => if e.KeysRequest? then [Typed(shell.pid, e.text)]
                          else if e.background then [] else [Stopped(shell.pid)]
    ensures Target(s, e).Some? ==> forall i :: 0 <= i < MAX_SHELLS ==>
      (Touched(s, e, i).Asked? <==> e.shell == Some(Number(e.shell.value.text, i)))
  {
    hide FitsBuffer, OpenKey;
  }

  /** The shell id of a request names no live shell. */
  predicate NamesNoShell(s: State, shell: ShellRef)
    requires shell.Number? ==> 0 <= shell.id < |s.slots|
  {
    shell.Number? ==> s.slots[shell.id].None?
  }

  /** What the requests other than open and status publish: nothing, except that closing a shell that
      is not there is answered with the id as it was sent and the code -1.  Project files stay. */
  lemma RequestSends(s: State, e: Event)
    requires |s.slots| == MAX_SHELLS && Defined(s, e)
    requires e.CloseRequest? || e.KeysRequest? || e.DisconnectRequest?
    ensures Step(s, e).files == s.files
    ensures Step(s, e).sent == s.sent +
      if e.CloseRequest? && e.request.Some? && e.shell.Some? && NamesNoShell(s, e.shell.value)
        && FitsBuffer(Closed(e.request.value, e.shell.value.text, -1))
      then [Closed(e.request.value, e.shell.value.text, -1)] else []
    ensures e.request.Some? && e.shell.Some? && NamesNoShell(s, e.shell.value) ==>
      Step(s, e).slots == s.slots && Step(s, e).effects == s.effects
  {
    hide FitsBuffer;
  }

  /** A message without a request id changes nothing, nor does one that lacks its shell id or project,
      nor keys without text. */
  lemma NoRequestNoStep(s: State, e: Event)
    requires |s.slots| == MAX_SHELLS && Defined(s, e)
    ensures !e.ProcessEnd? && e.request.None? ==> Step(s, e) == s
    ensures (e.CloseRequest? || e.KeysRequest? || e.DisconnectRequest?) && e.shell.None? ==> Step(s, e) == s
    ensures e.StatusRequest? && e.project.None? ==> Step(s, e) == s
    ensures e.KeysRequest? && e.text == "" ==> Step(s, e) == s
  {
  }

  lemma StepRemembersRequests(s: State, e: Event, i: nat)
    requires |s.slots| == MAX_SHELLS && Defined(s, e)
    requires i < MAX_SHELLS && Step(s, e).slots[i].Some?
    ensures match Touched(s, e, i)
      case Asked(request) => Step(s, e).slots[i].value.request == Some(request)
      case Started => Step(s, e).slots[i].value.request == None
      case Unasked => s.slots[i].Some? && s.slots[i].value.request == Step(s, e).slots[i].value.request
  {
    hide FitsBuffer, OpenKey;
    if e.ProcessEnd? {
      EndRemembersRequests(s, e, i);
    }
  }

  /** The request a live shell holds is the latest one sent to it in the run. */
  lemma {:induction false} RequestIsTheLatest(s: State, es: seq<Event>, i: nat)
    requires |s.slots| == MAX_SHELLS && Possible(s, es) && i < MAX_SHELLS
    requires forall j :: 0 <= j < MAX_SHELLS ==> s.slots[j].None?
    requires After(s, es).slots[i].Some?
    ensures After(s, es).slots[i].value.request == LatestRequest(s, es, i)
    decreases |es|
  {
    hide Step, Defined, Touched;
    if es != [] {
      var before, e := es[..|es| - 1], es[|es| - 1];
      assert es == before + [e];
      LastStep(s, before, e);
      StepRemembersRequests(After(s, before), e, i);
      if Touched(After(s, before), e, i).Unasked? {
        RequestIsTheLatest(s, before, i);
      }
    }
  }

  /** The response to the end of a shell. */
  function Ended(request: string, slot: nat, ending: Ending): Response {
    match ending
    case Exited(code) => Closed(request, Decimal(slot), code)
    case Killed(_) => Closed(request, Decimal(slot), 0)
  }

  lemma EndSends(s: State, e: Event)
    requires |s.slots| == MAX_SHELLS && Defined(s, e) && e.ProcessEnd?
    ensures var shell := s.slots[e.slot].value;
      Step(s, e).sent ==
        if shell.request.None? || !FitsBuffer(Ended(shell.request.value, shell.id, e.ending)) then s.sent
        else s.sent + [Ended(shell.request.value, shell.id, e.ending)]
  {
    hide FitsBuffer, OpenKey, FirstFree;
  }

  predicate SlotIds(s: State) {
    forall i :: 0 <= i < |s.slots| && s.slots[i].Some? ==> s.slots[i].value.id == i
  }

  lemma StepKeepsSlotIds(s: State, e: Event)
    requires |s.slots| == MAX_SHELLS && Defined(s, e) && SlotIds(s)
    ensures SlotIds(Step(s, e))
  {
    hide FitsBuffer, OpenKey;
  }

  lemma {:induction false} IdsAreSlots(s: State, es: seq<Event>)
    requires |s.slots| == MAX_SHELLS && Possible(s, es) && SlotIds(s)
    ensures SlotIds(After(s, es))
    decreases |es|
  {
    hide Step, Defined, SlotIds;
    if es != [] {
      StepKeepsSlotIds(s, es[0]);
      IdsAreSlots(Step(s, es[0]), es[1..]);
    }
  }

  /** In every run each end of a shell publishes exactly one close response if the shell was ever
      asked, with its latest request, its id and its exit code, 0 if a signal ended it (unless that
      response overflows its 128 bytes), and publishes nothing otherwise, restart or not. */
  lemma {:induction false} EndIsReportedOnce(es: seq<Event>, e: Event)
    requires Possible(START, es) && Defined(After(START, es), e) && e.ProcessEnd?
    ensures var s := After(START, es);
      var report := LatestRequest(START, es, e.slot);
      Step(s, e).sent == s.sent +
        if report.None? || !FitsBuffer(Ended(report.value, e.slot, e.ending)) then []
        else [Ended(report.value, e.slot, e.ending)]
  {
    hide FitsBuffer, LatestRequest;
    var s := After(START, es);
    RequestIsTheLatest(START, es, e.slot);
    IdsAreSlots(START, es);
    EndSends(s, e);
  }

  /** A close response with a request of at most 107 characters always fits. */
  lemma {:induction false} ShortReportsFit(request: string, slot: nat, ending: Ending)
    requires slot < MAX_SHELLS && (ending.Exited? ==> ending.code < 256)
    ensures |request| <= 107 <==> FitsBuffer(Closed(request, Decimal(255), 255))
    ensures |request| <= 107 ==> FitsBuffer(Closed(request, Decimal(slot), ExitCode(ending)))
  {
    ResponseSizes(Closed(request, Decimal(255), 255));
    ResponseSizes(Closed(request, Decimal(slot), ExitCode(ending)));
    hide ResponseSize;
    DecimalOfAByte(255);
    DecimalOfAByte(slot);
    DecimalOfAByte(ExitCode(ending));
  }

  // ----- the index the source does not check -----

  predicate FilesInRange(s: State) {
    forall k :: k in s.files ==> s.files[k] < MAX_SHELLS
  }

  /** Whatever ids are used, a project file never holds anything but an index of the table. */
  lemma FilesStayInRange(s: State, e: Event)
    requires |s.slots| == MAX_SHELLS && Defined(s, e) && FilesInRange(s)
    ensures FilesInRange(Step(s, e))
  {
    hide FitsBuffer, OpenKey, RemoveKey;
  }

  /** So in every run the index that opening a project reads from its file is one of the table. */
  lemma {:induction false} FilesAlwaysInRange(s: State, es: seq<Event>)
    requires |s.slots| == MAX_SHELLS && Possible(s, es) && FilesInRange(s)
    ensures FilesInRange(After(s, es))
    decreases |es|
  {
    hide Step, Defined, FilesInRange;
    if es != [] {
      FilesStayInRange(s, es[0]);
      FilesAlwaysInRange(Step(s, es[0]), es[1..]);
    }
  }

  // ----- users of projects -----

  predicate UsersKnown(s: State) {
    forall i :: 0 <= i < |s.slots| && s.slots[i].Some? && s.slots[i].value.project.Some? ==>
      s.slots[i].value.user.Some?
  }

  predicate NamesUser(e: Event) {
    e.OpenRequest? && e.project.Some? ==> e.user.Some?
  }

  lemma OpenKeepsUsers(s: State, request: Option<string>, width: Extent, height: Extent,
                       project: Option<string>, user: Option<string>, pid: int)
    requires UsersKnown(s) && (project.Some? ==> user.Some?)
    ensures UsersKnown(Open(s, request, width, height, project, user, pid))
  {
    hide FitsBuffer, OpenKey;
  }

  lemma StepKeepsUsers(s: State, e: Event)
    requires |s.slots| == MAX_SHELLS && Defined(s, e) && UsersKnown(s) && NamesUser(e)
    ensures UsersKnown(Step(s, e))
  {
    hide FitsBuffer, OpenKey, RemoveKey, Open;
    match e
    case OpenRequest(request, width, height, project, user, pid) =>
      OpenKeepsUsers(s, request, width, height, project, user, pid);
    case ProcessEnd(slot, ending, pid) =>
      var shell, u := s.slots[slot].value, Released(s, slot, ending);
      if Restarts(shell, ending) {
        OpenKeepsUsers(u, None, Cells(Reprinted(shell.width)), Cells(Reprinted(shell.height)), shell.project,
          shell.user, pid);
      }
    case _ =>
  }

  /** While every request that opens a project names a user, no restart copies a missing user id: the
      end of any live shell is a step. */
  lemma {:induction false} RestartsAreDefined(s: State, es: seq<Event>)
    requires |s.slots| == MAX_SHELLS && Possible(s, es) && UsersKnown(s)
    requires forall i :: 0 <= i < |es| ==> NamesUser(es[i])
    ensures UsersKnown(After(s, es))
    ensures forall i: nat, ending, pid :: i < |After(s, es).slots| && After(s, es).slots[i].Some? ==>
      Defined(After(s, es), ProcessEnd(i, ending, pid))
    decreases |es|
  {
    if es != [] {
      StepKeepsUsers(s, es[0]);
      hide Step, UsersKnown, NamesUser;
      RestartsAreDefined(Step(s, es[0]), es[1..]);
    }
  }

  // ----- an id that is too long -----

  const LONG_ID := "a-project-whose-id-has-more-than-forty-eight-chars"
  const LONG_RUN := [OpenRequest(Some("1"), Cells(80), Cells(24), Some(LONG_ID), Some("u"), 7),
                     ProcessEnd(0, Exited(0), 8)]

  /** One project with 50 characters is enough: after it has ended, no shell is left, and yet it is
      reported as running and cannot be opened again. */
  lemma LongIdKeepsRunning()
    ensures Possible(START, LONG_RUN)
    ensures forall i :: 0 <= i < MAX_SHELLS ==> After(START, LONG_RUN).slots[i].None?
    ensures StatusKey(LONG_ID) in After(START, LONG_RUN).files
    ensures Step(After(START, LONG_RUN), LONG_RUN[0]) == After(START, LONG_RUN)
  {
    hide FitsBuffer;
    var s := Step(START, LONG_RUN[0]);
    var t := Step(s, LONG_RUN[1]);
    assert LONG_RUN == [LONG_RUN[0]] + [LONG_RUN[1]];
    LastStep(START, [], LONG_RUN[0]);
    assert [] + [LONG_RUN[0]] == [LONG_RUN[0]];
    LastStep(START, [LONG_RUN[0]], LONG_RUN[1]);
    assert After(START, LONG_RUN) == t;
    assert |LONG_ID| == 50;
    assert t.files == map[LONG_ID := 0];
  }
}

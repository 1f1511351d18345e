/** The shell table of hypervisor/shells/shells.c as a state machine: 256 slots, the project files
    under /tmp/wyliodrin and the responses published so far.  Every handler and every end of a
    shell's process is one step. */
module ShellTable {

  import opened Basics

  const MAX_SHELLS := 256

  datatype Shell = Shell(id: nat, width: int, height: int, pid: int, request: Option<string>,
                         project: Option<string>, user: Option<string>, connected: bool)

  /** A shell id attribute: a text that is a number, or one that `strtol` does not take in full. */
  datatype ShellRef = Number(text: string, id: int) | Garbage(text: string)

  /** A width or height attribute. */
  datatype Extent = Missing | Invalid | Cells(n: int)

  datatype Response =
    | Opened(request: string, slot: nat, running: bool)
    | OpenFailed(request: string)
    | Closed(request: string, shell: string, code: int)
    | Status(request: string, project: string, running: bool)

  /** What is done to a shell's process: the stop command is run on it, or text is written to its
      terminal. */
  datatype Effect = Stopped(pid: int) | Typed(pid: int, text: string)

  datatype State = State(slots: seq<Option<Shell>>, files: map<string, nat>, sent: seq<Response>, effects: seq<Effect>)

  /** After `init_shells`. */
  const START := State(seq(MAX_SHELLS, _ => None), map[], [], [])

  // ----- file names -----

  function Cut(p: string, n: nat): string {
    if |p| <= n then p else p[..n]
  }

  /** The part of a project id that fits behind "/tmp/wyliodrin/" in the 128 bytes `open` gets. */
  function OpenKey(p: string): string { Cut(p, 112) }

  /** ... in the 127 bytes of `shells_status` ... */
  function StatusKey(p: string): string { Cut(p, 111) }

  /** ... and in the 64 bytes `read_routine` passes to `remove`. */
  function RemoveKey(p: string): string { Cut(p, 48) }

  // ----- responses and their buffers -----

  function Decimal(n: nat): string {
    if n < 10 then [('0' as int + n) as char] else Decimal(n / 10) + [('0' as int + n % 10) as char]
  }

  function Printed(n: int): string {
    if n < 0 then "-" + Decimal(-n) else Decimal(n)
  }

  predicate Digits(s: string) {
    forall i :: 0 <= i < |s| ==> '0' <= s[i] <= '9'
  }

  /** The number that digits stand for, the most significant one first. */
  function NumberIn(s: string): nat
    requires Digits(s)
  {
    if s == [] then 0 else 10 * NumberIn(s[..|s| - 1]) + (s[|s| - 1] as int - '0' as int)
  }

  /** A number is printed as digits that read as the number, without leading zeros. */
  lemma {:induction false} DecimalReads(n: nat)
    ensures Digits(Decimal(n)) && NumberIn(Decimal(n)) == n
    ensures Decimal(n) != [] && (Decimal(n)[0] == '0' ==> n == 0 && |Decimal(n)| == 1)
  {
    if n >= 10 {
      DecimalReads(n / 10);
      assert Decimal(n)[..|Decimal(n)| - 1] == Decimal(n / 10);
    } else {
      assert Decimal(n)[..0] == [];
    }
  }

  lemma {:induction false} PrintedReads(n: int)
    ensures n >= 0 ==> Digits(Printed(n)) && NumberIn(Printed(n)) == n
    ensures n < 0 ==>
      && |Printed(n)| > 1 && Printed(n)[0] == '-'
      && Digits(Printed(n)[1..]) && NumberIn(Printed(n)[1..]) == -n
  {
    DecimalReads(if n < 0 then -n else n);
    assert n < 0 ==> Printed(n)[1..] == Decimal(-n);
  }

  /** The bytes of a MessagePack string. */
  function StrSize(n: nat): nat {
    n + if n <= 31 then 1 else if n <= 0xFF then 2 else if n <= 0xFFFF then 3 else 5
  }

  /** The keys and values of a response, in the order in which they are written. */
  function Strings(r: Response): seq<string> {
    match r
    case Opened(request, slot, running) =>
      ["a", "o", "r", request, "re", "done", "s", Decimal(slot), "ru", if running then "true" else "false"]
    case OpenFailed(request) => ["a", "o", "r", request, "re", "error"]
    case Closed(request, shell, code) => ["a", "c", "r", request, "s", shell, "c", Printed(code)]
    case Status(request, project, running) =>
      ["a", "s", "r", request, "p", project, "ru", if running then "true" else "false"]
  }

  function TotalSize(ss: seq<string>): nat {
    if ss == [] then 0 else StrSize(|ss[0]|) + TotalSize(ss[1..])
  }

  /** A one-byte map header and the strings. */
  function ResponseSize(r: Response): nat {
    1 + TotalSize(Strings(r))
  }

  /** The size of the buffer a response is written to. */
  function Room(r: Response): nat {
    if r.Opened? || r.OpenFailed? then 256 else 128
  }

  /** A response that overflows its buffer is not published. */
  predicate FitsBuffer(r: Response) {
    ResponseSize(r) <= Room(r)
  }

  lemma {:induction false} SizeOfTwo(ss: seq<string>)
    requires |ss| >= 2
    ensures TotalSize(ss) == StrSize(|ss[0]|) + StrSize(|ss[1]|) + TotalSize(ss[2..])
  {
    assert ss[1..][1..] == ss[2..];
  }

  /** The sizes in terms of what varies. */
  lemma {:induction false} ResponseSizes(r: Response)
    ensures ResponseSize(r) == StrSize(|r.request|) + match r
      case Opened(_, slot, running) => StrSize(|Decimal(slot)|) + if running then 25 else 26
      case OpenFailed(_) => 16
      case Closed(_, shell, code) => StrSize(|shell|) + StrSize(|Printed(code)|) + 11
      case Status(_, project, running) => StrSize(|project|) + if running then 17 else 18
  {
    var ss := Strings(r);
    SizeOfTwo(ss);
    SizeOfTwo(ss[2..]);
    SizeOfTwo(ss[2..][2..]);
    if |ss| > 6 {
      SizeOfTwo(ss[2..][2..][2..]);
    }
    if |ss| > 8 {
      SizeOfTwo(ss[2..][2..][2..][2..]);
    }
  }

  function Publish(s: State, r: Response): State {
    if FitsBuffer(r) then s.(sent := s.sent + [r]) else s
  }

  // ----- opening -----

  /** `get_entry_in_shells_vector` from slot `i` on. */
  function FirstFree(slots: seq<Option<Shell>>, i: nat): (k: nat)
    requires i <= |slots|
    ensures i <= k <= |slots|
    ensures k < |slots| ==> slots[k] == None
    ensures forall j :: i <= j < k ==> slots[j].Some?
    decreases |slots| - i
  {
    if i == |slots| || slots[i].None? then i else FirstFree(slots, i + 1)
  }

  function OpenError(s: State, request: Option<string>): State {
    if request.None? then s else Publish(s, OpenFailed(request.value))
  }

  /** The project is already running: its shell gets the new request and user.  (The source indexes
      the vector with whatever the file holds; `FilesStayInRange` shows that it is always an index.) */
  function Reopen(s: State, request: Option<string>, user: Option<string>, i: nat): State {
    if request.None? || user.None? || i >= |s.slots| || s.slots[i].None? then s
    else
      var shell := s.slots[i].value.(request := request, user := user, connected := true);
      Publish(s.(slots := s.slots[i := Some(shell)]), Opened(request.value, i, true))
  }

  /** A shell takes the free slot `i`. */
  function FilledIn(s: State, i: nat, shell: Shell): State
    requires i < |s.slots|
  {
    s.(slots := s.slots[i := Some(shell)],
       files := if shell.project.None? then s.files else s.files[OpenKey(shell.project.value) := i])
  }

  /** A new shell in the first free slot. */
  function Allocate(s: State, request: Option<string>, width: int, height: int,
                    project: Option<string>, user: Option<string>, pid: int): State {
    var i := FirstFree(s.slots, 0);
    if i == |s.slots| then OpenError(s, request)
    else
      var t := FilledIn(s, i, Shell(i, width, height, pid, request, project, user, request.Some?));
      if request.None? then t else Publish(t, Opened(request.value, i, false))
  }

  /** `open_shell_or_project`; `pid` is what `forkpty` returns. */
  function Open(s: State, request: Option<string>, width: Extent, height: Extent,
                project: Option<string>, user: Option<string>, pid: int): State {
    if width.Missing? || height.Missing? then s
    else if project.Some? && OpenKey(project.value) in s.files then
      Reopen(s, request, user, s.files[OpenKey(project.value)])
    else if width.Invalid? || height.Invalid? || pid == -1 then OpenError(s, request)
    else Allocate(s, request, width.n, height.n, project, if project.Some? then user else None, pid)
  }

  // ----- the other handlers -----

  function WithShell(s: State, i: nat, shell: Shell): State
    requires i < |s.slots|
  {
    s.(slots := s.slots[i := Some(shell)])
  }

  function Act(s: State, effect: Effect): State {
    s.(effects := s.effects + [effect])
  }

  function Close(s: State, request: string, shell: ShellRef, background: bool): State
    requires shell.Number? ==> 0 <= shell.id < |s.slots|
  {
    if shell.Garbage? || s.slots[shell.id].None? then Publish(s, Closed(request, shell.text, -1))
    else
      var closed := s.slots[shell.id].value.(request := Some(request), connected := false);
      var t := WithShell(s, shell.id, closed);
      if background then t else Act(t, Stopped(closed.pid))
  }

  /** `shells_keys` with some text. */
  function Keys(s: State, request: string, shell: ShellRef, text: string): State
    requires shell.Number? ==> 0 <= shell.id < |s.slots|
  {
    if shell.Garbage? || s.slots[shell.id].None? then s
    else
      var asked := s.slots[shell.id].value.(request := Some(request));
      Act(WithShell(s, shell.id, asked), Typed(asked.pid, text))
  }

  function Disconnect(s: State, shell: ShellRef): State
    requires shell.Number? ==> 0 <= shell.id < |s.slots|
  {
    if shell.Garbage? || s.slots[shell.id].None? then s
    else WithShell(s, shell.id, s.slots[shell.id].value.(connected := false))
  }

  function AskStatus(s: State, request: string, project: string): State {
    Publish(s, Status(request, project, StatusKey(project) in s.files))
  }

  // ----- the end of a shell's process -----

  datatype Ending = Exited(code: nat) | Killed(signal: nat)

  const SIGSEGV := 11

  /** WEXITSTATUS, which is 0 for a process that a signal ended. */
  function ExitCode(e: Ending): nat {
    if e.Exited? then e.code else 0
  }

  predicate Failed(e: Ending) {
    (e.Exited? && e.code != 0) || e == Killed(SIGSEGV)
  }

  predicate Restarts(shell: Shell, e: Ending) {
    !shell.connected && shell.project.Some? && Failed(e)
  }

  /** What `snprintf` with room for `d` characters keeps of a decimal number. */
  function Shorten(n: nat, limit: nat): nat
    requires limit > 0
  {
    if n < limit then n else Shorten(n / 10, limit)
  }

  /** A width or height after printing it into 8 bytes and reading it back. */
  function Reprinted(n: int): int {
    if n < 0 then -(Shorten(-n, 1_000_000) as int) else Shorten(n, 10_000_000)
  }

  /** The slot and the project file are given up. */
  function Release(s: State, i: nat): State
    requires i < |s.slots| && s.slots[i].Some?
  {
    var shell := s.slots[i].value;
    s.(slots := s.slots[i := None],
       files := if shell.project.None? then s.files else s.files - {RemoveKey(shell.project.value)})
  }

  /** The end of `read_routine`. */
  function Exit(s: State, i: nat, e: Ending, pid: int): State
    requires i < |s.slots| && s.slots[i].Some?
  {
    var shell := s.slots[i].value;
    var t := if shell.request.None? then s
             else Publish(s, Closed(shell.request.value, Decimal(shell.id), ExitCode(e)));
    var u := Release(t, i);
    if Restarts(shell, e) then
      Open(u, None, Cells(Reprinted(shell.width)), Cells(Reprinted(shell.height)), shell.project, shell.user, pid)
    else u
  }

  // ----- steps -----

  /** The messages the shells module gets, and the ends of shells.  `None` is a missing attribute. */
  datatype Event =
    | OpenRequest(request: Option<string>, width: Extent, height: Extent,
                  project: Option<string>, user: Option<string>, pid: int)
    | CloseRequest(request: Option<string>, shell: Option<ShellRef>, background: bool)
    | KeysRequest(request: Option<string>, shell: Option<ShellRef>, text: string)
    | DisconnectRequest(request: Option<string>, shell: Option<ShellRef>)
    | StatusRequest(request: Option<string>, project: Option<string>)
    | ProcessEnd(slot: nat, ending: Ending, pid: int)

  predicate InRange(shell: Option<ShellRef>) {
    shell.Some? && shell.value.Number? ==> 0 <= shell.value.id < MAX_SHELLS
  }

  /** The steps the C program defines: shell ids index the vector, only a live shell's process can
      end, and a project that restarts has a user id to copy. */
  predicate Defined(s: State, e: Event) {
    match e
    case OpenRequest(_, _, _, _, _, _) => true
    case CloseRequest(_, shell, _) => InRange(shell)
    case KeysRequest(_, shell, _) => InRange(shell)
    case DisconnectRequest(_, shell) => InRange(shell)
    case StatusRequest(_, _) => true
    case ProcessEnd(i, ending, _) =>
      && i < |s.slots| && s.slots[i].Some?
      && (Restarts(s.slots[i].value, ending) ==> s.slots[i].value.user.Some?)
  }

  function Step(s: State, e: Event): (t: State)
    requires |s.slots| == MAX_SHELLS && Defined(s, e)
    ensures |t.slots| == MAX_SHELLS
  {
    match e
    case OpenRequest(request, width, height, project, user, pid) =>
      if request.None? then s
      else if width.Missing? || height.Missing? then OpenError(s, request)
      else Open(s, request, width, height, project, user, pid)
    case CloseRequest(request, shell, background) =>
      if request.None? || shell.None? then s else Close(s, request.value, shell.value, background)
    case KeysRequest(request, shell, text) =>
      if request.None? || shell.None? || text == "" then s else Keys(s, request.value, shell.value, text)
    case DisconnectRequest(request, shell) =>
      if request.None? || shell.None? then s else Disconnect(s, shell.value)
    case StatusRequest(request, project) =>
      if request.None? || project.None? then s else AskStatus(s, request.value, project.value)
    case ProcessEnd(i, ending, pid) => Exit(s, i, ending, pid)
  }

  // ----- the two representations of "what is running" -----

  /** The file `key` belongs to slot `i`. */
  predicate RunsIn(s: State, key: string, i: nat) {
    && i < |s.slots| && s.slots[i].Some?
    && s.slots[i].value.project.Some? && OpenKey(s.slots[i].value.project.value) == key
  }

  /** A project file holds `i` exactly when slot `i` is a live shell with that project. */
  ghost predicate Inv(s: State) {
    && |s.slots| == MAX_SHELLS
    && (forall i :: 0 <= i < |s.slots| && s.slots[i].Some? ==> s.slots[i].value.id == i)
    && (forall k :: k in s.files ==> RunsIn(s, k, s.files[k]))
    && (forall k, i :: RunsIn(s, k, i) ==> k in s.files && s.files[k] == i)
  }

  /** Publishing changes neither representation. */
  lemma PublishKeepsInv(s: State, r: Response)
    requires Inv(s)
    ensures Inv(Publish(s, r))
  {
    assert forall k, i :: RunsIn(Publish(s, r), k, i) <==> RunsIn(s, k, i);
  }

  lemma ActKeepsInv(s: State, effect: Effect)
    requires Inv(s)
    ensures Inv(Act(s, effect))
  {
    assert forall k, i :: RunsIn(Act(s, effect), k, i) <==> RunsIn(s, k, i);
  }

  lemma UpdateKeepsInv(s: State, i: nat, shell: Shell)
    requires Inv(s) && i < |s.slots| && s.slots[i].Some?
    requires shell.id == i && shell.project == s.slots[i].value.project
    ensures Inv(WithShell(s, i, shell))
  {
    var t := WithShell(s, i, shell);
    assert forall k, j :: RunsIn(t, k, j) <==> RunsIn(s, k, j);
  }

  lemma FillKeepsInv(s: State, i: nat, shell: Shell)
    requires Inv(s) && i < |s.slots| && s.slots[i].None? && shell.id == i
    requires shell.project.Some? ==> OpenKey(shell.project.value) !in s.files
    ensures Inv(FilledIn(s, i, shell))
  {
    hide OpenKey;
    var t := FilledIn(s, i, shell);
    assert forall k, j :: j != i ==> (RunsIn(t, k, j) <==> RunsIn(s, k, j));
    assert forall k :: RunsIn(t, k, i) <==> shell.project.Some? && OpenKey(shell.project.value) == k;
  }

  lemma AllocateKeepsInv(s: State, request: Option<string>, width: int, height: int,
                         project: Option<string>, user: Option<string>, pid: int)
    requires Inv(s) && (project.Some? ==> OpenKey(project.value) !in s.files)
    ensures Inv(Allocate(s, request, width, height, project, user, pid))
  {
    hide Publish, RunsIn, OpenKey;
    var i := FirstFree(s.slots, 0);
    if i < MAX_SHELLS {
      var shell := Shell(i, width, height, pid, request, project, user, request.Some?);
      FillKeepsInv(s, i, shell);
      if request.Some? {
        PublishKeepsInv(FilledIn(s, i, shell), Opened(request.value, i, false));
      }
    } else if request.Some? {
      PublishKeepsInv(s, OpenFailed(request.value));
    }
  }

  lemma OpenKeepsInv(s: State, request: Option<string>, width: Extent, height: Extent,
                     project: Option<string>, user: Option<string>, pid: int)
    requires Inv(s)
    ensures Inv(Open(s, request, width, height, project, user, pid))
  {
    hide FitsBuffer, OpenKey, Allocate;
    if request.Some? {
      PublishKeepsInv(s, OpenFailed(request.value));
    }
    if width.Missing? || height.Missing? {
    } else if project.Some? && OpenKey(project.value) in s.files {
      var i := s.files[OpenKey(project.value)];
      assert RunsIn(s, OpenKey(project.value), i);
      if request.Some? && user.Some? {
        var shell := s.slots[i].value.(request := request, user := user, connected := true);
        UpdateKeepsInv(s, i, shell);
        PublishKeepsInv(WithShell(s, i, shell), Opened(request.value, i, true));
      }
    } else if !width.Invalid? && !height.Invalid? && pid != -1 {
      AllocateKeepsInv(s, request, width.n, height.n, project, if project.Some? then user else None, pid);
    }
  }

  /** Giving up slot `i` keeps the two representations in agreement exactly when the path built for
      `remove` was not cut off. */
  lemma ReleaseKeepsInv(s: State, i: nat)
    requires Inv(s) && i < |s.slots| && s.slots[i].Some?
    ensures var p := s.slots[i].value.project;
      Inv(Release(s, i)) <==> (p.Some? ==> |p.value| <= 48)
  {
    var p, t := s.slots[i].value.project, Release(s, i);
    if p.Some? {
      assert RunsIn(s, OpenKey(p.value), i);
      if |p.value| > 48 {
        assert OpenKey(p.value) in t.files && t.files[OpenKey(p.value)] == i;
        assert !RunsIn(t, OpenKey(p.value), i);
      } else {
        assert OpenKey(p.value) == p.value == RemoveKey(p.value);
      }
    }
    assert forall k, j :: RunsIn(t, k, j) <==> j != i && RunsIn(s, k, j);
  }

  /** The state of `ProcessEnd` before a restart. */
  function Released(s: State, i: nat, e: Ending): State
    requires i < |s.slots| && s.slots[i].Some?
  {
    var shell := s.slots[i].value;
    Release(if shell.request.None? then s
            else Publish(s, Closed(shell.request.value, Decimal(shell.id), ExitCode(e))), i)
  }

  /** With a longer id the file that stays behind also makes the restart give up. */
  lemma StaleFileBlocksRestart(s: State, i: nat, e: Ending, pid: int)
    requires Inv(s) && i < |s.slots| && s.slots[i].Some? && Restarts(s.slots[i].value, e)
    requires |s.slots[i].value.project.value| > 48
    ensures Exit(s, i, e, pid) == Released(s, i, e)
  {
    hide FitsBuffer;
    var p := s.slots[i].value.project.value;
    assert RunsIn(s, OpenKey(p), i);
  }

  /** The end of a shell keeps the agreement exactly when its project id has at most 48 characters:
      a longer one keeps its file, which no longer names a live shell. */
  lemma ExitKeepsInv(s: State, i: nat, e: Ending, pid: int)
    requires Inv(s) && i < |s.slots| && s.slots[i].Some?
    ensures var p := s.slots[i].value.project;
      Inv(Exit(s, i, e, pid)) <==> (p.Some? ==> |p.value| <= 48)
  {
    hide Open, FitsBuffer;
    var shell := s.slots[i].value;
    if shell.request.Some? {
      PublishKeepsInv(s, Closed(shell.request.value, Decimal(shell.id), ExitCode(e)));
    }
    var u := Released(s, i, e);
    ReleaseKeepsInv(if shell.request.None? then s
                    else Publish(s, Closed(shell.request.value, Decimal(shell.id), ExitCode(e))), i);
    if Restarts(shell, e) {
      if |shell.project.value| <= 48 {
        var width, height := Cells(Reprinted(shell.width)), Cells(Reprinted(shell.height));
        OpenKeepsInv(u, None, width, height, shell.project, shell.user, pid);
      } else {
        StaleFileBlocksRestart(s, i, e, pid);
      }
    }
  }
}

/** What holds after every run of the shell table: the project files and the slots agree, a project
    has one slot, a failed background project comes back, and each end of a shell is reported once. */
module ShellRuns {
  import opened Basics
  import opened ShellTable

  // ----- runs -----

  predicate Possible(s: State, es: seq<Event>)
    requires |s.slots| == MAX_SHELLS
    decreases |es|
  {
    es == [] || (Defined(s, es[0]) && Possible(Step(s, es[0]), es[1..]))
  }

  function After(s: State, es: seq<Event>): (t: State)
    requires |s.slots| == MAX_SHELLS && Possible(s, es)
    ensures |t.slots| == MAX_SHELLS
    decreases |es|
  {
    if es == [] then s else After(Step(s, es[0]), es[1..])
  }

  /** A run is its beginning and then its last step. */
  lemma {:induction false} LastStep(s: State, es: seq<Event>, e: Event)
    requires |s.slots| == MAX_SHELLS
    ensures Possible(s, es + [e]) <==> Possible(s, es) && Defined(After(s, es), e)
    ensures Possible(s, es + [e]) ==> After(s, es + [e]) == Step(After(s, es), e)
    decreases |es|
  {
    hide Step, Defined;
    var all := es + [e];
    if es == [] {
      assert all[1..] == [] && Possible(s, es);
    } else {
      assert all[0] == es[0] && all[1..] == es[1..] + [e];
      if Defined(s, es[0]) {
        LastStep(Step(s, es[0]), es[1..], e);
      }
    }
  }

  // ----- the files and the slots agree -----

  /** The step does not end a project whose path is cut off in `remove`. */
  predicate Removable(s: State, e: Event)
    requires Defined(s, e)
  {
    e.ProcessEnd? && s.slots[e.slot].value.project.Some? ==> |s.slots[e.slot].value.project.value| <= 48
  }

  lemma RequestKeepsInv(s: State, shell: ShellRef)
    requires Inv(s) && InRange(Some(shell))
    ensures shell.Number? && s.slots[shell.id].Some? ==> forall request, connected ::
      Inv(WithShell(s, shell.id, s.slots[shell.id].value.(request := request, connected := connected)))
  {
    hide RunsIn;
    if shell.Number? && s.slots[shell.id].Some? {
      forall request, connected
        ensures Inv(WithShell(s, shell.id, s.slots[shell.id].value.(request := request, connected := connected)))
      {
        UpdateKeepsInv(s, shell.id, s.slots[shell.id].value.(request := request, connected := connected));
      }
    }
  }

  /** Every step keeps the agreement, except the end of a project with a longer id, which never does. */
  lemma StepKeepsInv(s: State, e: Event)
    requires Inv(s) && Defined(s, e)
    ensures Inv(Step(s, e)) <==> Removable(s, e)
  {
    hide FitsBuffer, Open, Exit, RunsIn;
    match e
    case OpenRequest(request, width, height, project, user, pid) =>
      if request.Some? {
        PublishKeepsInv(s, OpenFailed(request.value));
        OpenKeepsInv(s, request, width, height, project, user, pid);
      }
    case CloseRequest(request, shell, _) =>
      if request.Some? && shell.Some? {
        PublishKeepsInv(s, Closed(request.value, shell.value.text, -1));
        RequestKeepsInv(s, shell.value);
        if shell.value.Number? && s.slots[shell.value.id].Some? {
          var closed := s.slots[shell.value.id].value.(request := request, connected := false);
          ActKeepsInv(WithShell(s, shell.value.id, closed), Stopped(closed.pid));
        }
      }
    case KeysRequest(request, shell, text) =>
      if request.Some? && shell.Some? {
        RequestKeepsInv(s, shell.value);
        if shell.value.Number? && s.slots[shell.value.id].Some? {
          var asked := s.slots[shell.value.id].value.(request := request);
          ActKeepsInv(WithShell(s, shell.value.id, asked), Typed(asked.pid, text));
        }
      }
    case DisconnectRequest(request, shell) =>
      if request.Some? && shell.Some? {
        RequestKeepsInv(s, shell.value);
      }
    case StatusRequest(request, project) =>
      if request.Some? && project.Some? {
        PublishKeepsInv(s, Status(request.value, project.value, StatusKey(project.value) in s.files));
      }
    case ProcessEnd(i, ending, pid) =>
      ExitKeepsInv(s, i, ending, pid);
  }

  /** A file that names no live shell of its project and that no `remove` can reach. */
  predicate Stale(s: State, key: string) {
    key in s.files && |key| > 48 && !RunsIn(s, key, s.files[key])
  }

  lemma StaleFileOutlivesOpen(s: State, request: Option<string>, width: Extent, height: Extent,
                              project: Option<string>, user: Option<string>, pid: int, key: string)
    requires |s.slots| == MAX_SHELLS && Stale(s, key)
    ensures Stale(Open(s, request, width, height, project, user, pid), key)
  {
    hide FitsBuffer, OpenKey;
  }

  /** Such a file stays, in any state. */
  lemma StaleFileStays(s: State, e: Event, key: string)
    requires |s.slots| == MAX_SHELLS && Defined(s, e) && Stale(s, key)
    ensures Stale(Step(s, e), key)
  {
    hide FitsBuffer, OpenKey, Open;
    match e
    case OpenRequest(request, width, height, project, user, pid) =>
      StaleFileOutlivesOpen(s, request, width, height, project, user, pid, key);
    case ProcessEnd(i, ending, pid) =>
      var shell, u := s.slots[i].value, Released(s, i, ending);
      assert Stale(u, key);
      StaleFileOutlivesOpen(u, None, Cells(Reprinted(shell.width)), Cells(Reprinted(shell.height)),
                            shell.project, shell.user, pid, key);
    case _ =>
  }

  /** The first end of a project with a longer id leaves one behind. */
  lemma LongIdGoesStale(s: State, e: Event) returns (key: string)
    requires Inv(s) && Defined(s, e) && !Removable(s, e)
    ensures Stale(Step(s, e), key)
  {
    hide FitsBuffer, Open;
    var shell := s.slots[e.slot].value;
    var p := shell.project.value;
    key := OpenKey(p);
    assert RunsIn(s, key, e.slot);
    var u := Released(s, e.slot, e.ending);
    assert Stale(u, key);
    StaleFileOutlivesOpen(u, None, Cells(Reprinted(shell.width)), Cells(Reprinted(shell.height)),
                          shell.project, shell.user, e.pid, key);
  }

  /** No step of the run ends a project whose id is too long for `remove`. */
  predicate Clean(s: State, es: seq<Event>)
    requires |s.slots| == MAX_SHELLS && Possible(s, es)
    decreases |es|
  {
    es == [] || (Removable(s, es[0]) && Clean(Step(s, es[0]), es[1..]))
  }

  lemma {:induction false} StaleFileStaysForever(s: State, es: seq<Event>, key: string)
    requires |s.slots| == MAX_SHELLS && Possible(s, es) && Stale(s, key)
    ensures Stale(After(s, es), key)
    decreases |es|
  {
    hide Step, Defined, Stale;
    if es != [] {
      StaleFileStays(s, es[0], key);
      StaleFileStaysForever(Step(s, es[0]), es[1..], key);
    }
  }

  /** After any run, a project file holds `i` exactly when slot `i` is a live shell with that project
      and id `i`, if and only if no project with more than 48 characters ended on the way. */
  lemma {:induction false} RunAgrees(s: State, es: seq<Event>)
    requires Inv(s) && Possible(s, es)
    ensures Inv(After(s, es)) <==> Clean(s, es)
    decreases |es|
  {
    hide Step, Defined, Removable, OpenKey;
    if es != [] {
      StepKeepsInv(s, es[0]);
      if Removable(s, es[0]) {
        RunAgrees(Step(s, es[0]), es[1..]);
      } else {
        var key := LongIdGoesStale(s, es[0]);
        StaleFileStaysForever(Step(s, es[0]), es[1..], key);
      }
    }
  }

  lemma StartAgrees()
    ensures Inv(START)
  {
    assert forall k, i :: !RunsIn(START, k, i);
  }

  predicate ShortName(project: Option<string>) {
    project.Some? ==> |project.value| <= 48
  }

  predicate ShortNames(s: State) {
    forall i :: 0 <= i < |s.slots| && s.slots[i].Some? ==> ShortName(s.slots[i].value.project)
  }

  predicate OpensShortNames(es: seq<Event>) {
    forall i :: 0 <= i < |es| && es[i].OpenRequest? ==> ShortName(es[i].project)
  }

  lemma StepKeepsShortNames(s: State, e: Event)
    requires |s.slots| == MAX_SHELLS && Defined(s, e) && ShortNames(s)
    requires e.OpenRequest? ==> ShortName(e.project)
    ensures Removable(s, e) && ShortNames(Step(s, e))
  {
    hide FitsBuffer, OpenKey, RemoveKey;
  }

  /** So while every opened project has at most 48 characters, the two always agree. */
  lemma {:induction false} ShortNamesAgree(s: State, es: seq<Event>)
    requires Inv(s) && ShortNames(s) && Possible(s, es) && OpensShortNames(es)
    ensures Inv(After(s, es)) && Clean(s, es)
    decreases |es|
  {
    hide Step, Defined, Removable, ShortNames;
    if es != [] {
      StepKeepsInv(s, es[0]);
      StepKeepsShortNames(s, es[0]);
      ShortNamesAgree(Step(s, es[0]), es[1..]);
    }
  }
}

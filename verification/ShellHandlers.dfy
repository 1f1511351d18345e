/** The handlers of hypervisor/shells/shells.c over the vector of shell records they update in place.
    Each is one step of `ShellTable`. */
module ShellHandlers {
  import opened Basics
  import opened ShellTable
  import opened ShellPromises

  /** `shell_t`. */
  class Record {
    var id: nat
    var width: int
    var height: int
    var pid: int
    var request: Option<string>
    var project: Option<string>
    var user: Option<string>
    var connected: bool

    function Value(): Shell
      reads this
    {
      Shell(id, width, height, pid, request, project, user, connected)
    }

    constructor (id: nat, width: int, height: int, pid: int, request: Option<string>, project: Option<string>,
                 user: Option<string>)
      ensures Value() == Shell(id, width, height, pid, request, project, user, request.Some?)
    {
      this.id, this.width, this.height, this.pid := id, width, height, pid;
      this.request, this.project, this.user := request, project, user;
      connected := request.Some?;
    }
  }

  class Hypervisor {
    const shells: array<Record?>
    var files: map<string, nat>
    var sent: seq<Response>
    var effects: seq<Effect>
    ghost var table: State
    ghost var records: set<Record>

    /** `table` is the value of the records, the files and the responses. */
    ghost predicate Valid()
      reads this, shells, records
    {
      && shells.Length == |table.slots| == MAX_SHELLS
      && table.files == files && table.sent == sent && table.effects == effects
      && FilesInRange(table)
      && (forall i :: 0 <= i < MAX_SHELLS ==> (shells[i] == null <==> table.slots[i].None?))
      && (forall i :: 0 <= i < MAX_SHELLS && shells[i] != null ==> shells[i] in records)
      && (forall i :: 0 <= i < MAX_SHELLS && shells[i] != null ==> shells[i].id == i)
      && (forall i :: 0 <= i < MAX_SHELLS && shells[i] != null ==> shells[i].Value() == table.slots[i].value)
    }

    /** `init_shells`. */
    constructor ()
      ensures Valid() && fresh(shells) && fresh(records) && table == START
    {
      shells := new Record?[MAX_SHELLS](_ => null);
      files, sent, effects, table, records := map[], [], [], START, {};
    }

    method Send(r: Response)
      requires Valid()
      modifies this
      ensures Valid() && records == old(records) && table == Publish(old(table), r)
    {
      if FitsBuffer(r) {
        sent := sent + [r];
        table := table.(sent := sent);
      }
    }

    /** The stop command is run, or text is written to a terminal. */
    method Do(effect: Effect)
      requires Valid()
      modifies this
      ensures Valid() && records == old(records) && table == Act(old(table), effect)
    {
      effects := effects + [effect];
      table := table.(effects := effects);
    }

    /** `get_entry_in_shells_vector`. */
    method GetEntry() returns (i: nat)
      requires Valid()
      ensures i == FirstFree(table.slots, 0)
    {
      i := 0;
      while i < MAX_SHELLS
        invariant i <= MAX_SHELLS && FirstFree(table.slots, 0) == FirstFree(table.slots, i)
      {
        if shells[i] == null {
          return;
        }
        i := i + 1;
      }
    }

    /** A live record gets a new request, user or connection. */
    method Update(i: nat, request: Option<string>, user: Option<string>, connected: bool)
      requires Valid() && i < MAX_SHELLS && shells[i] != null
      modifies this, shells[i]
      ensures Valid() && records == old(records)
      ensures table == WithShell(old(table), i,
                old(table).slots[i].value.(request := request, user := user, connected := connected))
    {
      shells[i].request, shells[i].user, shells[i].connected := request, user, connected;
      table := WithShell(table, i, shells[i].Value());
    }

    /** `allocate_memory_for_new_shell`. */
    method AllocateRecord(i: nat, pid: int, width: int, height: int, request: Option<string>,
                          project: Option<string>, user: Option<string>) returns (ok: bool)
      requires Valid() && i < MAX_SHELLS
      modifies this, shells
      ensures Valid() && fresh(records - old(records))
      ensures ok <==> old(table).slots[i].None?
      ensures table ==
        if !ok then old(table)
        else WithShell(old(table), i, Shell(i, width, height, pid, request, project, user, request.Some?))
    {
      if shells[i] != null {
        return false;
      }
      var record := new Record(i, width, height, pid, request, project, user);
      shells[i] := record;
      records := records + {record};
      table := WithShell(table, i, record.Value());
      return true;
    }

    method SendOpenError(request: Option<string>)
      requires Valid()
      modifies this
      ensures Valid() && records == old(records) && table == OpenError(old(table), request)
    {
      if request.Some? {
        Send(OpenFailed(request.value));
      }
    }

    /** The part of `open_shell_or_project` after the fork. */
    method OpenNew(request: Option<string>, width: int, height: int, project: Option<string>,
                   user: Option<string>, pid: int)
      requires Valid()
      modifies this, shells
      ensures Valid() && fresh(records - old(records))
      ensures table == Allocate(old(table), request, width, height, project, user, pid)
    {
      var i := GetEntry();
      if i == MAX_SHELLS {
        SendOpenError(request);
        return;
      }
      var ok := AllocateRecord(i, pid, width, height, request, project, user);
      assert ok;
      if project.Some? {
        files := files[OpenKey(project.value) := i];
        table := table.(files := files);
      }
      if request.Some? {
        Send(Opened(request.value, i, false));
      }
    }

    /** `open_shell_or_project`. */
    method OpenShellOrProject(request: Option<string>, width: Extent, height: Extent,
                              project: Option<string>, user: Option<string>, pid: int)
      requires Valid()
      modifies this, shells, records
      ensures Valid() && fresh(records - old(records))
      ensures table == Open(old(table), request, width, height, project, user, pid)
    {
      if width.Missing? || height.Missing? {
        return;
      }
      if project.Some? && OpenKey(project.value) in files {
        if request.None? || user.None? {
          return;
        }
        var i := files[OpenKey(project.value)];
        if shells[i] == null {
          return;
        }
        Update(i, request, user, true);
        Send(Opened(request.value, i, true));
        return;
      }
      if width.Invalid? || height.Invalid? || pid == -1 {
        SendOpenError(request);
        return;
      }
      OpenNew(request, width.n, height.n, project, if project.Some? then user else None, pid);
    }

    /** `shells_open`. */
    method ShellsOpen(request: Option<string>, width: Extent, height: Extent,
                      project: Option<string>, user: Option<string>, pid: int)
      requires Valid()
      modifies this, shells, records
      ensures Valid() && fresh(records - old(records))
      ensures table == Step(old(table), OpenRequest(request, width, height, project, user, pid))
    {
      if request.None? {
        return;
      }
      if width.Missing? || height.Missing? {
        SendOpenError(request);
        return;
      }
      OpenShellOrProject(request, width, height, project, user, pid);
    }

    /** `shells_close`. */
    method ShellsClose(request: Option<string>, shell: Option<ShellRef>, background: bool)
      requires Valid() && InRange(shell)
      modifies this, records
      ensures Valid() && records == old(records)
      ensures table == Step(old(table), CloseRequest(request, shell, background))
    {
      if request.None? || shell.None? {
        return;
      }
      if shell.value.Garbage? || shells[shell.value.id] == null {
        Send(Closed(request.value, shell.value.text, -1));
        return;
      }
      Update(shell.value.id, request, shells[shell.value.id].user, false);
      if !background {
        Do(Stopped(shells[shell.value.id].pid));
      }
    }

    /** `shells_keys`. */
    method ShellsKeys(request: Option<string>, shell: Option<ShellRef>, text: string)
      requires Valid() && InRange(shell)
      modifies this, records
      ensures Valid() && records == old(records)
      ensures table == Step(old(table), KeysRequest(request, shell, text))
    {
      if request.None? || shell.None? || text == "" {
        return;
      }
      if shell.value.Garbage? || shells[shell.value.id] == null {
        return;
      }
      Update(shell.value.id, request, shells[shell.value.id].user, shells[shell.value.id].connected);
      Do(Typed(shells[shell.value.id].pid, text));
    }

    /** `shells_disconnect`. */
    method ShellsDisconnect(request: Option<string>, shell: Option<ShellRef>)
      requires Valid() && InRange(shell)
      modifies this, records
      ensures Valid() && records == old(records)
      ensures table == Step(old(table), DisconnectRequest(request, shell))
    {
      if request.None? || shell.None? || shell.value.Garbage? || shells[shell.value.id] == null {
        return;
      }
      Update(shell.value.id, shells[shell.value.id].request, shells[shell.value.id].user, false);
    }

    /** `shells_status`. */
    method ShellsStatus(request: Option<string>, project: Option<string>)
      requires Valid()
      modifies this
      ensures Valid() && records == old(records)
      ensures table == Step(old(table), StatusRequest(request, project))
    {
      if request.None? || project.None? {
        return;
      }
      var running := StatusKey(project.value) in files;
      Send(Status(request.value, project.value, running));
    }

    /** The record leaves the table and its project file is removed. */
    method GiveUp(i: nat)
      requires Valid() && i < MAX_SHELLS && shells[i] != null
      modifies this, shells
      ensures Valid() && records == old(records) && table == Release(old(table), i)
    {
      if shells[i].project.Some? {
        files := files - {RemoveKey(shells[i].project.value)};
      }
      shells[i] := null;
      table := table.(slots := table.slots[i := None], files := files);
    }

    /** The end of `read_routine`: the process behind slot `i` has ended. */
    method ReadRoutineEnds(i: nat, ending: Ending, pid: int)
      requires Valid() && Defined(table, ProcessEnd(i, ending, pid))
      modifies this, shells, records
      ensures Valid() && fresh(records - old(records))
      ensures table == Step(old(table), ProcessEnd(i, ending, pid))
    {
      var shell := shells[i];
      if shell.request.Some? {
        Send(Closed(shell.request.value, Decimal(shell.id), ExitCode(ending)));
      }
      var restart := !shell.connected && shell.project.Some? && Failed(ending);
      var width, height := Cells(Reprinted(shell.width)), Cells(Reprinted(shell.height));
      var project, user := shell.project, shell.user;
      GiveUp(shell.id);
      if restart {
        OpenShellOrProject(None, width, height, project, user, pid);
      }
    }
  }
}

/**
  `killProcessTree` and `killPid` from packages/myst-cli-utils/src/exec.ts, with the
  operating system replaced by an oracle and the side effects collected in a trace.

  Every external call the code makes is one `Event` in the trace, in the order the code
  makes it, together with whether that call failed (threw). The caller never sees a
  failure: both functions return a trace, never an error.
 */
module KillTree {
  import opened Options
  import Pgrep

  type Pid = int

  /** What `execSync("pgrep -P <pid>")` does: it throws (pgrep exits non-zero when the
      process has no children, or cannot be run at all) or returns standard output. */
  datatype Enumeration = Threw | Output(text: string)

  /** The operating system as the algorithm sees it. A pid missing from `pgrep` makes the
      enumeration throw; `process.kill` throws for the pids in `signalFails` (already
      exited, say); `taskkill` throws when `taskkillFails` holds. */
  datatype Os = Os(pgrep: map<Pid, Enumeration>, signalFails: set<Pid>, taskkillFails: bool)

  /** The part of a `ChildProcess` that matters here: its pid, absent when the spawn
      failed before one was assigned. */
  datatype Handle = Handle(pid: Option<Pid>)

  /** The three external calls: `pgrep -P pid`, `process.kill(pid)` (no signal argument,
      so SIGTERM), and `taskkill /F /T /PID pid` with its force and tree flags. */
  datatype Effect =
    | Enumerate(pid: Pid)
    | Signal(pid: Pid)
    | TreeKill(pid: Pid, force: bool, tree: bool)

  datatype Event = Event(effect: Effect, failed: bool)

  /** The process table once each enumeration's output has been read: the children a
      successful enumeration lists, and the same failure oracles. Parsing is pure, so
      reading every answer up front yields the children `killPid` reads one at a time. */
  datatype Table = Table(children: map<Pid, seq<Pid>>, signalFails: set<Pid>, taskkillFails: bool)

  /** Reads the oracle's answers with the `pgrep` output parser. */
  function Read(os: Os): (tab: Table)
    ensures forall p :: p in tab.children <==> p in os.pgrep && os.pgrep[p].Output?
    ensures tab.signalFails == os.signalFails && tab.taskkillFails == os.taskkillFails
  {
    Table(map p | p in os.pgrep && os.pgrep[p].Output? :: Pgrep.ParseChildren(os.pgrep[p].text),
          os.signalFails, os.taskkillFails)
  }

  /** The children an enumeration of `pid` reports, or `None` when it threw. */
  function Children(tab: Table, pid: Pid): Option<seq<Pid>>
  {
    if pid in tab.children then Some(tab.children[pid]) else None
  }

  /** The children `killPid` goes on to visit: a failed enumeration counts as none. */
  function Kids(tab: Table, pid: Pid): seq<Pid>
  {
    Children(tab, pid).GetOr([])
  }

  function Level(height: map<Pid, nat>, pid: Pid): nat
  {
    if pid in height then height[pid] else 0
  }

  /** `height` witnesses that the parent-to-child relation the enumerations report has no
      cycle: every reported child sits strictly below its parent. A live process table
      has this shape. `killPid` has no cycle guard: on a reported cycle (or a tree deeper
      than the JavaScript stack) its recursion ends in a stack overflow that an enclosing
      `catch` swallows, and such runs are outside this model. */
  predicate Ranked(tab: Table, height: map<Pid, nat>)
  {
    forall p, c :: p in tab.children && c in tab.children[p] ==> Level(height, c) < Level(height, p)
  }

  /** Every pid of `kids` sits strictly below `bound`. */
  predicate Below(height: map<Pid, nat>, kids: seq<Pid>, bound: nat)
  {
    forall j :: 0 <= j < |kids| ==> Level(height, kids[j]) < bound
  }

  /** Whether the oracle makes a given call fail. */
  predicate Fails(tab: Table, e: Effect)
  {
    match e
    case Enumerate(p) => p !in tab.children
    case Signal(p) => p in tab.signalFails
    case TreeKill(_, _, _) => tab.taskkillFails
  }

  /** `killPid(pid)`: enumerate the children, kill each child's tree in the order the
      output lists them, then signal `pid` itself. A failed enumeration leaves just the
      signal; a failed signal is swallowed. */
  function KillPid(tab: Table, height: map<Pid, nat>, pid: Pid): (t: seq<Event>)
    requires Ranked(tab, height)
    ensures |t| >= 2
    ensures t[0] == Event(Enumerate(pid), Children(tab, pid).None?)
    ensures t[|t| - 1] == Event(Signal(pid), pid in tab.signalFails)
    ensures Children(tab, pid).None? ==>
      t == [Event(Enumerate(pid), true), Event(Signal(pid), pid in tab.signalFails)]
    decreases Level(height, pid), 1, 0
  {
    var kids := Kids(tab, pid);
    [Event(Enumerate(pid), Fails(tab, Enumerate(pid)))]
      + KillEach(tab, height, kids, Level(height, pid))
      + [Event(Signal(pid), Fails(tab, Signal(pid)))]
  }

  /** `children.forEach((child) => killPid(child))`. `killPid` never throws, so the
      loop always reaches every child. */
  function KillEach(tab: Table, height: map<Pid, nat>, kids: seq<Pid>, bound: nat): (t: seq<Event>)
    requires Ranked(tab, height)
    requires Below(height, kids, bound)
    ensures kids == [] <==> t == []
    decreases bound, 0, |kids|
  {
    if |kids| == 0 then []
    else KillPid(tab, height, kids[0]) + KillEach(tab, height, kids[1..], bound)
  }

  /** `killProcessTree(proc)` once the enumerations have been read: nothing without a
      pid; on Windows a single forced tree kill of the root, whose failure is swallowed;
      elsewhere `killPid(pid)`. The forest witness is needed only on the branch that
      walks the tree. */
  function KillProcessTreeIn(tab: Table, height: map<Pid, nat>, handle: Handle, windows: bool): (t: seq<Event>)
    requires handle.pid.Some? && !windows ==> Ranked(tab, height)
    ensures handle.pid.None? ==> t == []
    ensures handle.pid.Some? && windows ==>
      t == [Event(TreeKill(handle.pid.value, true, true), tab.taskkillFails)]
    ensures handle.pid.Some? && !windows ==>
      |t| >= 2 && t[0].effect == Enumerate(handle.pid.value) && t[|t| - 1].effect == Signal(handle.pid.value)
  {
    match handle.pid
    case None => []
    case Some(pid) =>
      if windows then [Event(TreeKill(pid, true, true), tab.taskkillFails)]
      else KillPid(tab, height, pid)
  }

  /** `killProcessTree(proc)` against the operating system. When `pgrep` throws for the
      root, the root is treated as childless and is still signalled. */
  function KillProcessTree(os: Os, height: map<Pid, nat>, handle: Handle, windows: bool): (t: seq<Event>)
    requires handle.pid.Some? && !windows ==> Ranked(Read(os), height)
    ensures handle.pid.None? ==> t == []
    ensures handle.pid.Some? && windows ==>
      t == [Event(TreeKill(handle.pid.value, true, true), os.taskkillFails)]
    ensures handle.pid.Some? && !windows ==>
      |t| >= 2 && t[0].effect == Enumerate(handle.pid.value) && t[|t| - 1].effect == Signal(handle.pid.value)
    ensures handle.pid.Some? && !windows && (handle.pid.value !in os.pgrep || os.pgrep[handle.pid.value].Threw?) ==>
      t == [Event(Enumerate(handle.pid.value), true), Event(Signal(handle.pid.value), handle.pid.value in os.signalFails)]
  {
    KillProcessTreeIn(Read(os), height, handle, windows)
  }
}

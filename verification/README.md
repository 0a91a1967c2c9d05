# Process-tree termination in myst-cli-utils, modelled in Dafny

`killProcessTree(proc)` in `packages/myst-cli-utils/src/exec.ts` terminates a child
process and everything it spawned. It does nothing when the handle has no pid. On
Windows it runs `taskkill /F /T /PID <pid>` once. Elsewhere it calls `killPid(pid)`,
which works in three steps:

- It asks `pgrep -P <pid>` for the direct children.
- It reads them from the output: trim, split into lines, `parseInt(line, 10)`, drop the `NaN`s.
- It kills each child's tree in listed order, then sends `pid` the default signal (SIGTERM) with `process.kill`.

Every failure is swallowed: a failed enumeration, a failed `process.kill` and a failed
`taskkill`.

This project models that algorithm as pure functions over an injected operating system:

- `text.dfy` (`Options`, `Text`): the JavaScript string built-ins the parser relies on,
  with their ECMAScript behaviour. These are `trim` with the full WhiteSpace and
  LineTerminator set, `split("\n")`, `join("\n")`, and `parseInt(s, 10)`.
- `pgrep.dfy` (`Pgrep`): turning `pgrep -P` output into child pids, with the
  filter laws and a round trip against the output format `pgrep` prints.
- `killtree.dfy` (`KillTree`): the operating system as an oracle `Os`. For each pid it
  records whether `pgrep` throws or what it prints, which pids `process.kill` fails on,
  and whether `taskkill` fails. `Read` runs the parser over every `pgrep` answer and
  yields a `Table`: the children each successful enumeration lists. Parsing is pure, so
  this is what `killPid` reads one enumeration at a time. `KillPid`, `KillEach` and
  `KillProcessTreeIn` walk a `Table`; `KillProcessTree` is `KillProcessTreeIn` on the
  table read from the oracle. All of them return the trace of external calls:
  `Enumerate(pid)`, `Signal(pid)` and `TreeKill(pid, force, tree)`. Each call is paired
  with whether it threw.
- `killtree_properties.dfy` (`KillTreeProperties`): what those traces promise. It covers
  post-order, sibling order, absorption of failures, coverage of exactly the reachable
  processes, and a single signal per process in a real process tree.

The code has no cycle guard. On a parent/child relation with a cycle, or a tree deeper
than the JavaScript call stack, the recursion of `killPid` ends in a stack overflow
(`RangeError`) that the `catch` at exec.ts:32 of some enclosing frame swallows. The model
does not describe such runs. It takes a witness `height: map<Pid, nat>` under which every
reported child sits strictly below its parent (`KillTree.Ranked`), and its recursion is
unbounded. Only the POSIX branch needs the witness. Parent/child relations that are not
trees (a pid listed by two parents) are still allowed. In that case the algorithm simply
visits the shared pid twice. The "signalled once" lemma adds `UniqueParents`, which a real
process table satisfies.

`killProcessTree` takes no signal argument. `process.kill(pid)` (exec.ts:36) sends the
default SIGTERM, so `Signal(pid)` carries no signal.

## Model

| member | source | states |
|---|---|---|
| Text.Trim | packages/myst-cli-utils/src/exec.ts:27 | The result is an infix of the output with no white space at either end, and it is empty exactly when the output is all white space. |
| Text.TrimStripsSpace | packages/myst-cli-utils/src/exec.ts:27 | Everything `trim` removes, before and after the result, is white space. With the `Trim` row this pins the result down completely. |
| Text.Split | packages/myst-cli-utils/src/exec.ts:28 | The pieces contain no newline, there is at least one, and joining them with newlines gives back the input. |
| Text.SplitJoin | packages/myst-cli-utils/src/exec.ts:28 | Splitting undoes joining newline-free lines. |
| Text.ParseIntAfterSpace | packages/myst-cli-utils/src/exec.ts:29 | `parseInt` skips exactly the leading white space that `trim` strips from the front, and then reads a sign and digits (`ParseSigned`). |
| Text.ParseSigned | packages/myst-cli-utils/src/exec.ts:29 | After the leading white space, `parseInt` yields a number exactly when the text starts with a digit, or with a sign followed by a digit. |
| Text.NoDigitIsNaN | packages/myst-cli-utils/src/exec.ts:29 | A line containing no decimal digit parses to NaN (`None`). |
| Text.ParseDecimal | packages/myst-cli-utils/src/exec.ts:29 | A decimal pid parses back to itself. This holds with leading white space and with a trailing non-digit such as a carriage return. |
| Pgrep.ParseLines | packages/myst-cli-utils/src/exec.ts:29 | `.map((p) => parseInt(p, 10))` yields one value per line. |
| Pgrep.ParseLinesMap | packages/myst-cli-utils/src/exec.ts:29 | The map is element-wise: the i-th value of `ParseLines` is the i-th line parsed with `ParseInt`. |
| Pgrep.DropNaN | packages/myst-cli-utils/src/exec.ts:30 | The filtered list is no longer than the parsed values, and it is empty exactly when every value is NaN. |
| Pgrep.ParseChildren | packages/myst-cli-utils/src/exec.ts:25-30 | Empty or all-white-space `pgrep` output yields no children. |
| Pgrep.LineOrderKept | packages/myst-cli-utils/src/exec.ts:29-30 | Map-then-filter distributes over concatenation of lines, so surviving pids keep their line order. |
| Pgrep.DropsNonNumber | packages/myst-cli-utils/src/exec.ts:30 | A line that is NaN contributes nothing, wherever it stands. |
| Pgrep.KeepsNumber | packages/myst-cli-utils/src/exec.ts:29-30 | A line that parses contributes exactly its value, placed between the pids of the lines before it and those of the lines after it. |
| Pgrep.RenderRoundTrip | packages/myst-cli-utils/src/exec.ts:25-30 | Reading what `pgrep` prints for a list of pids (one per line, newline-terminated) gives back exactly that list, in order. |
| KillTree.Read | packages/myst-cli-utils/src/exec.ts:24-34 | A pid has a child list exactly when its `pgrep` answered with output. A `pgrep` that threw leaves the pid without one, as the catch does. The failure oracles pass through unchanged. |
| KillTree.KillPid | packages/myst-cli-utils/src/exec.ts:22-40 | The trace starts by enumerating `pid` and ends by signalling it. When the enumeration fails, the trace is exactly the failed enumeration followed by the signal. |
| KillTree.KillEach | packages/myst-cli-utils/src/exec.ts:31 | Killing a list of children makes calls exactly when the list is non-empty. |
| KillTree.KillProcessTreeIn | packages/myst-cli-utils/src/exec.ts:9-20 | With no pid there are no calls. On Windows there is exactly one forced tree kill of the root, with its outcome recorded, and nothing else. Elsewhere the trace enumerates the root first and signals it last. |
| KillTree.KillProcessTree | packages/myst-cli-utils/src/exec.ts:9-36 | The same three cases against the operating system. In addition, when `pgrep` throws for the root, the root is treated as childless: the trace is the failed enumeration followed by the root's signal. |
| KillTreeProperties.ChildrenSignalledFirst | packages/myst-cli-utils/src/exec.ts:23-36 | Post-order: every child of a signalled process was signalled earlier in the trace. |
| KillTreeProperties.DescendantsSignalledFirst | packages/myst-cli-utils/src/exec.ts:23-36 | In a post-order trace, every descendant reached through successful enumerations is signalled before its ancestor. |
| KillTreeProperties.SiblingOrder | packages/myst-cli-utils/src/exec.ts:31 | For a pid whose enumeration succeeded, the trace is ordered as follows: the enumeration, then the subtrees of the children before the i-th, then the i-th child's complete subtree, then the subtrees of the later children, then the parent's signal. |
| KillTreeProperties.KillPidOutcomes | packages/myst-cli-utils/src/exec.ts:24-39 | Each event is marked failed exactly when the oracle makes that call throw. |
| KillTreeProperties.SignalFailuresAbsorbed | packages/myst-cli-utils/src/exec.ts:35-39 | Failed signals do not change which calls are made or their order. |
| KillTreeProperties.KillProcessTreeAbsorbs | packages/myst-cli-utils/src/exec.ts:12-18 | `killProcessTree` returns normally for every input. Its events record their true outcomes. Its calls do not depend on signal or `taskkill` failures. |
| KillTreeProperties.EnumeratedAreSignalled | packages/myst-cli-utils/src/exec.ts:22-40 | The enumerated pids and the signalled pids are the same multiset, and every call is one of the two. |
| KillTreeProperties.SignalledAreReachable | packages/myst-cli-utils/src/exec.ts:18-36 | Every signalled pid is the root or is reachable from it through successful enumerations. |
| KillTreeProperties.ReachableAreSignalled | packages/myst-cli-utils/src/exec.ts:18-36 | Every pid reachable from the root through successful enumerations is signalled. |
| KillTreeProperties.SiblingSubtreesDisjoint | packages/myst-cli-utils/src/exec.ts:31 | When each process has one parent, the subtrees of distinct children are disjoint. |
| KillTreeProperties.SignalledOnce | packages/myst-cli-utils/src/exec.ts:18-36 | When each process has one parent, the POSIX branch signals every pid of the tree exactly once. |

## Left out

- `exec`, `execWrapper`, `makeExecWrapper` and `makeExecutable` (exec.ts lines 42-83): these only pipe streams, attach listeners and wrap `child_process.exec` with `util.promisify`. That is I/O plumbing over a library that is not part of this model.
- What `pgrep`, `taskkill` and `process.kill` actually do to processes. Each is an oracle answer: throw, or output text.
- Timing and the enumeration race: a child spawned after its parent was enumerated survives the pass. That concerns the live process table, not the algorithm.
- Platform detection: `process.platform === 'win32'` is the boolean input `windows`.
- Text.ParseSigned: reads integers of any size, as does `Text.ParseInt`. JavaScript numbers lose precision above 2^53, and `"-0"` gives `-0` rather than `0`. Neither matters for the pids `pgrep` prints.
- KillTree.KillPid: the POSIX branch requires the acyclicity witness `Ranked`, and the recursion is unbounded. On a reported parent/child cycle, or a tree deeper than the JavaScript call stack, the code's recursion ends in a `RangeError` swallowed by an enclosing `catch` (exec.ts:32). On a cycle, that run issues many `pgrep` calls and repeated signals. In a deep tree, it skips the later siblings of the frame whose `forEach` was aborted. The model does not describe these runs.
- A `killPid` call that throws inside `forEach` is not modelled apart from the stack overflow above. Apart from that overflow, both of `killPid`'s blocks catch everything, so the loop reaches every child.
- What `pgrep` writes to standard error: `execSync` at exec.ts:26 is called without a `stdio` option, so that output goes to the parent process's standard error. It is an I/O side effect and is not part of the trace.
- packages/mystmd/tests/processCleanup.spec.ts is an end-to-end build test and is not part of this model.

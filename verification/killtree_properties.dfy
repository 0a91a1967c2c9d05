/**
  What the traces of `KillPid` and `KillProcessTree` promise: children are signalled
  before their parents, siblings are handled one whole subtree at a time in listed
  order, failures only mark the call that failed, exactly the reachable processes are
  touched, and in a real process tree each of them is signalled once.
 */
module KillTreeProperties {
  import opened Options
  import opened KillTree

  /** The calls a trace makes, without their outcomes. An unfolding helper: its ensures
      only spell out the comprehension for the solver. */
  function Effects(t: seq<Event>): (es: seq<Effect>)
    ensures |es| == |t|
    ensures forall i :: 0 <= i < |t| ==> es[i] == t[i].effect
  {
    seq(|t|, i requires 0 <= i < |t| => t[i].effect)
  }

  /** The pids a trace signals, in order. */
  function Signals(t: seq<Event>): seq<Pid>
  {
    if |t| == 0 then []
    else (if t[0].effect.Signal? then [t[0].effect.pid] else []) + Signals(t[1..])
  }

  /** The pids a trace enumerates, in order. */
  function Enumerations(t: seq<Event>): seq<Pid>
  {
    if |t| == 0 then []
    else (if t[0].effect.Enumerate? then [t[0].effect.pid] else []) + Enumerations(t[1..])
  }

  /** `path` follows the parent-to-child relation the enumerations report. */
  predicate IsPath(tab: Table, path: seq<Pid>)
  {
    && |path| >= 1
    && forall i :: 0 <= i < |path| - 1 ==> path[i + 1] in Kids(tab, path[i])
  }

  /** Every child of a signalled process was signalled earlier in the trace. */
  predicate PostOrder(tab: Table, t: seq<Event>)
  {
    forall j, y :: 0 <= j < |t| && t[j].effect.Signal? && y in Kids(tab, t[j].effect.pid) ==>
      Signal(y) in Effects(t[..j])
  }

  /** Each event is marked failed exactly when the oracle makes that call throw. */
  predicate OutcomesFaithful(tab: Table, t: seq<Event>)
  {
    forall i :: 0 <= i < |t| ==> t[i].failed == Fails(tab, t[i].effect)
  }

  /** No pid is reported as the child of two parents, nor twice by one parent, which is
      what a process table looks like: each process has one parent. */
  predicate UniqueParents(tab: Table)
  {
    forall p, q, i, j ::
      p in tab.children && q in tab.children && 0 <= i < |Kids(tab, p)| && 0 <= j < |Kids(tab, q)|
      && Kids(tab, p)[i] == Kids(tab, q)[j]
      ==> p == q && i == j
  }

  predicate NoDup(s: seq<Pid>)
  {
    forall i, j :: 0 <= i < j < |s| ==> s[i] != s[j]
  }

  // ---------------------------------------------------------------------------
  // Traces of sequences of calls
  // ---------------------------------------------------------------------------

  lemma {:induction false} SignalsAppend(a: seq<Event>, b: seq<Event>)
    ensures Signals(a + b) == Signals(a) + Signals(b)
  {
    if |a| == 0 {
      assert a + b == b;
    } else {
      var ab := a + b;
      assert ab[0] == a[0];
      assert ab[1..] == a[1..] + b;
      SignalsAppend(a[1..], b);
      var head := if a[0].effect.Signal? then [a[0].effect.pid] else [];
      assert Signals(ab) == head + (Signals(a[1..]) + Signals(b));
      assert Signals(a) == head + Signals(a[1..]);
      AppendAssoc(head, Signals(a[1..]), Signals(b));
    }
  }

  lemma {:induction false} EnumerationsAppend(a: seq<Event>, b: seq<Event>)
    ensures Enumerations(a + b) == Enumerations(a) + Enumerations(b)
  {
    if |a| == 0 {
      assert a + b == b;
    } else {
      var ab := a + b;
      assert ab[0] == a[0];
      assert ab[1..] == a[1..] + b;
      EnumerationsAppend(a[1..], b);
      var head := if a[0].effect.Enumerate? then [a[0].effect.pid] else [];
      assert Enumerations(ab) == head + (Enumerations(a[1..]) + Enumerations(b));
      assert Enumerations(a) == head + Enumerations(a[1..]);
      AppendAssoc(head, Enumerations(a[1..]), Enumerations(b));
    }
  }

  /** Unfolding helper: `KillPid`'s definition, with the fact that its children sit
      below it. */
  lemma KillPidShape(tab: Table, height: map<Pid, nat>, pid: Pid)
    requires Ranked(tab, height)
    ensures Below(height, Kids(tab, pid), Level(height, pid))
    ensures KillPid(tab, height, pid)
      == [Event(Enumerate(pid), Fails(tab, Enumerate(pid)))]
         + KillEach(tab, height, Kids(tab, pid), Level(height, pid))
         + [Event(Signal(pid), Fails(tab, Signal(pid)))]
  {
    if Children(tab, pid).Some? {
      assert pid in tab.children;
    }
  }

  /** Unfolding helper: one step of `KillEach`. */
  lemma KillEachCons(tab: Table, height: map<Pid, nat>, kids: seq<Pid>, bound: nat)
    requires Ranked(tab, height)
    requires Below(height, kids, bound)
    requires |kids| > 0
    ensures Below(height, kids[1..], bound)
    ensures KillEach(tab, height, kids, bound) == KillPid(tab, height, kids[0]) + KillEach(tab, height, kids[1..], bound)
  {
  }

  /** A pid signalled while killing a list of siblings is signalled inside one of their
      subtrees. */
  lemma {:induction false} InSomeSubtree(tab: Table, height: map<Pid, nat>, kids: seq<Pid>, bound: nat, x: Pid)
    requires Ranked(tab, height)
    requires Below(height, kids, bound)
    requires x in Signals(KillEach(tab, height, kids, bound))
    ensures exists i :: 0 <= i < |kids| && x in Signals(KillPid(tab, height, kids[i]))
  {
    if |kids| > 0 {
      var first := KillPid(tab, height, kids[0]);
      var rest := KillEach(tab, height, kids[1..], bound);
      SignalsAppend(first, rest);
      if x !in Signals(first) {
        InSomeSubtree(tab, height, kids[1..], bound, x);
        var i :| 0 <= i < |kids[1..]| && x in Signals(KillPid(tab, height, kids[1..][i]));
        assert kids[1..][i] == kids[i + 1];
      }
    }
  }

  /** Every subtree of a list of siblings is part of the trace that kills the list. */
  lemma {:induction false} SubtreeInEach(tab: Table, height: map<Pid, nat>, kids: seq<Pid>, bound: nat, i: nat, x: Pid)
    requires Ranked(tab, height)
    requires Below(height, kids, bound)
    requires i < |kids| && x in Signals(KillPid(tab, height, kids[i]))
    ensures x in Signals(KillEach(tab, height, kids, bound))
  {
    var first := KillPid(tab, height, kids[0]);
    var rest := KillEach(tab, height, kids[1..], bound);
    SignalsAppend(first, rest);
    if i > 0 {
      assert kids[1..][i - 1] == kids[i];
      SubtreeInEach(tab, height, kids[1..], bound, i - 1, x);
    }
  }

  // ---------------------------------------------------------------------------
  // Post-order
  // ---------------------------------------------------------------------------

  lemma PostOrderAppend(tab: Table, a: seq<Event>, b: seq<Event>)
    requires PostOrder(tab, a) && PostOrder(tab, b)
    ensures PostOrder(tab, a + b)
  {
    var t := a + b;
    forall j, y | 0 <= j < |t| && t[j].effect.Signal? && y in Kids(tab, t[j].effect.pid)
      ensures Signal(y) in Effects(t[..j])
    {
      if j < |a| {
        assert t[j] == a[j];
        assert t[..j] == a[..j];
      } else {
        assert t[j] == b[j - |a|];
        assert Signal(y) in Effects(b[..j - |a|]);
        var k :| 0 <= k < |b[..j - |a|]| && Effects(b[..j - |a|])[k] == Signal(y);
        assert t[..j][|a| + k] == b[k];
      }
    }
  }

  lemma PostOrderSnoc(tab: Table, a: seq<Event>, e: Event)
    requires PostOrder(tab, a)
    requires e.effect.Signal? ==> forall y :: y in Kids(tab, e.effect.pid) ==> Signal(y) in Effects(a)
    ensures PostOrder(tab, a + [e])
  {
    var t := a + [e];
    assert t[..|a|] == a;
    forall j, y | 0 <= j < |t| && t[j].effect.Signal? && y in Kids(tab, t[j].effect.pid)
      ensures Signal(y) in Effects(t[..j])
    {
      if j < |a| {
        assert t[j] == a[j];
        assert t[..j] == a[..j];
      }
    }
  }

  /** After the siblings are killed, every one of them has been signalled. */
  lemma {:induction false} EachSignalsAll(tab: Table, height: map<Pid, nat>, kids: seq<Pid>, bound: nat)
    requires Ranked(tab, height)
    requires Below(height, kids, bound)
    ensures forall k :: k in kids ==> Signal(k) in Effects(KillEach(tab, height, kids, bound))
  {
    if |kids| > 0 {
      var first := KillPid(tab, height, kids[0]);
      var rest := KillEach(tab, height, kids[1..], bound);
      EachSignalsAll(tab, height, kids[1..], bound);
      assert Effects(first + rest)[|first| - 1] == Signal(kids[0]);
      forall k | k in kids[1..]
        ensures Signal(k) in Effects(first + rest)
      {
        var m :| 0 <= m < |rest| && Effects(rest)[m] == Signal(k);
        assert Effects(first + rest)[|first| + m] == Signal(k);
      }
    }
  }

  /** Post-order: in the trace of `killPid(pid)` every child of a signalled process was
      signalled before it. */
  lemma {:induction false} ChildrenSignalledFirst(tab: Table, height: map<Pid, nat>, pid: Pid)
    requires Ranked(tab, height)
    ensures PostOrder(tab, KillPid(tab, height, pid))
    decreases Level(height, pid), 1, 0
  {
    KillPidShape(tab, height, pid);
    var kids := Kids(tab, pid);
    var enumerate := Event(Enumerate(pid), Fails(tab, Enumerate(pid)));
    var middle := KillEach(tab, height, kids, Level(height, pid));
    EachPostOrder(tab, height, kids, Level(height, pid));
    PostOrderSnoc(tab, [], enumerate);
    assert [] + [enumerate] == [enumerate];
    PostOrderAppend(tab, [enumerate], middle);
    EachSignalsAll(tab, height, kids, Level(height, pid));
    forall k | k in kids
      ensures Signal(k) in Effects([enumerate] + middle)
    {
      var m :| 0 <= m < |middle| && Effects(middle)[m] == Signal(k);
      assert Effects([enumerate] + middle)[1 + m] == Signal(k);
    }
    PostOrderSnoc(tab, [enumerate] + middle, Event(Signal(pid), Fails(tab, Signal(pid))));
  }

  lemma {:induction false} EachPostOrder(tab: Table, height: map<Pid, nat>, kids: seq<Pid>, bound: nat)
    requires Ranked(tab, height)
    requires Below(height, kids, bound)
    ensures PostOrder(tab, KillEach(tab, height, kids, bound))
    decreases bound, 0, |kids|
  {
    if |kids| > 0 {
      ChildrenSignalledFirst(tab, height, kids[0]);
      EachPostOrder(tab, height, kids[1..], bound);
      PostOrderAppend(tab, KillPid(tab, height, kids[0]), KillEach(tab, height, kids[1..], bound));
    }
  }

  /** Post-order, transitively: in any post-order trace, every descendant of a
      signalled process (reached through successful enumerations) was signalled before it. */
  lemma {:induction false} DescendantsSignalledFirst(tab: Table, t: seq<Event>, j: nat, path: seq<Pid>)
    requires PostOrder(tab, t)
    requires IsPath(tab, path) && |path| >= 2
    requires j < |t| && t[j].effect == Signal(path[0])
    ensures Signal(path[|path| - 1]) in Effects(t[..j])
    decreases |path|
  {
    assert path[1] in Kids(tab, path[0]);
    var i :| 0 <= i < |t[..j]| && Effects(t[..j])[i] == Signal(path[1]);
    if |path| > 2 {
      var rest := path[1..];
      assert IsPath(tab, rest) by {
        forall m | 0 <= m < |rest| - 1
          ensures rest[m + 1] in Kids(tab, rest[m])
        {
          assert rest[m + 1] == path[m + 2] && rest[m] == path[m + 1];
        }
      }
      DescendantsSignalledFirst(tab, t, i, rest);
      var k :| 0 <= k < |t[..i]| && Effects(t[..i])[k] == Signal(rest[|rest| - 1]);
      assert Effects(t[..j])[k] == Signal(path[|path| - 1]);
    }
  }

  // ---------------------------------------------------------------------------
  // Sibling order
  // ---------------------------------------------------------------------------

  /** Siblings are killed in listed order, one whole subtree at a time: the trace of
      `killPid(pid)` is its enumeration, the subtrees of the children listed before the
      i-th, the i-th child's complete subtree, the subtrees of those after it, and
      finally the signal to `pid`. */
  lemma SiblingOrder(tab: Table, height: map<Pid, nat>, pid: Pid, i: nat)
    requires Ranked(tab, height)
    requires pid in tab.children && i < |tab.children[pid]|
    ensures Below(height, tab.children[pid], Level(height, pid))
    ensures var kids := tab.children[pid];
      KillPid(tab, height, pid)
        == [Event(Enumerate(pid), false)]
           + KillEach(tab, height, kids[..i], Level(height, pid))
           + KillPid(tab, height, kids[i])
           + KillEach(tab, height, kids[i + 1..], Level(height, pid))
           + [Event(Signal(pid), pid in tab.signalFails)]
  {
    KillPidShape(tab, height, pid);
    var kids := tab.children[pid];
    var b := Level(height, pid);
    assert Kids(tab, pid) == kids;
    EachAround(tab, height, kids, b, i);
    Regroup([Event(Enumerate(pid), false)], KillEach(tab, height, kids[..i], b), KillPid(tab, height, kids[i]),
      KillEach(tab, height, kids[i + 1..], b), [Event(Signal(pid), pid in tab.signalFails)]);
  }

  /** Plain associativity of concatenation, kept apart so that proofs about traces
      need not re-derive it on large terms. */
  lemma AppendAssoc<T>(x: seq<T>, a: seq<T>, m: seq<T>)
    ensures x + (a + m) == (x + a) + m
  {
  }

  /** Unfolding helper: regrouping a five-part concatenation. */
  lemma Regroup(a: seq<Event>, b: seq<Event>, c: seq<Event>, d: seq<Event>, e: seq<Event>)
    ensures a + (b + (c + d)) + e == a + b + c + d + e
  {
  }

  lemma {:induction false} EachAround(tab: Table, height: map<Pid, nat>, kids: seq<Pid>, bound: nat, i: nat)
    requires Ranked(tab, height)
    requires Below(height, kids, bound)
    requires i < |kids|
    ensures Below(height, kids[..i], bound)
    ensures Below(height, kids[i + 1..], bound)
    ensures KillEach(tab, height, kids, bound)
         == KillEach(tab, height, kids[..i], bound)
            + (KillPid(tab, height, kids[i]) + KillEach(tab, height, kids[i + 1..], bound))
  {
    KillEachCons(tab, height, kids, bound);
    if i == 0 {
      assert kids[..0] == [];
    } else {
      var tail := kids[1..];
      EachAround(tab, height, tail, bound, i - 1);
      assert tail[..i - 1] == kids[..i][1..];
      assert tail[i - 1] == kids[i];
      assert tail[i..] == kids[i + 1..];
      KillEachCons(tab, height, kids[..i], bound);
      var x := KillPid(tab, height, kids[0]);
      var a := KillEach(tab, height, tail[..i - 1], bound);
      var m := KillPid(tab, height, kids[i]) + KillEach(tab, height, kids[i + 1..], bound);
      AppendAssoc(x, a, m);
    }
  }

  // ---------------------------------------------------------------------------
  // Failures are absorbed
  // ---------------------------------------------------------------------------

  lemma {:induction false} KillPidOutcomes(tab: Table, height: map<Pid, nat>, pid: Pid)
    requires Ranked(tab, height)
    ensures OutcomesFaithful(tab, KillPid(tab, height, pid))
    decreases Level(height, pid), 1, 0
  {
    KillPidShape(tab, height, pid);
    KillEachOutcomes(tab, height, Kids(tab, pid), Level(height, pid));
  }

  lemma {:induction false} KillEachOutcomes(tab: Table, height: map<Pid, nat>, kids: seq<Pid>, bound: nat)
    requires Ranked(tab, height)
    requires Below(height, kids, bound)
    ensures OutcomesFaithful(tab, KillEach(tab, height, kids, bound))
    decreases bound, 0, |kids|
  {
    if |kids| > 0 {
      KillPidOutcomes(tab, height, kids[0]);
      KillEachOutcomes(tab, height, kids[1..], bound);
    }
  }

  /** Failed signals and a failed `taskkill` change nothing but their own event's
      outcome: the same calls are made in the same order whatever they return. */
  lemma {:induction false} SignalFailuresAbsorbed(tab: Table, tab': Table, height: map<Pid, nat>, pid: Pid)
    requires tab.children == tab'.children
    requires Ranked(tab, height)
    ensures Ranked(tab', height)
    ensures Effects(KillPid(tab, height, pid)) == Effects(KillPid(tab', height, pid))
    decreases Level(height, pid), 1, 0
  {
    assert forall p :: Kids(tab, p) == Kids(tab', p);
    KillPidShape(tab, height, pid);
    KillPidShape(tab', height, pid);
    EachAbsorbed(tab, tab', height, Kids(tab, pid), Level(height, pid));
  }

  lemma {:induction false} EachAbsorbed(tab: Table, tab': Table, height: map<Pid, nat>, kids: seq<Pid>, bound: nat)
    requires tab.children == tab'.children
    requires Ranked(tab, height) && Ranked(tab', height)
    requires Below(height, kids, bound)
    ensures Effects(KillEach(tab, height, kids, bound)) == Effects(KillEach(tab', height, kids, bound))
    decreases bound, 0, |kids|
  {
    if |kids| > 0 {
      SignalFailuresAbsorbed(tab, tab', height, kids[0]);
      EachAbsorbed(tab, tab', height, kids[1..], bound);
      var a := KillPid(tab, height, kids[0]);
      var a' := KillPid(tab', height, kids[0]);
      var b := KillEach(tab, height, kids[1..], bound);
      var b' := KillEach(tab', height, kids[1..], bound);
      EffectsAppend(a, b);
      EffectsAppend(a', b');
    }
  }

  /** Unfolding helper: `Effects` distributes over concatenation. */
  lemma EffectsAppend(a: seq<Event>, b: seq<Event>)
    ensures Effects(a + b) == Effects(a) + Effects(b)
  {
  }

  /** `killProcessTree` never raises: it returns a trace for every handle, platform and
      process table, each event marked failed exactly when its call threw, and which
      calls it makes does not depend on whether signals or `taskkill` fail. */
  lemma KillProcessTreeAbsorbs(tab: Table, tab': Table, height: map<Pid, nat>, handle: Handle, windows: bool)
    requires tab.children == tab'.children
    requires handle.pid.Some? && !windows ==> Ranked(tab, height)
    ensures handle.pid.Some? && !windows ==> Ranked(tab', height)
    ensures OutcomesFaithful(tab, KillProcessTreeIn(tab, height, handle, windows))
    ensures Effects(KillProcessTreeIn(tab, height, handle, windows))
         == Effects(KillProcessTreeIn(tab', height, handle, windows))
  {
    if handle.pid.Some? && !windows {
      KillPidOutcomes(tab, height, handle.pid.value);
      SignalFailuresAbsorbed(tab, tab', height, handle.pid.value);
    }
  }

  // ---------------------------------------------------------------------------
  // Coverage
  // ---------------------------------------------------------------------------

  /** Every enumerated pid is signalled and vice versa, as often, and every call is one
      of the two: no `taskkill` on this branch. */
  lemma {:induction false} EnumeratedAreSignalled(tab: Table, height: map<Pid, nat>, pid: Pid)
    requires Ranked(tab, height)
    ensures multiset(Enumerations(KillPid(tab, height, pid))) == multiset(Signals(KillPid(tab, height, pid)))
    ensures |Enumerations(KillPid(tab, height, pid))| + |Signals(KillPid(tab, height, pid))| == |KillPid(tab, height, pid)|
    decreases Level(height, pid), 1, 0
  {
    KillPidShape(tab, height, pid);
    var t := KillPid(tab, height, pid);
    var e := Event(Enumerate(pid), Fails(tab, Enumerate(pid)));
    var m := KillEach(tab, height, Kids(tab, pid), Level(height, pid));
    var s := Event(Signal(pid), Fails(tab, Signal(pid)));
    assert t == [e] + m + [s];
    EachEnumeratedAreSignalled(tab, height, Kids(tab, pid), Level(height, pid));
    Bracketed(e, m, s);
    assert Signals(t) == Signals(m) + [pid];
    assert Enumerations(t) == [pid] + Enumerations(m);
  }

  lemma {:induction false} EachEnumeratedAreSignalled(tab: Table, height: map<Pid, nat>, kids: seq<Pid>, bound: nat)
    requires Ranked(tab, height)
    requires Below(height, kids, bound)
    ensures multiset(Enumerations(KillEach(tab, height, kids, bound))) == multiset(Signals(KillEach(tab, height, kids, bound)))
    ensures |Enumerations(KillEach(tab, height, kids, bound))| + |Signals(KillEach(tab, height, kids, bound))| == |KillEach(tab, height, kids, bound)|
    decreases bound, 0, |kids|
  {
    if |kids| > 0 {
      var a := KillPid(tab, height, kids[0]);
      var b := KillEach(tab, height, kids[1..], bound);
      EnumeratedAreSignalled(tab, height, kids[0]);
      EachEnumeratedAreSignalled(tab, height, kids[1..], bound);
      SignalsAppend(a, b);
      EnumerationsAppend(a, b);
    }
  }

  /** The calls of a trace that starts with an enumeration and ends with a signal. */
  lemma Bracketed(e: Event, m: seq<Event>, s: Event)
    requires e.effect.Enumerate? && s.effect.Signal?
    ensures Signals([e] + m + [s]) == Signals(m) + [s.effect.pid]
    ensures Enumerations([e] + m + [s]) == [e.effect.pid] + Enumerations(m)
  {
    SignalsAppend([e] + m, [s]);
    SignalsAppend([e], m);
    EnumerationsAppend([e] + m, [s]);
    EnumerationsAppend([e], m);
    assert Signals([s]) == [s.effect.pid];
    assert Signals([e]) == [];
    assert Enumerations([s]) == [];
    assert Enumerations([e]) == [e.effect.pid];
  }

  lemma PathCons(tab: Table, root: Pid, path: seq<Pid>)
    requires IsPath(tab, path) && path[0] in Kids(tab, root)
    ensures IsPath(tab, [root] + path)
  {
    var p := [root] + path;
    forall i | 0 <= i < |p| - 1
      ensures p[i + 1] in Kids(tab, p[i])
    {
      if i > 0 {
        assert p[i + 1] == path[i] && p[i] == path[i - 1];
      }
    }
  }

  /** Nothing else is touched: every signalled pid is the root or is reachable from it
      through successful enumerations. */
  lemma {:induction false} SignalledAreReachable(tab: Table, height: map<Pid, nat>, root: Pid, x: Pid)
    requires Ranked(tab, height)
    requires x in Signals(KillPid(tab, height, root))
    ensures exists path :: IsPath(tab, path) && path[0] == root && path[|path| - 1] == x
    decreases Level(height, root)
  {
    KillPidShape(tab, height, root);
    var kids := Kids(tab, root);
    var e := Event(Enumerate(root), Fails(tab, Enumerate(root)));
    var m := KillEach(tab, height, kids, Level(height, root));
    var s := Event(Signal(root), Fails(tab, Signal(root)));
    Bracketed(e, m, s);
    assert Signals(KillPid(tab, height, root)) == Signals(m) + [root];
    if x == root {
      assert IsPath(tab, [root]);
    } else {
      assert x in Signals(m);
      InSomeSubtree(tab, height, kids, Level(height, root), x);
      var i :| 0 <= i < |kids| && x in Signals(KillPid(tab, height, kids[i]));
      SignalledAreReachable(tab, height, kids[i], x);
      ReachableFromParent(tab, root, kids[i], x);
    }
  }

  /** A pid reachable from a child of `root` is reachable from `root`. */
  lemma ReachableFromParent(tab: Table, root: Pid, child: Pid, x: Pid)
    requires child in Kids(tab, root)
    requires exists path :: IsPath(tab, path) && path[0] == child && path[|path| - 1] == x
    ensures exists path :: IsPath(tab, path) && path[0] == root && path[|path| - 1] == x
  {
    var path :| IsPath(tab, path) && path[0] == child && path[|path| - 1] == x;
    PathCons(tab, root, path);
    var full := [root] + path;
    assert full[|full| - 1] == x;
    assert IsPath(tab, full) && full[0] == root;
  }

  /** Coverage: every pid reachable from the root through successful enumerations is
      signalled. */
  lemma {:induction false} ReachableAreSignalled(tab: Table, height: map<Pid, nat>, path: seq<Pid>)
    requires Ranked(tab, height)
    requires IsPath(tab, path)
    ensures path[|path| - 1] in Signals(KillPid(tab, height, path[0]))
    decreases |path|
  {
    var root := path[0];
    KillPidShape(tab, height, root);
    var kids := Kids(tab, root);
    var e := Event(Enumerate(root), Fails(tab, Enumerate(root)));
    var m := KillEach(tab, height, kids, Level(height, root));
    var s := Event(Signal(root), Fails(tab, Signal(root)));
    Bracketed(e, m, s);
    if |path| > 1 {
      var rest := path[1..];
      assert IsPath(tab, rest) by {
        forall j | 0 <= j < |rest| - 1
          ensures rest[j + 1] in Kids(tab, rest[j])
        {
          assert rest[j + 1] == path[j + 2] && rest[j] == path[j + 1];
        }
      }
      ReachableAreSignalled(tab, height, rest);
      assert path[1] in kids;
      var i :| 0 <= i < |kids| && kids[i] == path[1];
      SubtreeInEach(tab, height, kids, Level(height, root), i, path[|path| - 1]);
    }
  }

  // ---------------------------------------------------------------------------
  // Each process signalled once
  // ---------------------------------------------------------------------------

  lemma {:induction false} PathDescends(tab: Table, height: map<Pid, nat>, path: seq<Pid>)
    requires Ranked(tab, height) && IsPath(tab, path)
    ensures Level(height, path[|path| - 1]) <= Level(height, path[0])
    ensures |path| > 1 ==> Level(height, path[|path| - 1]) < Level(height, path[0])
    decreases |path|
  {
    if |path| > 1 {
      var prefix := path[..|path| - 1];
      assert IsPath(tab, prefix) by {
        forall j | 0 <= j < |prefix| - 1
          ensures prefix[j + 1] in Kids(tab, prefix[j])
        {
          assert prefix[j + 1] == path[j + 1] && prefix[j] == path[j];
        }
      }
      PathDescends(tab, height, prefix);
      var q := path[|path| - 2];
      assert path[|path| - 1] in Kids(tab, q);
      assert q in tab.children;
    }
  }

  /** Distinct children of one parent have disjoint subtrees when every process has a
      single parent. */
  lemma {:induction false} SiblingSubtreesDisjoint(
    tab: Table, height: map<Pid, nat>, p: Pid, a: Pid, b: Pid, pa: seq<Pid>, pb: seq<Pid>)
    requires Ranked(tab, height) && UniqueParents(tab)
    requires a in Kids(tab, p) && b in Kids(tab, p) && a != b
    requires IsPath(tab, pa) && pa[0] == a
    requires IsPath(tab, pb) && pb[0] == b
    ensures pa[|pa| - 1] != pb[|pb| - 1]
    decreases |pa| + |pb|
  {
    assert p in tab.children;
    if pa[|pa| - 1] == pb[|pb| - 1] {
      if |pa| == 1 && |pb| > 1 {
        ParentIsP(tab, height, p, a, b, pb);
      } else if |pb| == 1 && |pa| > 1 {
        ParentIsP(tab, height, p, b, a, pa);
      } else if |pa| > 1 && |pb| > 1 {
        var qa := pa[|pa| - 2];
        var qb := pb[|pb| - 2];
        var x := pa[|pa| - 1];
        assert x in Kids(tab, qa) && x in Kids(tab, qb);
        assert qa in tab.children && qb in tab.children;
        var i :| 0 <= i < |Kids(tab, qa)| && Kids(tab, qa)[i] == x;
        var j :| 0 <= j < |Kids(tab, qb)| && Kids(tab, qb)[j] == x;
        assert qa == qb;
        var pa' := pa[..|pa| - 1];
        var pb' := pb[..|pb| - 1];
        PrefixIsPath(tab, pa);
        PrefixIsPath(tab, pb);
        SiblingSubtreesDisjoint(tab, height, p, a, b, pa', pb');
      }
    }
  }

  lemma PrefixIsPath(tab: Table, path: seq<Pid>)
    requires IsPath(tab, path) && |path| > 1
    ensures IsPath(tab, path[..|path| - 1])
  {
    var prefix := path[..|path| - 1];
    forall j | 0 <= j < |prefix| - 1
      ensures prefix[j + 1] in Kids(tab, prefix[j])
    {
      assert prefix[j + 1] == path[j + 1] && prefix[j] == path[j];
    }
  }

  /** A child of `p` cannot lie strictly below a sibling: its one parent is `p`, which
      sits above the sibling. */
  lemma ParentIsP(tab: Table, height: map<Pid, nat>, p: Pid, a: Pid, b: Pid, pb: seq<Pid>)
    requires Ranked(tab, height) && UniqueParents(tab)
    requires a in Kids(tab, p) && b in Kids(tab, p)
    requires IsPath(tab, pb) && pb[0] == b && |pb| > 1
    ensures pb[|pb| - 1] != a
  {
    if pb[|pb| - 1] == a {
      var q := pb[|pb| - 2];
      assert a in Kids(tab, q);
      assert p in tab.children && q in tab.children;
      var i :| 0 <= i < |Kids(tab, p)| && Kids(tab, p)[i] == a;
      var j :| 0 <= j < |Kids(tab, q)| && Kids(tab, q)[j] == a;
      assert q == p;
      PrefixIsPath(tab, pb);
      PathDescends(tab, height, pb[..|pb| - 1]);
      assert false;
    }
  }

  lemma NoDupAppend(a: seq<Pid>, b: seq<Pid>)
    requires NoDup(a) && NoDup(b)
    requires forall x :: x in a ==> x !in b
    ensures NoDup(a + b)
  {
    var s := a + b;
    forall i, j | 0 <= i < j < |s|
      ensures s[i] != s[j]
    {
      if i < |a| && j >= |a| {
        assert s[i] in a && s[j] == b[j - |a|];
      } else if i >= |a| {
        assert s[i] == b[i - |a|] && s[j] == b[j - |a|];
      }
    }
  }

  /** Signalled once: when each process has a single parent, the POSIX branch signals
      every pid of the tree exactly once. */
  lemma {:induction false} SignalledOnce(tab: Table, height: map<Pid, nat>, root: Pid)
    requires Ranked(tab, height) && UniqueParents(tab)
    ensures NoDup(Signals(KillPid(tab, height, root)))
    decreases Level(height, root), 1, 0
  {
    KillPidShape(tab, height, root);
    var kids := Kids(tab, root);
    var e := Event(Enumerate(root), Fails(tab, Enumerate(root)));
    var m := KillEach(tab, height, kids, Level(height, root));
    var s := Event(Signal(root), Fails(tab, Signal(root)));
    Bracketed(e, m, s);
    assert kids[0..] == kids;
    SuffixOnce(tab, height, root, 0);
    forall x | x in Signals(m)
      ensures x !in [root]
    {
      InSomeSubtree(tab, height, kids, Level(height, root), x);
      var i :| 0 <= i < |kids| && x in Signals(KillPid(tab, height, kids[i]));
      SignalledAreReachable(tab, height, kids[i], x);
      var path :| IsPath(tab, path) && path[0] == kids[i] && path[|path| - 1] == x;
      PathDescends(tab, height, path);
      assert kids[i] in kids;
    }
    NoDupAppend(Signals(m), [root]);
  }

  lemma {:induction false} SuffixOnce(tab: Table, height: map<Pid, nat>, p: Pid, i: nat)
    requires Ranked(tab, height) && UniqueParents(tab)
    requires i <= |Kids(tab, p)|
    requires Below(height, Kids(tab, p), Level(height, p))
    ensures NoDup(Signals(KillEach(tab, height, Kids(tab, p)[i..], Level(height, p))))
    decreases Level(height, p), 0, |Kids(tab, p)| - i
  {
    var kids := Kids(tab, p);
    var b := Level(height, p);
    if i < |kids| {
      var suffix := kids[i..];
      assert suffix[0] == kids[i] && suffix[1..] == kids[i + 1..];
      var first := KillPid(tab, height, kids[i]);
      var rest := KillEach(tab, height, kids[i + 1..], b);
      SignalsAppend(first, rest);
      SignalledOnce(tab, height, kids[i]);
      SuffixOnce(tab, height, p, i + 1);
      forall x | x in Signals(first)
        ensures x !in Signals(rest)
      {
        if x in Signals(rest) {
          InSomeSubtree(tab, height, kids[i + 1..], b, x);
          var j :| 0 <= j < |kids[i + 1..]| && x in Signals(KillPid(tab, height, kids[i + 1..][j]));
          var other := kids[i + 1 + j];
          assert kids[i + 1..][j] == other;
          assert p in tab.children;
          assert kids[i] != other;
          SignalledAreReachable(tab, height, kids[i], x);
          var pa :| IsPath(tab, pa) && pa[0] == kids[i] && pa[|pa| - 1] == x;
          SignalledAreReachable(tab, height, other, x);
          var pb :| IsPath(tab, pb) && pb[0] == other && pb[|pb| - 1] == x;
          SiblingSubtreesDisjoint(tab, height, p, kids[i], other, pa, pb);
        }
      }
      NoDupAppend(Signals(first), Signals(rest));
    }
  }
}

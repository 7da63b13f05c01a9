/** The child loop of the clone stressor: start clones up to a limit, reap the oldest, then free. */
module CloneReaping {
  import opened Basics
  import opened Chains
  import opened RecyclingList
  import opened CloneRuns

  /** The kernel as the child sees it: the clones nobody has waited for, oldest first. */
  class Kernel {
    var children: seq<int>
    var interrupted: bool  // a signal has cut a wait short; its handler also ends the child's loop

    /** `clone()`: a new child, whose process id no other un-waited child has, or a failure. */
    method Clone() returns (pid: int)
      modifies this`children
      ensures pid == FAILED ==> children == old(children)
      ensures pid != FAILED ==> pid !in old(children) && children == old(children) + [pid]
    {
      pid := *;
      if pid == FAILED || pid in children { return FAILED; }
      children := children + [pid];
    }

    /**
      `waitpid()` with `__WCLONE`: it blocks for that child, or for any one when `pid` is -1, and
      takes it, unless there is none or a signal comes first.
     */
    method WaitPid(pid: int) returns (ghost w: Wait)
      modifies this
      ensures children == Without(old(children), Target(old(children), pid, w))
      ensures interrupted == (old(interrupted) || w.Interrupted?)
    {
      var signal: bool, any: nat := *, *;
      var wait := if signal then Interrupted else Done(any);
      w := wait;
      interrupted := interrupted || signal;
      children := Without(children, Target(children, pid, wait));
    }
  }

  /** The list and the kernel are as state `s` of a run says. */
  ghost predicate Shows(list: List, kernel: Kernel, s: State)
    reads list, list.live, kernel
  {
    list.Contents() == s.records && kernel.children == s.unwaited && kernel.interrupted == s.stopped
  }

  /** `stress_clone_head_remove`: waits for the oldest recorded clone and drops its record. */
  method Reap(list: List, kernel: Kernel, ghost s: State) returns (ghost w: Wait)
    requires list.Valid() && Shows(list, kernel, s)
    modifies list, list.Nodes(), kernel
    ensures list.Valid() && list.peak == old(list.peak) && list.Nodes() == old(list.Nodes())
    ensures Shows(list, kernel, Waited(s, w)) && list.refusals == old(list.refusals)
    ensures old(kernel.interrupted) ==> kernel.interrupted
  {
    hide Chain, Distinct, Disjoint, DataOf;
    ChainHead(list.head, list.live);
    w := Done(0);
    if list.head != null { w := kernel.WaitPid(list.head.data); }
    list.RemoveHead();
  }

  /** A record for a new clone, with the process id `clone()` gives. */
  method Start(list: List, kernel: Kernel, ghost s: State) returns (info: Node?<int>)
    requires list.Valid() && Shows(list, kernel, s) && !s.stopped
    modifies list, list.Nodes(), kernel
    ensures list.Valid() && list.peak == Max(old(list.peak), list.length)
    ensures list.length == if info != null then old(list.length) + 1 else old(list.length)
    ensures list.refusals == if info == null then old(list.refusals) + 1 else old(list.refusals)
    ensures info == null ==> Shows(list, kernel, s)
    ensures info != null && info.data == FAILED ==> Shows(list, kernel, Recorded(s, FAILED))
    ensures info != null && info.data != FAILED ==>
              Enabled(s, Clone(info.data)) && Shows(list, kernel, Started(s, info.data))
    ensures fresh(list.Nodes() - old(list.Nodes()))
  {
    hide Chain, Distinct, Disjoint, DataOf, List.Contents, List.Valid;
    Bounds(list);
    RecordCount(list, kernel, s);
    info := list.Append();
    Bounds(list);
    if info != null {
      assert list.Contents()[..list.length - 1] == s.records;
      var pid := kernel.Clone();
      SetPid(list, info, pid);
    }
  }

  method SetPid(list: List, info: Node<int>, pid: int)
    requires list.Valid() && list.live != [] && info == list.live[|list.live| - 1]
    modifies info`data
    ensures list.Valid() && info.data == pid
    ensures list.Contents() == old(list.Contents())[..list.length - 1] + [pid]
  {
    hide Chain, Disjoint, DataOf;
    info.data := pid;
  }

  /** One turn that starts a clone; one that fails is recorded all the same and the oldest record reaped. */
  method TryClone(list: List, kernel: Kernel, ghost s: State) returns (granted: bool, failed: bool, ghost turn: Turn)
    requires list.Valid() && Shows(list, kernel, s) && !s.stopped
    modifies list, list.Nodes(), kernel
    ensures list.Valid() && fresh(list.Nodes() - old(list.Nodes()))
    ensures list.peak == if granted then Max(old(list.peak), old(list.length) + 1) else old(list.peak)
    ensures if granted then Enabled(s, turn) && Shows(list, kernel, Next(s, turn)) else Shows(list, kernel, s)
    ensures granted ==> !turn.Reap? && (failed <==> turn.Failure?)
    ensures list.refusals == if granted then old(list.refusals) else old(list.refusals) + 1
  {
    hide Chain, Distinct, Disjoint, DataOf, List.Contents, List.Valid;
    Bounds(list);
    var info := Start(list, kernel, s);
    Bounds(list);
    granted, failed, turn := info != null, false, CloneRuns.Reap(Interrupted);
    if granted {
      failed := info.data == FAILED;
      turn := CloneRuns.Clone(info.data);
      if failed {
        ghost var w := Reap(list, kernel, Recorded(s, FAILED));
        turn := Failure(w);
      }
    }
  }

  /** The end of the child: reaps every record still held. */
  method Drain(list: List, kernel: Kernel, ghost run: seq<Turn>) returns (ghost drain: seq<Turn>)
    requires list.Valid() && Run(run).Some? && Shows(list, kernel, Run(run).value)
    modifies list, list.Nodes(), kernel
    ensures list.Valid() && list.head == null && list.peak == old(list.peak) && list.Nodes() == old(list.Nodes())
    ensures (forall a | a in drain :: a.Reap?) && |drain| == |Run(run).value.records|
    ensures Run(run + drain).Some? && Shows(list, kernel, Run(run + drain).value)
    ensures list.refusals == old(list.refusals) && (old(kernel.interrupted) ==> kernel.interrupted)
  {
    hide Chain, Distinct, Disjoint, DataOf, List.Contents, List.Valid, Run;
    drain := [];
    assert run + [] == run;
    ghost var n := list.length;
    RecordCount(list, kernel, Run(run).value);
    while list.head != null
      invariant list.Valid() && list.peak == old(list.peak) && list.Nodes() == old(list.Nodes())
      invariant (forall a | a in drain :: a.Reap?) && |drain| + list.length == n
      invariant Run(run + drain).Some? && Shows(list, kernel, Run(run + drain).value)
      invariant list.refusals == old(list.refusals) && (old(kernel.interrupted) ==> kernel.interrupted)
      decreases list.length
    {
      ghost var s := Run(run + drain).value;
      Bounds(list);
      RecordCount(list, kernel, s);
      ghost var w := Reap(list, kernel, s);
      ghost var turn := CloneRuns.Reap(w);
      RunSnoc(run + drain, turn);
      assert run + drain + [turn] == run + (drain + [turn]);
      drain := drain + [turn];
      RecordCount(list, kernel, Waited(s, w));
    }
    EmptyList(list);
  }

  lemma RecordCount(list: List, kernel: Kernel, s: State)
    requires list.Valid() && Shows(list, kernel, s)
    ensures list.length == |s.records| && (list.head == null <==> s.records == [])
  {}

  /** The loop of the child, for up to `rounds` turns; only a refused allocation or a signal ends it early. */
  method Loop(list: List, kernel: Kernel, cloneMax: nat, rounds: nat) returns (maxClones: nat, ghost main: seq<Turn>)
    requires list.Valid() && list.live == [] && list.peak == 0 && kernel.children == [] && !kernel.interrupted
    modifies list, list.Nodes(), kernel
    ensures list.Valid() && list.peak <= cloneMax && fresh(list.Nodes() - old(list.Nodes()))
    ensures Run(main).Some? && Within(cloneMax, main) && Shows(list, kernel, Run(main).value)
    ensures maxClones == Run(main).value.reported <= cloneMax
    ensures |main| <= rounds && (list.refusals == old(list.refusals) && !kernel.interrupted ==> |main| == rounds)
  {
    hide Chain, Distinct, Disjoint, DataOf, List.Contents, List.Valid, Run, Within;
    maxClones, main := 0, [];
    var left := rounds;
    Bounds(list);
    EmptyList(list);
    Beginning(cloneMax);
    while left > 0 && !kernel.interrupted
      invariant list.Valid() && list.peak <= cloneMax && fresh(list.Nodes() - old(list.Nodes()))
      invariant Run(main).Some? && Within(cloneMax, main) && Shows(list, kernel, Run(main).value)
      invariant maxClones == Run(main).value.reported <= cloneMax
      invariant list.refusals >= old(list.refusals) && |main| + left <= rounds
      invariant list.refusals == old(list.refusals) ==> |main| + left == rounds
    {
      left := left - 1;
      ghost var s := Run(main).value;
      RecordCount(list, kernel, s);
      if list.length < cloneMax {
        var granted, failed;
        ghost var turn;
        granted, failed, turn := TryClone(list, kernel, s);
        if !granted { break; }
        RunSnoc(main, turn);
        WithinSnoc(cloneMax, main, turn);
        RecordCount(list, kernel, Next(s, turn));
        main := main + [turn];
        if failed { continue; }
        if maxClones < list.length { maxClones := list.length; }
      } else {
        ghost var w := Reap(list, kernel, s);
        RunSnoc(main, CloneRuns.Reap(w));
        WithinSnoc(cloneMax, main, CloneRuns.Reap(w));
        main := main + [CloneRuns.Reap(w)];
      }
    }
  }

  /**
    The child of `stress_clone`, for up to `rounds` turns of its loop: what happens is a run of
    `main` within the limit and then of `drain`, and the maximum reported is that of the run.
    The clones left un-waited are exactly those lost to an interrupted wait, and every node
    allocated is released exactly once. Only a refused allocation or a signal cuts it short.
   */
  method Child(list: List, kernel: Kernel, cloneMax: nat, rounds: nat)
    returns (maxClones: nat, ghost main: seq<Turn>, ghost drain: seq<Turn>, ghost trace: seq<Access<int>>)
    requires list.Valid() && list.live == [] && list.peak == 0 && kernel.children == [] && !kernel.interrupted
    modifies list, list.Nodes(), kernel
    ensures Within(cloneMax, main) && Run(main).Some? && (forall a | a in drain :: a.Reap?)
    ensures |drain| == |Run(main).value.records|
    ensures Run(main + drain).Some? && Run(main + drain).value.records == []
    ensures maxClones == Run(main + drain).value.reported <= cloneMax
    ensures var s := Run(main + drain).value;
      && kernel.children == s.unwaited && (kernel.children == [] <==> s.lost == {})
      && multiset(s.born) == multiset(s.taken) + multiset(kernel.children) && s.most <= maxClones
    ensures !kernel.interrupted ==> kernel.children == []
    ensures |main| <= rounds && (list.refusals == old(list.refusals) && !kernel.interrupted ==> |main| == rounds)
    ensures |Releases(trace)| == list.peak <= cloneMax && Orderly(trace) && Distinct(Releases(trace))
    ensures list.head == null && list.tail == null && list.free == null && list.length == 0
  {
    hide Chain, Distinct, Disjoint, DataOf, List.Contents, List.Valid, Run, Within, Releases, Orderly;
    maxClones, main := Loop(list, kernel, cloneMax, rounds);
    drain := Drain(list, kernel, main);
    RecordCount(list, kernel, Run(main + drain).value);
    EveryRun(main + drain);
    ReportVersusClones(main + drain);
    ReapsReport(main, drain);
    EmptyList(list);
    trace := list.FreeAll();
  }

  lemma Beginning(cloneMax: nat)
    ensures Run([]) == Some(START) && Within(cloneMax, [])
  {}

  /** Reaping does not change the report. */
  lemma {:induction false} ReapsReport(main: seq<Turn>, drain: seq<Turn>)
    requires Run(main + drain).Some? && forall a | a in drain :: a.Reap?
    ensures Run(main).Some? && Run(main).value.reported == Run(main + drain).value.reported
  {
    if drain == [] {
      assert main + drain == main;
    } else {
      var d := drain[..|drain| - 1];
      assert (main + drain)[..|main + drain| - 1] == main + d;
      assert drain[|drain| - 1] in drain;
      ReapsReport(main, d);
    }
  }
}

/**
  Every run of the clone stressor's child as a sequence of turns: which clones are recorded,
  which are still to be waited for, in which order the waits take them, and what a wait that a
  signal interrupts leaves behind.
 */
module CloneRuns {
  import opened Basics

  /** `clone()` reports failure with this process id, and `waitpid()` reads it as any clone. */
  const FAILED: int := -1

  /**
    `records` is the list, oldest first; `unwaited` the clones nobody has waited for, oldest
    first; `born` and `taken` all clones started and all waited for so far; `most` the largest
    number of clones un-waited at once, and `reported` the maximum the program prints. `lost`
    are the clones whose wait was interrupted and that no later wait took, and `stopped` says
    that some wait was interrupted.
   */
  datatype State = State(
    records: seq<int>, unwaited: seq<int>, born: seq<int>, taken: seq<int>, most: nat, reported: nat,
    lost: set<int>, stopped: bool)

  /** How a `waitpid()` ends; `pick` is which of the un-waited clones a wait for any one takes. */
  datatype Wait = Done(pick: nat) | Interrupted

  datatype Turn =
    | Clone(pid: int)   // a clone is started and recorded
    | Failure(w: Wait)  // it fails, is recorded all the same, and the oldest record is reaped
    | Reap(w: Wait)     // the oldest record is reaped

  function IndexOf(s: seq<int>, x: int): (i: int)
    ensures -1 <= i < |s| && (i >= 0 ==> s[i] == x) && (i < 0 <==> x !in s)
  {
    if s == [] then -1
    else if s[0] == x then 0
    else
      var i := IndexOf(s[1..], x);
      if i < 0 then -1 else i + 1
  }

  /** Which of `unwaited` a `waitpid()` for `pid` takes, -1 for none. */
  function Target(unwaited: seq<int>, pid: int, w: Wait): (t: int)
    ensures -1 <= t < |unwaited| && (w.Done? && pid != FAILED ==> (t < 0 <==> pid !in unwaited))
    ensures pid != FAILED && t >= 0 ==> unwaited[t] == pid
  {
    if w.Interrupted? || unwaited == [] then -1
    else if pid != FAILED then IndexOf(unwaited, pid)
    else w.pick % |unwaited|
  }

  function Without(s: seq<int>, t: int): seq<int>
    requires t < |s|
  {
    if t < 0 then s else s[..t] + s[t + 1..]
  }

  /** The oldest record is reaped; an interrupted wait for a clone drops its record all the same. */
  function Waited(s: State, w: Wait): State {
    if s.records == [] then s
    else
      var pid := s.records[0];
      var t := Target(s.unwaited, pid, w);
      s.(records := s.records[1..],
         unwaited := Without(s.unwaited, t),
         taken := s.taken + (if t < 0 then [] else [s.unwaited[t]]),
         lost := if t >= 0 then s.lost - {s.unwaited[t]}
                 else if pid in s.unwaited then s.lost + {pid}
                 else s.lost,
         stopped := s.stopped || w.Interrupted?)
  }

  function Recorded(s: State, pid: int): State {
    s.(records := s.records + [pid])
  }

  function Started(s: State, pid: int): State {
    Recorded(s, pid).(
      unwaited := s.unwaited + [pid], born := s.born + [pid],
      most := Max(s.most, |s.unwaited| + 1), reported := Max(s.reported, |s.records| + 1))
  }

  /**
    The kernel gives a process id that no un-waited clone has. The handler of the signal that
    interrupts a wait also ends the loop, so after it the child only drains its list.
   */
  predicate Enabled(s: State, a: Turn) {
    a.Reap? || (!s.stopped && (a.Clone? ==> a.pid != FAILED && a.pid !in s.unwaited))
  }

  function Next(s: State, a: Turn): State {
    match a
    case Clone(pid) => Started(s, pid)
    case Failure(w) => Waited(Recorded(s, FAILED), w)
    case Reap(w) => Waited(s, w)
  }

  const START := State([], [], [], [], 0, 0, {}, false)

  /** The state after the turns of `run`, if each of them was possible. */
  function Run(run: seq<Turn>): Option<State> {
    if run == [] then Some(START)
    else
      var before := Run(run[..|run| - 1]);
      var a := run[|run| - 1];
      if before.Some? && Enabled(before.value, a) then Some(Next(before.value, a)) else None
  }

  lemma RunSnoc(run: seq<Turn>, a: Turn)
    requires Run(run).Some? && Enabled(Run(run).value, a)
    ensures Run(run + [a]) == Some(Next(Run(run).value, a))
  {
    assert (run + [a])[..|run|] == run;
  }

  /** A turn of the child's loop: it starts clones below the limit and reaps at it, until it is stopped. */
  ghost predicate InLoop(cloneMax: nat, s: State, a: Turn) {
    !s.stopped && (a.Reap? <==> |s.records| >= cloneMax)
  }

  ghost predicate Within(cloneMax: nat, run: seq<Turn>) {
    run == [] ||
    var before := Run(run[..|run| - 1]);
    Within(cloneMax, run[..|run| - 1]) && before.Some? && InLoop(cloneMax, before.value, run[|run| - 1])
  }

  lemma WithinSnoc(cloneMax: nat, run: seq<Turn>, a: Turn)
    requires Within(cloneMax, run) && Run(run).Some? && InLoop(cloneMax, Run(run).value, a)
    ensures Within(cloneMax, run + [a])
  {
    assert (run + [a])[..|run|] == run;
  }

  /** `u` can be had from `r` by leaving records out. */
  ghost predicate Sub(u: seq<int>, r: seq<int>) {
    u == [] || (r != [] && if u[0] == r[0] then Sub(u[1..], r[1..]) else Sub(u, r[1..]))
  }

  lemma {:induction false} SubIn(u: seq<int>, r: seq<int>, x: int)
    requires Sub(u, r) && x in u
    ensures x in r
  {
    if u[0] == r[0] {
      if x != u[0] { SubIn(u[1..], r[1..], x); }
    } else {
      SubIn(u, r[1..], x);
    }
  }

  lemma {:induction false} SubLength(u: seq<int>, r: seq<int>)
    requires Sub(u, r)
    ensures |u| <= |r| && (|u| == |r| ==> u == r)
  {
    if u != [] {
      if u[0] == r[0] { SubLength(u[1..], r[1..]); } else { SubLength(u, r[1..]); }
    }
  }

  lemma {:induction false} SubRest(u: seq<int>, r: seq<int>)
    requires u != [] && Sub(u, r)
    ensures Sub(u[1..], r)
    decreases |r|
  {
    var v := u[1..];
    if u[0] != r[0] { SubRest(u, r[1..]); }
    if v != [] && v[0] == r[0] { SubRest(v, r[1..]); }
  }

  lemma {:induction false} SubSnoc(u: seq<int>, r: seq<int>, x: int)
    requires Sub(u, r)
    ensures Sub(u, r + [x]) && Sub(u + [x], r + [x])
    decreases |r|
  {
    if r == [] {
      assert (u + [x])[1..] == [];
    } else {
      assert (r + [x])[1..] == r[1..] + [x];
      if u == [] {
        SubSnoc([], r[1..], x);
        assert [] + [x] == [x];
        if x == r[0] { assert [x][1..] == []; }
      } else {
        assert (u + [x])[1..] == u[1..] + [x];
        if u[0] == r[0] { SubSnoc(u[1..], r[1..], x); } else { SubSnoc(u, r[1..], x); }
      }
    }
  }

  /** The members of `u` outside `c`, in order. */
  ghost function Keep(u: seq<int>, c: set<int>): seq<int> {
    if u == [] then []
    else
      var last := u[|u| - 1];
      Keep(u[..|u| - 1], c) + if last in c then [] else [last]
  }

  lemma {:induction false} KeepMember(u: seq<int>, c: set<int>, x: int)
    ensures x in Keep(u, c) <==> x in u && x !in c
  {
    if u != [] {
      KeepMember(u[..|u| - 1], c, x);
      assert u == u[..|u| - 1] + [u[|u| - 1]];
    }
  }

  lemma KeepOne(x: int, c: set<int>)
    ensures Keep([x], c) == if x in c then [] else [x]
  {
    assert [x][..0] == [];
  }

  lemma {:induction false} KeepAll(u: seq<int>, c: set<int>)
    requires forall x | x in u :: x !in c
    ensures Keep(u, c) == u
  {
    if u != [] { KeepAll(u[..|u| - 1], c); }
  }

  lemma {:induction false} KeepAppend(u: seq<int>, v: seq<int>, c: set<int>)
    ensures Keep(u + v, c) == Keep(u, c) + Keep(v, c)
    decreases |v|
  {
    if v == [] {
      assert u + v == u;
    } else {
      assert (u + v)[..|u + v| - 1] == u + v[..|v| - 1];
      KeepAppend(u, v[..|v| - 1], c);
    }
  }

  lemma {:induction false} KeepTwice(u: seq<int>, c: set<int>, x: int)
    ensures Keep(u, c + {x}) == Keep(Keep(u, c), {x})
  {
    if u != [] {
      var init, last := u[..|u| - 1], u[|u| - 1];
      KeepTwice(init, c, x);
      KeepAppend(Keep(init, c), if last in c then [] else [last], {x});
      KeepOne(last, {x});
    }
  }

  /** Dropping a clone from the list and from the lost ones is dropping it from what is kept. */
  lemma KeepWithout(u: seq<int>, c: set<int>, t: nat)
    requires t < |u| && Distinct(u)
    ensures Keep(Without(u, t), c - {u[t]}) == Keep(Keep(u, c), {u[t]})
  {
    hide Keep;
    var x, a, b := u[t], u[..t], u[t + 1..];
    assert u == a + [x] + b;
    assert x !in a && x !in b;
    KeepTwice(u, c, x);
    KeepAppend(a + [x], b, c + {x});
    KeepAppend(a, [x], c + {x});
    KeepAppend(a, b, c - {x});
    KeepSame(a, c - {x}, c + {x});
    KeepSame(b, c - {x}, c + {x});
    KeepOne(x, c + {x});
  }

  lemma {:induction false} KeepSame(u: seq<int>, c: set<int>, d: set<int>)
    requires forall x | x in u :: x in c <==> x in d
    ensures Keep(u, c) == Keep(u, d)
  {
    if u != [] { KeepSame(u[..|u| - 1], c, d); }
  }

  lemma {:induction false} SubKeep(u: seq<int>, r: seq<int>, c: set<int>)
    requires Sub(u, r)
    ensures Sub(Keep(u, c), r)
    decreases |u| + |r|
  {
    if u != [] {
      hide Keep;
      assert u == [u[0]] + u[1..];
      KeepAppend([u[0]], u[1..], c);
      KeepOne(u[0], c);
      var rest := Keep(u[1..], c);
      if u[0] in c {
        assert Keep(u, c) == rest;
        SubRest(u, r);
        SubKeep(u[1..], r, c);
      } else {
        assert Keep(u, c)[1..] == rest;
        if u[0] == r[0] { SubKeep(u[1..], r[1..], c); } else { SubKeep(u, r[1..], c); }
      }
    }
  }

  /**
    What holds in every state: the un-waited clones that are not lost have their records, in
    order; the lost ones are un-waited, and there is none before a wait has been interrupted.
   */
  ghost predicate Sound(s: State) {
    && Distinct(s.unwaited) && FAILED !in s.unwaited
    && (forall x | x in s.lost :: x in s.unwaited) && (!s.stopped ==> s.lost == {})
    && Sub(Keep(s.unwaited, s.lost), s.records)
    && multiset(s.born) == multiset(s.taken) + multiset(s.unwaited)
  }

  lemma WithoutMembers(u: seq<int>, t: int)
    requires -1 <= t < |u|
    ensures t < 0 ==> Without(u, t) == u
    ensures forall x :: x in Without(u, t) ==> x in u
    ensures forall x | x in u && (t < 0 || x != u[t]) :: x in Without(u, t)
    ensures Distinct(u) ==> Distinct(Without(u, t)) && (t >= 0 ==> u[t] !in Without(u, t))
    ensures t >= 0 ==> multiset(u) == multiset(Without(u, t)) + multiset([u[t]])
  {
    if t >= 0 { assert u == u[..t] + [u[t]] + u[t + 1..]; }
  }

  lemma SubWaited(s: State, w: Wait)
    requires Sound(s) && s.records != []
    ensures var n := Waited(s, w); Sub(Keep(n.unwaited, n.lost), n.records)
  {
    hide Sub, Keep;
    var r, u, n := s.records, s.unwaited, Waited(s, w);
    var t := Target(u, r[0], w);
    var k := Keep(n.unwaited, n.lost);
    WithoutMembers(u, t);
    if t >= 0 {
      KeepWithout(u, s.lost, t);
      SubKeep(Keep(u, s.lost), r, {u[t]});
    } else if r[0] in u {
      KeepTwice(u, s.lost, r[0]);
      SubKeep(Keep(u, s.lost), r, {r[0]});
    }
    KeepMember(n.unwaited, n.lost, r[0]);
    SubTail(k, r);
  }

  lemma SubTail(u: seq<int>, r: seq<int>)
    requires r != [] && Sub(u, r) && r[0] !in u
    ensures Sub(u, r[1..])
  {}

  lemma LostWaited(s: State, w: Wait)
    requires Sound(s) && s.records != []
    ensures var n := Waited(s, w); (forall x | x in n.lost :: x in n.unwaited) && (!n.stopped ==> n.lost == {})
  {
    hide Sub, Keep, Without, Distinct;
    WithoutMembers(s.unwaited, Target(s.unwaited, s.records[0], w));
  }

  lemma CountWaited(s: State, w: Wait)
    requires Sound(s) && s.records != []
    ensures var n := Waited(s, w); Distinct(n.unwaited) && FAILED !in n.unwaited
    ensures var n := Waited(s, w); multiset(n.born) == multiset(n.taken) + multiset(n.unwaited)
  {
    hide Sub, Keep, Without, Distinct;
    WithoutMembers(s.unwaited, Target(s.unwaited, s.records[0], w));
  }

  lemma SoundWaited(s: State, w: Wait)
    requires Sound(s)
    ensures Sound(Waited(s, w))
  {
    hide Sub, Keep, Without, Distinct;
    if s.records != [] {
      LostWaited(s, w);
      CountWaited(s, w);
      SubWaited(s, w);
    }
  }

  lemma SoundStarted(s: State, pid: int)
    requires Sound(s) && pid != FAILED && pid !in s.unwaited
    ensures Sound(Started(s, pid))
  {
    hide Sub, Keep;
    assert pid !in s.lost;
    KeepAppend(s.unwaited, [pid], s.lost);
    KeepOne(pid, s.lost);
    SubSnoc(Keep(s.unwaited, s.lost), s.records, pid);
  }

  lemma SoundRecorded(s: State, pid: int)
    requires Sound(s)
    ensures Sound(Recorded(s, pid))
  {
    hide Sub, Keep;
    SubSnoc(Keep(s.unwaited, s.lost), s.records, pid);
  }

  lemma {:induction false} SoundRun(run: seq<Turn>)
    requires Run(run).Some?
    ensures Sound(Run(run).value)
  {
    hide Sound, Waited, Recorded, Started;
    if run == [] {
      SoundStart();
    } else {
      SoundRun(run[..|run| - 1]);
      var before, a := Run(run[..|run| - 1]).value, run[|run| - 1];
      match a
      case Clone(pid) => SoundStarted(before, pid);
      case Failure(w) => SoundRecorded(before, FAILED); SoundWaited(Recorded(before, FAILED), w);
      case Reap(w) => SoundWaited(before, w);
    }
  }

  lemma SoundStart()
    ensures Sound(START)
  {}

  /**
    In every run the clones waited for and those still un-waited are the clones started, each
    once. When no record is left the un-waited ones are exactly the lost ones, so every clone
    has been waited for if and only if none is lost; none is if no wait was interrupted.
   */
  lemma EveryRun(run: seq<Turn>)
    requires Run(run).Some?
    ensures var s := Run(run).value; multiset(s.born) == multiset(s.taken) + multiset(s.unwaited)
    ensures var s := Run(run).value; s.records == [] ==> forall x :: x in s.unwaited <==> x in s.lost
    ensures var s := Run(run).value; s.records == [] ==> (s.unwaited == [] <==> s.lost == {})
    ensures var s := Run(run).value; !s.stopped ==> s.lost == {}
  {
    SoundRun(run);
    var s := Run(run).value;
    if s.records == [] {
      forall x | x in s.unwaited ensures x in s.lost { KeepMember(s.unwaited, s.lost, x); }
      if s.unwaited != [] { assert s.unwaited[0] in s.lost; }
    }
  }

  /** A clone is started, its wait at the limit is interrupted, and the child ends with it un-waited. */
  lemma CloneLeftBehind(a: int)
    requires a != FAILED
    ensures var run := [Clone(a), Reap(Interrupted)];
      && Within(1, run) && Run(run).Some?
      && Run(run).value.records == [] && Run(run).value.unwaited == [a] && Run(run).value.lost == {a}
  {
    var r0: seq<Turn> := [];
    var r1, r2 := [Clone(a)], [Clone(a), Reap(Interrupted)];
    RunSnoc(r0, Clone(a));
    WithinSnoc(1, r0, Clone(a));
    assert r0 + [Clone(a)] == r1 && START.records + [a] == [a] && START.unwaited + [a] == [a];
    RunSnoc(r1, Reap(Interrupted));
    WithinSnoc(1, r1, Reap(Interrupted));
    assert r1 + [Reap(Interrupted)] == r2;
  }

  /**
    A wait that can go wrong (for a failed clone, for a process id recorded twice, or with a
    clone lost before) takes the oldest un-waited clone or none.
   */
  ghost predicate TakesOldest(s: State, w: Wait) {
    s.records == [] ||
    (s.records[0] != FAILED && s.records[0] !in s.records[1..] && s.lost == {}) ||
    Target(s.unwaited, s.records[0], w) <= 0
  }

  ghost predicate InOrder(run: seq<Turn>)
    requires Run(run).Some?
  {
    run == [] ||
    var before, a := Run(run[..|run| - 1]).value, run[|run| - 1];
    && InOrder(run[..|run| - 1])
    && match a
       case Clone(_) => true
       case Failure(w) => TakesOldest(Recorded(before, FAILED), w)
       case Reap(w) => TakesOldest(before, w)
  }

  ghost predicate OutOfOrder(s: State) {
    exists k | 0 <= k < |s.taken| :: k < |s.born| && s.taken[k] != s.born[k]
  }

  /** A record whose process id is recorded once is that of the oldest un-waited clone, if it is un-waited. */
  lemma OwnRecordIsOldest(s: State)
    requires Sound(s) && s.records != [] && s.lost == {}
    ensures var r, u := s.records, s.unwaited; r[0] in u && r[0] !in r[1..] ==> IndexOf(u, r[0]) == 0
  {
    var r, u := s.records, s.unwaited;
    KeepAll(u, {});
    if r[0] in u && r[0] !in r[1..] && u[0] != r[0] { SubIn(u, r[1..], r[0]); }
  }

  lemma WaitedOrder(s: State, w: Wait)
    requires Sound(s)
    ensures OutOfOrder(s) ==> OutOfOrder(Waited(s, w))
    ensures s.taken + s.unwaited == s.born ==>
              var n := Waited(s, w);
              if TakesOldest(s, w) then n.taken + n.unwaited == n.born else OutOfOrder(n)
  {
    hide Sub, Keep;
    var n := Waited(s, w);
    if OutOfOrder(s) {
      var k :| 0 <= k < |s.taken| && k < |s.born| && s.taken[k] != s.born[k];
      assert n.taken[k] == s.taken[k];
    }
    if s.taken + s.unwaited == s.born && s.records != [] {
      var r, u := s.records, s.unwaited;
      var t := Target(u, r[0], w);
      if s.lost == {} { OwnRecordIsOldest(s); }
      if t > 0 {
        assert n.taken[|s.taken|] == u[t] && s.born[|s.taken|] == u[0];
      } else if t == 0 {
        assert s.taken + u == s.taken + [u[0]] + u[1..];
        assert Without(u, 0) == u[1..];
      }
    }
  }

  lemma StartedOrder(s: State, pid: int)
    ensures OutOfOrder(s) ==> OutOfOrder(Started(s, pid))
    ensures s.taken + s.unwaited == s.born ==>
              var n := Started(s, pid); n.taken + n.unwaited == n.born
  {
    var n := Started(s, pid);
    if OutOfOrder(s) {
      var k :| 0 <= k < |s.taken| && k < |s.born| && s.taken[k] != s.born[k];
      assert n.taken[k] == s.taken[k] && n.born[k] == s.born[k];
    }
  }

  /** At every moment: in order so far, or out of order for good. */
  lemma {:induction false} OrderSoFar(run: seq<Turn>)
    requires Run(run).Some?
    ensures var s := Run(run).value;
            if InOrder(run) then s.taken + s.unwaited == s.born else OutOfOrder(s)
  {
    hide Sound;
    if run != [] {
      OrderSoFar(run[..|run| - 1]);
      SoundRun(run[..|run| - 1]);
      var before, a := Run(run[..|run| - 1]).value, run[|run| - 1];
      match a
      case Clone(pid) => StartedOrder(before, pid);
      case Failure(w) => SoundRecorded(before, FAILED); WaitedOrder(Recorded(before, FAILED), w);
      case Reap(w) => WaitedOrder(before, w);
    }
  }

  /**
    A finished run has waited for all its clones in the order it started them if and only if no
    clone is lost and every wait for a failed record, for a process id that is recorded twice,
    or after a clone was lost, took the oldest un-waited clone or none.
   */
  lemma WaitsInOrder(run: seq<Turn>)
    requires Run(run).Some? && Run(run).value.records == []
    ensures var s := Run(run).value; s.taken == s.born <==> InOrder(run) && s.lost == {}
  {
    OrderSoFar(run);
    EveryRun(run);
    var s := Run(run).value;
    assert s.taken + [] == s.taken;
    assert InOrder(run) ==> |s.born| == |s.taken| + |s.unwaited|;
  }

  lemma {:induction false} PrefixBounds(run: seq<Turn>, i: nat)
    requires Run(run).Some? && i <= |run|
    ensures Run(run[..i]).Some?
    ensures var s, p := Run(run).value, Run(run[..i]).value;
            |p.unwaited| <= s.most && |p.records| <= s.reported
  {
    if i < |run| {
      PrefixBounds(run[..|run| - 1], i);
      assert run[..|run| - 1][..i] == run[..i];
    } else {
      assert run[..i] == run;
      if run != [] {
        PrefixBounds(run[..|run| - 1], |run| - 1);
        assert run[..|run| - 1][..|run| - 1] == run[..|run| - 1];
      }
    }
  }

  lemma {:induction false} MostReached(run: seq<Turn>) returns (i: nat)
    requires Run(run).Some?
    ensures i <= |run| && Run(run[..i]).Some? && !Run(run[..i]).value.stopped
    ensures |Run(run[..i]).value.unwaited| == Run(run).value.most
  {
    if run == [] {
      return 0;
    }
    var before, after := Run(run[..|run| - 1]).value, Run(run).value;
    if after.most == before.most {
      i := MostReached(run[..|run| - 1]);
      assert run[..|run| - 1][..i] == run[..i];
    } else {
      i := |run|;
      assert run[..i] == run;
    }
  }

  /** After `run` there are `n` records, all of clones still un-waited. */
  ghost predicate AllAlive(run: seq<Turn>, n: nat) {
    Run(run).Some? && var s := Run(run).value; s.records == s.unwaited && |s.records| == n
  }

  /**
    The maximum the program prints is never below the largest number of clones un-waited at
    once, and it is that number if and only if the list was once as long as the maximum says
    with no failed and no already waited clone in it.
   */
  lemma ReportVersusClones(run: seq<Turn>)
    requires Run(run).Some?
    ensures var s := Run(run).value;
      && s.most <= s.reported
      && (s.most == s.reported <==> exists i | 0 <= i <= |run| :: AllAlive(run[..i], s.reported))
  {
    hide Sub;
    var s := Run(run).value;
    var m := MostReached(run);
    var p := Run(run[..m]).value;
    PrefixBounds(run, m);
    SoundRun(run[..m]);
    KeepAll(p.unwaited, {});
    SubLength(p.unwaited, p.records);
    if s.most == s.reported { assert AllAlive(run[..m], s.reported); }
    if i :| 0 <= i <= |run| && AllAlive(run[..i], s.reported) { PrefixBounds(run, i); }
  }

  ghost predicate NoFailure(run: seq<Turn>) {
    forall a | a in run :: !a.Failure?
  }

  /**
    Without a failed clone the report is exact; and as long as no wait is interrupted, every
    record is of an un-waited clone and the waits are in order.
   */
  lemma {:induction false} NoFailures(run: seq<Turn>)
    requires Run(run).Some? && NoFailure(run)
    ensures var s := Run(run).value; s.most == s.reported && (!s.stopped ==> s.records == s.unwaited && InOrder(run))
  {
    hide Sub, Keep;
    if run != [] {
      NoFailures(run[..|run| - 1]);
      SoundRun(run[..|run| - 1]);
      var before, a := Run(run[..|run| - 1]).value, run[|run| - 1];
      assert a in run;
      if a.Reap? && !Run(run).value.stopped && before.records != [] {
        assert before.records[0] !in before.records[1..];
        assert Without(before.unwaited, 0) == before.unwaited[1..];
      }
    }
  }

  lemma Step(cloneMax: nat, run: seq<Turn>, s: State, a: Turn, next: State)
    requires Run(run) == Some(s) && Enabled(s, a) && next == Next(s, a)
    requires Within(cloneMax, run) && InLoop(cloneMax, s, a)
    ensures Run(run + [a]) == Some(next) && Within(cloneMax, run + [a])
  {
    RunSnoc(run, a);
    WithinSnoc(cloneMax, run, a);
  }

  lemma FirstClone(a: int)
    ensures Next(START, Clone(a)) == State([a], [a], [a], [], 1, 1, {}, false)
  {}

  lemma ThenFailure(a: int)
    requires a != FAILED
    ensures Next(State([a], [a], [a], [], 1, 1, {}, false), Failure(Done(0)))
         == State([FAILED], [], [a], [a], 1, 1, {}, false)
  {
    var s := State([a], [a], [a], [], 1, 1, {}, false);
    assert Recorded(s, FAILED).records == [a, FAILED];
    assert Without([a], 0) == [];
  }

  lemma ThenClone(a: int, b: int)
    ensures Next(State([FAILED], [], [a], [a], 1, 1, {}, false), Clone(b))
         == State([FAILED, b], [b], [a, b], [a], 1, 2, {}, false)
  {}

  lemma ThenReap(a: int, b: int)
    ensures Next(State([FAILED, b], [b], [a, b], [a], 1, 2, {}, false), Reap(Done(0)))
         == State([b], [], [a, b], [a, b], 1, 2, {}, false)
  {
    assert Without([b], 0) == [] && [FAILED, b][1..] == [b] && [a] + [b] == [a, b];
  }

  /** One success, one failure, one success, for any limit above one. */
  lemma FailureBetween(cloneMax: nat, a: int, b: int)
    requires a != FAILED && b != FAILED && cloneMax >= 2
    ensures var run := [Clone(a), Failure(Done(0)), Clone(b)];
      Within(cloneMax, run) && Run(run) == Some(State([FAILED, b], [b], [a, b], [a], 1, 2, {}, false))
  {
    assert Run([]) == Some(START) && Within(cloneMax, []);
    hide Run, Within, Next;
    var r0: seq<Turn> := [];
    var r1, r2, r3 := [Clone(a)], [Clone(a), Failure(Done(0))], [Clone(a), Failure(Done(0)), Clone(b)];
    assert r1 == r0 + [Clone(a)] && r2 == r1 + [Failure(Done(0))] && r3 == r2 + [Clone(b)];
    var s1, s2 := State([a], [a], [a], [], 1, 1, {}, false), State([FAILED], [], [a], [a], 1, 1, {}, false);
    var s3 := State([FAILED, b], [b], [a, b], [a], 1, 2, {}, false);
    FirstClone(a);
    Step(cloneMax, r0, START, Clone(a), s1);
    ThenFailure(a);
    Step(cloneMax, r1, s1, Failure(Done(0)), s2);
    ThenClone(a, b);
    Step(cloneMax, r2, s2, Clone(b), s3);
  }

  /**
    With a limit of two the report is then 2, but there was never more than one clone; and the
    wait for the failed record takes `b`, so that the wait for `b` finds none.
   */
  lemma ReportTooHigh(a: int, b: int)
    requires a != FAILED && b != FAILED
    ensures var run := [Clone(a), Failure(Done(0)), Clone(b)];
      && Within(2, run) && Run(run) == Some(State([FAILED, b], [b], [a, b], [a], 1, 2, {}, false))
      && Run(run + [Reap(Done(0))]) == Some(State([b], [], [a, b], [a, b], 1, 2, {}, false))
  {
    hide Run, Within, Next;
    FailureBetween(2, a, b);
    ThenReap(a, b);
    RunSnoc([Clone(a), Failure(Done(0)), Clone(b)], Reap(Done(0)));
  }

  lemma BreaksOrder(run: seq<Turn>, w: Wait)
    requires Run(run).Some? && !TakesOldest(Run(run).value, w)
    ensures Run(run + [Reap(w)]).Some? && !InOrder(run + [Reap(w)])
  {
    assert (run + [Reap(w)])[..|run|] == run;
  }

  lemma NotOldest(s: State)
    requires s.records != [] && s.records[0] == FAILED && |s.unwaited| == 2
    ensures !TakesOldest(s, Done(1))
  {}

  lemma AnotherClone(a: int, b: int, c: int)
    ensures var s := Next(State([FAILED, b], [b], [a, b], [a], 1, 2, {}, false), Clone(c));
      s.records == [FAILED, b, c] && s.unwaited == [b, c] && !s.stopped
  {}

  /** With two clones behind a failed record the child, at a limit of three, can wait for the second first. */
  lemma WaitsOutOfOrder(a: int, b: int, c: int)
    requires a != FAILED && b != FAILED && c != FAILED && b != c
    ensures var run := [Clone(a), Failure(Done(0)), Clone(b), Clone(c), Reap(Done(1))];
      Within(3, run) && Run(run).Some? && !InOrder(run) && OutOfOrder(Run(run).value)
  {
    hide Run, InOrder, TakesOldest, Next, OutOfOrder, Within;
    var r3 := [Clone(a), Failure(Done(0)), Clone(b)];
    FailureBetween(3, a, b);
    RunSnoc(r3, Clone(c));
    WithinSnoc(3, r3, Clone(c));
    var r4 := r3 + [Clone(c)];
    AnotherClone(a, b, c);
    NotOldest(Run(r4).value);
    BreaksOrder(r4, Done(1));
    WithinSnoc(3, r4, Reap(Done(1)));
    OrderSoFar(r4 + [Reap(Done(1))]);
    assert r4 + [Reap(Done(1))] == [Clone(a), Failure(Done(0)), Clone(b), Clone(c), Reap(Done(1))];
  }
}

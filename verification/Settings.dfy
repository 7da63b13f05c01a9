/**
  The settings store: options are recorded against the stressor being parsed, and a stressor
  reads an option by walking the whole history from the start.
 */
module Settings {
  import opened Chains
  import opened Basics

  /** One recorded option; its value is `None` when its type is undefined. */
  datatype Entry = Entry(proc: int, name: string, value: Option<int>)

  datatype Outcome = Stored | InvalidAddress | NoResource

  /** The first entry of `p`, the length of the history when there is none. */
  ghost function FirstOwned(s: seq<Entry>, p: int): (i: nat)
    ensures i <= |s| && (i < |s| ==> s[i].proc == p)
    ensures forall j | 0 <= j < i :: s[j].proc != p
  {
    if s == [] then 0
    else if s[0].proc == p then 0
    else 1 + FirstOwned(s[1..], p)
  }

  /** The end of the run of entries of `p` that starts at `i`. */
  ghost function RunEnd(s: seq<Entry>, p: int, i: nat): (e: nat)
    requires i <= |s|
    ensures i <= e <= |s| && (e < |s| ==> s[e].proc != p)
    ensures forall j | i <= j < e :: s[j].proc == p
    decreases |s| - i
  {
    if i < |s| && s[i].proc == p then RunEnd(s, p, i + 1) else i
  }

  /** How much of the history a lookup for `p` sees: up to the end of its first run. */
  ghost function Horizon(s: seq<Entry>, p: int): (h: nat)
    ensures FirstOwned(s, p) <= h <= |s|
  {
    RunEnd(s, p, FirstOwned(s, p))
  }

  ghost predicate Defines(e: Entry, name: string) {
    e.name == name && e.value.Some?
  }

  /** The last entry below `n` that gives `name` a value, -1 when there is none. */
  ghost function LatestBelow(s: seq<Entry>, n: nat, name: string): (k: int)
    requires n <= |s|
    ensures -1 <= k < n && (k >= 0 ==> Defines(s[k], name))
    ensures forall j | k < j < n :: !Defines(s[j], name)
  {
    if n == 0 then -1
    else if Defines(s[n - 1], name) then n - 1
    else LatestBelow(s, n - 1, name)
  }

  /** The last entry below `n` that `p` itself made for `name`, -1 when there is none. */
  ghost function OwnBelow(s: seq<Entry>, n: nat, p: int, name: string): (k: int)
    requires n <= |s|
    ensures -1 <= k < n && (k >= 0 ==> s[k].proc == p && Defines(s[k], name))
    ensures forall j | k < j < n :: !(s[j].proc == p && Defines(s[j], name))
  {
    if n == 0 then -1
    else if s[n - 1].proc == p && Defines(s[n - 1], name) then n - 1
    else OwnBelow(s, n - 1, p, name)
  }

  /** The entry whose value a lookup of `name` for `p` gives, -1 when it gives none. */
  ghost function Answer(s: seq<Entry>, p: int, name: string): (k: int)
    ensures -1 <= k < Horizon(s, p)
  {
    LatestBelow(s, Horizon(s, p), name)
  }

  ghost predicate Named(s: seq<Entry>, n: nat, name: string)
    requires n <= |s|
  {
    exists j | 0 <= j < n :: s[j].name == name
  }

  /**
    A stressor that has given `name` a value reads its own latest one if and only if no other
    stressor's entry stands between its first entry and that one.
   */
  lemma OwnLatestWins(s: seq<Entry>, p: int, name: string)
    requires OwnBelow(s, |s|, p, name) >= 0
    ensures Answer(s, p, name) == OwnBelow(s, |s|, p, name)
       <==> forall j | FirstOwned(s, p) <= j <= OwnBelow(s, |s|, p, name) :: s[j].proc == p
  {
    var i, h, own := FirstOwned(s, p), Horizon(s, p), OwnBelow(s, |s|, p, name);
    assert i <= own;
    assert forall j | i <= j < h :: s[j].proc == p;
    if forall j | i <= j <= own :: s[j].proc == p {
      assert own < h;
      assert Answer(s, p, name) >= own;
    }
  }

  /**
    Three entries, made by 1, 2 and 1 again: stressor 1 would read the first, not its latest.
    The parser never makes such a history: see `ParsedOwners`.
   */
  lemma StaleValue(a: string, b: string)
    requires a != b
    ensures var s := [Entry(1, a, Some(10)), Entry(2, b, Some(20)), Entry(1, a, Some(30))];
            Answer(s, 1, a) == 0 && OwnBelow(s, |s|, 1, a) == 2
  {
    var s := [Entry(1, a, Some(10)), Entry(2, b, Some(20)), Entry(1, a, Some(30))];
    assert s[1].proc != 1;
    assert RunEnd(s, 1, 1) == 1;
    assert Horizon(s, 1) == 1;
  }

  /** With no value of its own for `name`, a stressor reads what was set before its first entry. */
  lemma EarlierEntriesAreDefaults(s: seq<Entry>, p: int, name: string)
    requires OwnBelow(s, |s|, p, name) < 0
    ensures Answer(s, p, name) == LatestBelow(s, FirstOwned(s, p), name)
  {
    var i, h, k := FirstOwned(s, p), Horizon(s, p), Answer(s, p, name);
    var d := LatestBelow(s, i, name);
    assert forall j | i <= j < h :: s[j].proc == p && !Defines(s[j], name);
  }

  lemma HorizonAppend(s: seq<Entry>, e: Entry, p: int)
    ensures FirstOwned(s, p) < |s| ==> FirstOwned(s + [e], p) == FirstOwned(s, p)
    ensures FirstOwned(s, p) == |s| ==> FirstOwned(s + [e], p) == if e.proc == p then |s| else |s| + 1
    ensures Horizon(s, p) < |s| ==> Horizon(s + [e], p) == Horizon(s, p)
    ensures Horizon(s, p) == |s| && (e.proc == p || FirstOwned(s, p) == |s|) ==> Horizon(s + [e], p) == |s| + 1
    ensures Horizon(s, p) == |s| && e.proc != p && FirstOwned(s, p) < |s| ==> Horizon(s + [e], p) == |s|
  {
    var t := s + [e];
    var i, i' := FirstOwned(s, p), FirstOwned(t, p);
    var h, h' := Horizon(s, p), Horizon(t, p);
    assert t[|s|] == e;
    assert i < |s| ==> t[i].proc == p;
    assert i' < |s| ==> s[i'].proc == p;
    assert h < |s| ==> i < h && t[h].proc != p;
    assert h' < |s| ==> i' < h' && s[h'].proc != p;
  }

  lemma LatestPrefix(s: seq<Entry>, e: Entry, n: nat, name: string)
    requires n <= |s|
    ensures LatestBelow(s + [e], n, name) == LatestBelow(s, n, name)
  {
    var k, k' := LatestBelow(s, n, name), LatestBelow(s + [e], n, name);
    assert k >= 0 ==> (s + [e])[k] == s[k];
    assert k' >= 0 ==> (s + [e])[k'] == s[k'];
  }

  /** Nobody else has set anything since the first entry of `p`. */
  ghost predicate Uninterrupted(s: seq<Entry>, p: int) {
    forall j | FirstOwned(s, p) <= j < |s| :: s[j].proc == p
  }

  /**
    Set, then get: the new value is what the stressor that set it reads back if and only if no
    other stressor has set anything since its first entry. Otherwise the set has no effect on it.
   */
  lemma SetThenGet(s: seq<Entry>, e: Entry)
    requires e.value.Some?
    ensures Answer(s + [e], e.proc, e.name) == |s| <==> Uninterrupted(s, e.proc)
    ensures !Uninterrupted(s, e.proc) ==> Answer(s + [e], e.proc, e.name) == Answer(s, e.proc, e.name)
  {
    HorizonAppend(s, e, e.proc);
    var i, h := FirstOwned(s, e.proc), Horizon(s, e.proc);
    assert forall j | i <= j < h :: s[j].proc == e.proc;
    if h < |s| {
      LatestPrefix(s, e, Horizon(s, e.proc), e.name);
    } else {
      assert Defines((s + [e])[|s|], e.name);
    }
  }

  /** What one stressor sets is never seen by another that has an entry already. */
  lemma NoLeak(s: seq<Entry>, e: Entry, p: int, name: string)
    requires e.proc != p && FirstOwned(s, p) < |s|
    ensures Answer(s + [e], p, name) == Answer(s, p, name)
  {
    HorizonAppend(s, e, p);
    LatestPrefix(s, e, Horizon(s, p), name);
  }

  /** What the option parser does to the store, `find_proc_info` giving a new record every time. */
  datatype Step =
    | Select(proc: int)                            // a stressor option: its record becomes current
    | Allocate(proc: int)                          // a record that does not become current
    | Record(name: string, value: Option<int>)     // any option that is kept as a setting

  /** `used` are the records handed out so far, and NULL, which is current at first. */
  datatype Parse = Parse(current: int, used: set<int>, history: seq<Entry>)

  const NULL: int := 0

  predicate Enabled(s: Parse, a: Step) {
    a.Record? || a.proc !in s.used
  }

  function Next(s: Parse, a: Step): Parse {
    match a
    case Select(p) => s.(current := p, used := s.used + {p})
    case Allocate(p) => s.(used := s.used + {p})
    case Record(name, value) => s.(history := s.history + [Entry(s.current, name, value)])
  }

  /** The state after the steps of `run`, if each of them was possible. */
  function Parsed(run: seq<Step>): Option<Parse> {
    if run == [] then Some(Parse(NULL, {NULL}, []))
    else
      var before := Parsed(run[..|run| - 1]);
      var a := run[|run| - 1];
      if before.Some? && Enabled(before.value, a) then Some(Next(before.value, a)) else None
  }

  ghost predicate Contiguous(s: seq<Entry>) {
    forall i, j, k | 0 <= i < j < k < |s| && s[i].proc == s[k].proc :: s[j].proc == s[i].proc
  }

  /** In every parse each owner's entries are together, and the current one's are the last. */
  lemma {:induction false} ParsedOwners(run: seq<Step>)
    requires Parsed(run).Some?
    ensures var s := Parsed(run).value;
      && Contiguous(s.history) && Uninterrupted(s.history, s.current)
      && s.current in s.used && forall e | e in s.history :: e.proc in s.used
  {
    if run != [] {
      ParsedOwners(run[..|run| - 1]);
      var before, a := Parsed(run[..|run| - 1]).value, run[|run| - 1];
      match a
      case Select(p) => Unowned(before.history, p);
      case Allocate(_) =>
      case Record(name, value) => OneMore(before.history, Entry(before.current, name, value));
    }
  }

  lemma Unowned(s: seq<Entry>, p: int)
    requires forall e | e in s :: e.proc != p
    ensures FirstOwned(s, p) == |s|
  {
    assert forall k | 0 <= k < |s| :: s[k].proc != p;
  }

  lemma OneMore(s: seq<Entry>, e: Entry)
    requires Contiguous(s) && Uninterrupted(s, e.proc)
    ensures Contiguous(s + [e]) && Uninterrupted(s + [e], e.proc)
  {
    var t := s + [e];
    HorizonAppend(s, e, e.proc);
    var f := FirstOwned(s, e.proc);
    forall i, j, k | 0 <= i < j < k < |t| && t[i].proc == t[k].proc ensures t[j].proc == t[i].proc {
      if k == |s| {
        assert f <= i;
      } else {
        assert s[i].proc == s[k].proc;
      }
    }
  }

  /** The stressor that the last stressor option of `run` made, NULL before the first. */
  ghost function Owner(run: seq<Step>): int {
    if run == [] then 0
    else
      match run[|run| - 1]
      case Select(p) => p
      case _ => Owner(run[..|run| - 1])
  }

  /** The settings of `run`, each with the stressor whose option was the last before it. */
  ghost function Recorded(run: seq<Step>): seq<Entry> {
    if run == [] then []
    else
      var init := run[..|run| - 1];
      match run[|run| - 1]
      case Record(name, value) => Recorded(init) + [Entry(Owner(init), name, value)]
      case _ => Recorded(init)
  }

  /** After every parse the current stressor and the owners of all settings are the ones the options name. */
  lemma {:induction false} ParsedIs(run: seq<Step>)
    requires Parsed(run).Some?
    ensures Parsed(run).value.current == Owner(run) && Parsed(run).value.history == Recorded(run)
  {
    if run != [] { ParsedIs(run[..|run| - 1]); }
  }

  /** The last value that `run` sets for `name` while the option of `p` is the last stressor option. */
  ghost function OwnValue(run: seq<Step>, p: int, name: string): Option<int> {
    if run == [] then None
    else
      var init, last := run[..|run| - 1], run[|run| - 1];
      if last.Record? && last.name == name && last.value.Some? && Owner(init) == p then last.value
      else OwnValue(init, p, name)
  }

  /** `run` sets something for `p`. */
  ghost predicate Owns(run: seq<Step>, p: int) {
    run != [] &&
    var init, last := run[..|run| - 1], run[|run| - 1];
    (last.Record? && Owner(init) == p) || Owns(init, p)
  }

  /** The last value that `run` sets for `name`, for whomever, before it first sets something for `p`. */
  ghost function EarlierValue(run: seq<Step>, p: int, name: string): Option<int> {
    if run == [] then None
    else
      var init, last := run[..|run| - 1], run[|run| - 1];
      if last.Record? && last.name == name && last.value.Some? && !Owns(run, p) then last.value
      else EarlierValue(init, p, name)
  }

  /** What a lookup gives, if anything. */
  ghost function Lookup(s: seq<Entry>, p: int, name: string): Option<int> {
    var k := Answer(s, p, name);
    if k < 0 then None else s[k].value
  }

  lemma OwnAppend(s: seq<Entry>, e: Entry, p: int, name: string)
    ensures OwnBelow(s + [e], |s| + 1, p, name)
         == if e.proc == p && Defines(e, name) then |s| else OwnBelow(s, |s|, p, name)
  {
    var t := s + [e];
    var k, k' := OwnBelow(s, |s|, p, name), OwnBelow(t, |s|, p, name);
    assert k >= 0 ==> t[k] == s[k];
    assert k' >= 0 ==> t[k'] == s[k'];
  }

  lemma {:induction false} OwnValueIs(run: seq<Step>, p: int, name: string)
    ensures var s := Recorded(run); var k := OwnBelow(s, |s|, p, name);
      OwnValue(run, p, name) == if k < 0 then None else s[k].value
  {
    if run != [] {
      var init, last := run[..|run| - 1], run[|run| - 1];
      OwnValueIs(init, p, name);
      if last.Record? { OwnAppend(Recorded(init), Entry(Owner(init), last.name, last.value), p, name); }
    }
  }

  lemma {:induction false} OwnsIs(run: seq<Step>, p: int)
    ensures Owns(run, p) <==> FirstOwned(Recorded(run), p) < |Recorded(run)|
  {
    if run != [] {
      var init, last := run[..|run| - 1], run[|run| - 1];
      OwnsIs(init, p);
      if last.Record? { HorizonAppend(Recorded(init), Entry(Owner(init), last.name, last.value), p); }
    }
  }

  lemma {:induction false} EarlierValueIs(run: seq<Step>, p: int, name: string)
    ensures var s := Recorded(run); var k := LatestBelow(s, FirstOwned(s, p), name);
      EarlierValue(run, p, name) == if k < 0 then None else s[k].value
  {
    if run != [] {
      var init, last := run[..|run| - 1], run[|run| - 1];
      EarlierValueIs(init, p, name);
      OwnsIs(init, p);
      OwnsIs(run, p);
      if last.Record? {
        var s, e := Recorded(init), Entry(Owner(init), last.name, last.value);
        HorizonAppend(s, e, p);
        LatestPrefix(s, e, FirstOwned(s, p), name);
      }
    }
  }

  /**
    So after every parse a stressor reads the last value set after its own option and before the
    next stressor option, or, if there is none, the last one set before its first setting, which
    is the last of all for a stressor without settings.
   */
  lemma ParsedLookup(run: seq<Step>, p: int, name: string)
    requires Parsed(run).Some?
    ensures Lookup(Parsed(run).value.history, p, name)
         == if OwnValue(run, p, name).Some? then OwnValue(run, p, name) else EarlierValue(run, p, name)
  {
    var s := Parsed(run).value.history;
    var own := OwnBelow(s, |s|, p, name);
    ParsedOwners(run);
    ParsedIs(run);
    OwnValueIs(run, p, name);
    EarlierValueIs(run, p, name);
    if own < 0 {
      EarlierEntriesAreDefaults(s, p, name);
    } else {
      OwnRunUnbroken(s, p, own);
      OwnLatestWins(s, p, name);
    }
  }

  lemma OwnRunUnbroken(s: seq<Entry>, p: int, own: nat)
    requires Contiguous(s) && own < |s| && s[own].proc == p
    ensures forall j | FirstOwned(s, p) <= j <= own :: s[j].proc == p
  {
    var i := FirstOwned(s, p);
    forall j | i <= j <= own ensures s[j].proc == p { assert s[i].proc == s[own].proc; }
  }

  /** Two stressors that each set the same option read each their own value. */
  lemma TwoStressors(name: string, x: int, y: int)
    ensures var run := [Select(1), Record(name, Some(x)), Select(2), Record(name, Some(y))];
      && Parsed(run).Some?
      && Lookup(Parsed(run).value.history, 1, name) == Some(x)
      && Lookup(Parsed(run).value.history, 2, name) == Some(y)
  {
    var r0: seq<Step> := [];
    var r1, r2 := [Select(1)], [Select(1), Record(name, Some(x))];
    var r3 := [Select(1), Record(name, Some(x)), Select(2)];
    var r4 := [Select(1), Record(name, Some(x)), Select(2), Record(name, Some(y))];
    assert r1[..0] == r0 && r2[..1] == r1 && r3[..2] == r2 && r4[..3] == r3;
    assert Owner(r1) == 1 && Owner(r3) == 2;
    assert Parsed(r1).Some? && Parsed(r1).value.used == {NULL, 1};
    assert Parsed(r2).Some? && Parsed(r2).value.used == {NULL, 1};
    assert Parsed(r3).Some? && Parsed(r4).Some?;
    assert OwnValue(r2, 1, name) == Some(x);
    assert OwnValue(r3, 1, name) == Some(x);
    assert OwnValue(r4, 1, name) == Some(x) && OwnValue(r4, 2, name) == Some(y);
    ParsedLookup(r4, 1, name);
    ParsedLookup(r4, 2, name);
  }

  /** A setting just parsed is read back at once by the stressor whose option was the last before it. */
  lemma ParsedSetThenGet(run: seq<Step>, name: string, value: int)
    requires Parsed(run).Some?
    ensures var t := Parsed(run + [Record(name, Some(value))]);
      t.Some? && t.value.current == Owner(run) && Lookup(t.value.history, Owner(run), name) == Some(value)
  {
    var s, a := Parsed(run).value, Record(name, Some(value));
    assert (run + [a])[..|run|] == run;
    ParsedOwners(run);
    ParsedIs(run);
    SetThenGet(s.history, Entry(s.current, name, Some(value)));
  }

  /** One turn of the lookup loop, at entry `k`: `owned` says an entry of `p` has been met. */
  lemma ScanStep(s: seq<Entry>, p: int, k: nat, name: string)
    requires k < |s| && k <= Horizon(s, p)
    ensures var owned := FirstOwned(s, p) < k || s[k].proc == p;
            if owned && s[k].proc != p then Horizon(s, p) == k
            else k + 1 <= Horizon(s, p) && (owned <==> FirstOwned(s, p) < k + 1)
    ensures Named(s, k + 1, name) <==> Named(s, k, name) || s[k].name == name
    ensures LatestBelow(s, k + 1, name) == if Defines(s[k], name) then k else LatestBelow(s, k, name)
  {
    var i, h := FirstOwned(s, p), Horizon(s, p);
    assert k < i ==> s[k].proc != p;
    assert i <= k < h ==> s[k].proc == p;
    assert s[k].name == name ==> Named(s, k + 1, name);
  }

  lemma ScanStart(s: seq<Entry>, name: string)
    ensures !Named(s, 0, name) && LatestBelow(s, 0, name) == -1
  {}

  class Store {
    var head: Node?<Entry>
    var tail: Node?<Entry>
    var current: int  // the stressor being parsed or run
    ghost var nodes: seq<Node<Entry>>
    ghost var refusals: nat  // how many allocations have failed

    ghost predicate Valid()
      reads this, nodes
    {
      && Distinct(nodes) && Chain(head, nodes)
      && tail == (if nodes == [] then null else nodes[|nodes| - 1])
    }

    ghost function Entries(): seq<Entry>
      reads this`nodes, nodes`data
    {
      DataOf(nodes)
    }

    /** `set_setting`; the process exits on both errors. */
    method Set(name: string, value: Option<int>, typed: bool) returns (r: Outcome)
      requires Valid()
      modifies this`head, this`tail, this`nodes, this`refusals, nodes`next
      ensures Valid() && (r == InvalidAddress <==> value.None?)
      ensures refusals == if r == NoResource then old(refusals) + 1 else old(refusals)
      ensures r == Stored ==> Entries() == old(Entries()) + [Entry(current, name, if typed then value else None)]
      ensures r != Stored ==> Entries() == old(Entries()) && nodes == old(nodes)
    {
      hide Distinct, Chain, DataOf;
      if value.None? { return InvalidAddress; }
      var granted: bool := *;
      if !granted {
        refusals := refusals + 1;
        return NoResource;
      }
      var setting := new Node(Entry(current, name, if typed then value else None));
      Link(setting);
      return Stored;
    }

    /** The end of `set_setting`: the new node goes to the tail. */
    method Link(setting: Node<Entry>)
      requires Valid() && setting !in nodes && setting.next == null
      modifies this`head, this`tail, this`nodes, nodes`next
      ensures Valid() && nodes == old(nodes) + [setting] && Entries() == old(Entries()) + [setting.data]
    {
      hide Distinct, Disjoint, Chain, Linked, Nexts, After;
      ghost var n0, nx := nodes, Nexts(nodes);
      ChainHead(head, n0);
      Apart(n0, setting);
      AppendDistinct(n0, setting, []);
      if tail != null {
        LinkedSnoc(head, n0, nx, setting);
        tail.next := setting;
        ChainFrom(head, n0 + [setting], nx[..|n0| - 1] + [setting, null]);
      } else {
        head := setting;
        LinkedOne(setting);
        ChainFrom(setting, [setting], [null]);
        assert n0 + [setting] == [setting];
      }
      tail := setting;
      nodes := n0 + [setting];
    }

    /** `get_setting`: `value` is what `*value` holds afterwards, `before` what it held. */
    method Get(name: string, before: int) returns (found: bool, value: int)
      requires Valid()
      ensures found <==> Named(Entries(), Horizon(Entries(), current), name)
      ensures var k := Answer(Entries(), current, name);
              value == if k < 0 then before else Entries()[k].value.value
    {
      hide Chain, Distinct, At, DataOf, FirstOwned, Horizon, Named, LatestBelow;
      ghost var s := Entries();
      ScanStart(s, name);
      var owned := false;
      found, value := false, before;
      var setting := head;
      ghost var k := 0;
      ChainAt(head, nodes, 0);
      while setting != null
        invariant 0 <= k <= |nodes| && setting == At(nodes, k)
        invariant owned <==> FirstOwned(s, current) < k
        invariant k <= Horizon(s, current)
        invariant found <==> Named(s, k, name)
        invariant var l := LatestBelow(s, k, name); value == if l < 0 then before else s[l].value.value
        decreases |nodes| - k
      {
        ChainAt(head, nodes, k);
        assert setting.data == s[k];
        ScanStep(s, current, k, name);
        if setting.data.proc == current { owned := true; }
        if owned && setting.data.proc != current { break; }
        if setting.data.name == name {
          found := true;
          if setting.data.value.Some? { value := setting.data.value.value; }
        }
        setting := setting.next;
        k := k + 1;
      }
      ChainAt(head, nodes, k);
      assert k == Horizon(s, current);
    }

    /** `free_settings`: each node is released once and not touched after its release. */
    method Free() returns (ghost trace: seq<Access<Entry>>)
      requires Valid()
      modifies this`head, this`tail, this`nodes
      ensures Valid() && Entries() == [] && Releases(trace) == old(nodes) && Orderly(trace)
    {
      hide At, Distinct, Chain, Nexts, Releases, Orderly;
      EmptyChain<Entry>();
      EmptyTrace<Entry>();
      trace := [];
      var setting := head;
      ghost var k := 0;
      ChainAt(head, nodes, 0);
      while setting != null
        invariant 0 <= k <= |nodes| && Releases(trace) == nodes[..k] && Orderly(trace) && setting == At(nodes, k)
        modifies {}
        decreases |nodes| - k
      {
        ChainAt(head, nodes, k);
        assert nodes == nodes + [];
        NotYet(nodes, [], k);
        ReadAndRelease(trace, setting);
        var next := setting.next;
        trace := trace + [Read(setting), Release(setting)];
        setting := next;
        k := k + 1;
      }
      ChainAt(head, nodes, k);
      assert nodes[..k] == nodes;
      head, tail, nodes := null, null, [];
    }
  }
}

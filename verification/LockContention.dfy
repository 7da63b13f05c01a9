/** The lock/unlock contention loop of the lockf stressor, on its list of held locks. */
module LockContention {
  import opened Basics
  import opened Chains
  import opened RecyclingList

  const LOCK_FILE_SIZE := 64 * 1024
  const LOCK_SIZE := 8
  const LOCK_MAX := 1024

  /** The lock file: where it is positioned, and what has been locked and unlocked, in order. */
  class File {
    var position: int
    ghost var locked: seq<int>
    ghost var unlocked: seq<int>
    ghost var refusals: nat  // how many locks have been refused
    ghost var failures: nat  // how many other calls have failed

    /** `lseek` */
    method Seek(offset: int) returns (ok: bool)
      modifies this`position, this`failures
      ensures ok ==> position == offset && failures == old(failures)
      ensures !ok ==> position == old(position) && failures == old(failures) + 1
    {
      ok := *;
      if ok { position := offset; } else { failures := failures + 1; }
    }

    /** `lockf` with `F_LOCK` or `F_TLOCK`, at the position. */
    method Lock() returns (ok: bool)
      modifies this`locked, this`refusals
      ensures locked == if ok then old(locked) + [position] else old(locked)
      ensures refusals == if ok then old(refusals) else old(refusals) + 1
    {
      ok := *;
      if ok { locked := locked + [position]; } else { refusals := refusals + 1; }
    }

    /** `lockf` with `F_ULOCK`, at the position. */
    method Unlock() returns (ok: bool)
      modifies this`unlocked, this`failures
      ensures unlocked == if ok then old(unlocked) + [position] else old(unlocked)
      ensures failures == if ok then old(failures) else old(failures) + 1
    {
      ok := *;
      if ok { unlocked := unlocked + [position]; } else { failures := failures + 1; }
    }
  }

  /**
    `stress_lockf_unlock`: takes the oldest record off the list, if there is one and `lseek`
    works, and undoes its lock. `out` is the record taken off.
   */
  method Unlock(list: List, file: File) returns (ok: bool, ghost out: seq<int>)
    requires list.Valid()
    modifies list, list.Nodes(), file
    ensures list.Valid() && list.peak == old(list.peak) && list.Nodes() == old(list.Nodes())
    ensures old(list.Contents()) == out + list.Contents() && |out| <= 1 && file.locked == old(file.locked)
    ensures list.length == old(list.length) - |out|
    ensures ok ==> file.unlocked == old(file.unlocked) + out && file.failures == old(file.failures)
    ensures ok ==> |out| == if old(list.head) == null then 0 else 1
    ensures !ok ==> file.unlocked == old(file.unlocked) && file.failures == old(file.failures) + 1
    ensures list.refusals == old(list.refusals) && file.refusals == old(file.refusals)
  {
    hide Chain, Distinct, Disjoint, DataOf, List.Contents, List.Valid;
    Lengths(list);
    out := [];
    assert list.Contents() == [] + list.Contents();
    if list.head == null { return true, []; }
    HeadRecord(list);
    ghost var held := list.Contents();
    ok := file.Seek(list.head.data);
    if !ok { return; }
    out := [list.head.data];
    list.RemoveHead();
    Lengths(list);
    assert held == out + list.Contents();
    ok := file.Unlock();
  }

  /** A new record for the lock just taken at `offset`. */
  method Record(list: List, offset: int) returns (ok: bool)
    requires list.Valid()
    modifies list, list.Nodes()
    ensures list.Valid() && list.peak == Max(old(list.peak), list.length)
    ensures list.length == if ok then old(list.length) + 1 else old(list.length)
    ensures list.Contents() == if ok then old(list.Contents()) + [offset] else old(list.Contents())
    ensures list.refusals == if ok then old(list.refusals) else old(list.refusals) + 1
    ensures fresh(list.Nodes() - old(list.Nodes()))
  {
    hide Chain, Disjoint, DataOf;
    var info := list.Append();
    if info == null { return false; }
    info.data := offset;
    ok := true;
  }

  /** What is left of `held` when room has been made for one more. */
  ghost function Room(held: seq<int>): seq<int> {
    if |held| >= 1024 then held[1..] else held
  }

  /** `held` without its oldest record. */
  ghost function Rest(held: seq<int>): seq<int> {
    if held == [] then [] else held[1..]
  }

  /** A full list gives up its oldest lock. */
  method MakeRoom(list: List, file: File) returns (ok: bool, ghost out: seq<int>)
    requires list.Valid() && list.peak <= LOCK_MAX
    modifies list, list.Nodes(), file
    ensures list.Valid() && list.peak == old(list.peak) && list.Nodes() == old(list.Nodes())
    ensures old(list.Contents()) == out + list.Contents() && file.locked == old(file.locked)
    ensures ok ==> list.Contents() == Room(old(list.Contents())) && list.length < LOCK_MAX
    ensures ok ==> file.unlocked == old(file.unlocked) + out && file.failures == old(file.failures)
    ensures list.refusals == old(list.refusals) && file.refusals == old(file.refusals)
    ensures !ok ==> file.failures > old(file.failures)
  {
    hide Chain, Distinct, Disjoint, DataOf, List.Contents, List.Valid;
    ok, out := true, [];
    Bounds(list);
    Lengths(list);
    ghost var held := list.Contents();
    assert held == [] + held;
    if list.length >= LOCK_MAX {
      ok, out := Unlock(list, file);
      Lengths(list);
      assert ok ==> list.Contents() == held[1..];
    }
  }

  /** `offset` is locked and recorded, or, if the lock is refused, the oldest one is undone. */
  method LockOne(list: List, file: File, offset: int) returns (ok: bool, ghost locked: seq<int>, ghost out: seq<int>)
    requires list.Valid() && list.peak <= LOCK_MAX && list.length < LOCK_MAX
    modifies list, list.Nodes(), file
    ensures list.Valid() && list.peak <= LOCK_MAX && fresh(list.Nodes() - old(list.Nodes()))
    ensures old(list.Contents()) + locked == out + list.Contents() && (locked == [] || locked == [offset])
    ensures ok ==> file.locked == old(file.locked) + locked && file.unlocked == old(file.unlocked) + out
    ensures ok ==> file.refusals == old(file.refusals) + 1 - |locked|
    ensures ok && locked != [] ==> list.Contents() == old(list.Contents()) + [offset]
    ensures ok && locked == [] ==> list.Contents() == Rest(old(list.Contents()))
    ensures list.refusals >= old(list.refusals) && file.failures >= old(file.failures)
    ensures ok <==> list.refusals == old(list.refusals) && file.failures == old(file.failures)
  {
    hide Chain, Distinct, Disjoint, DataOf, List.Contents, List.Valid;
    locked, out := [], [];
    Bounds(list);
    Lengths(list);
    ghost var held := list.Contents();
    Nothing(held);
    ok := file.Seek(offset);
    if !ok { return; }
    ok := file.Lock();
    if ok {
      ok := Record(list, offset);
      if ok {
        locked := [offset];
        Nothing(list.Contents());
      }
    } else {
      ok, out := Unlock(list, file);
    }
  }

  lemma Nothing(s: seq<int>)
    ensures s + [] == s && [] + s == s
  {}

  /**
    One round: the oldest lock is undone if the list is full; then `offset` is locked and
    recorded last, or, if that is refused, one more lock is undone. On any other failure the
    loop ends. What the file has locked and unlocked is what has been recorded and taken off.
   */
  method Attempt(list: List, file: File, offset: int) returns (ok: bool, ghost locked: seq<int>, ghost out: seq<int>)
    requires list.Valid() && list.peak <= LOCK_MAX
    modifies list, list.Nodes(), file
    ensures list.Valid() && list.peak <= LOCK_MAX && fresh(list.Nodes() - old(list.Nodes()))
    ensures old(list.Contents()) + locked == out + list.Contents() && (locked == [] || locked == [offset])
    ensures ok ==> file.locked == old(file.locked) + locked && file.unlocked == old(file.unlocked) + out
    ensures ok ==> file.refusals == old(file.refusals) + 1 - |locked|
    ensures ok && locked != [] ==> list.Contents() == Room(old(list.Contents())) + [offset]
    ensures ok && locked == [] ==> list.Contents() == Rest(Room(old(list.Contents())))
    ensures list.refusals >= old(list.refusals) && file.failures >= old(file.failures)
    ensures ok <==> list.refusals == old(list.refusals) && file.failures == old(file.failures)
  {
    hide Chain, Distinct, Disjoint, DataOf, List.Contents, List.Valid, Room, Rest;
    locked := [];
    ghost var held, undone := list.Contents(), file.unlocked;
    ok, out := MakeRoom(list, file);
    Nothing(held);
    if !ok { return; }
    ghost var more, room := [], list.Contents();
    ok, locked, more := LockOne(list, file, offset);
    Carried(held, [], out, room, locked, more, list.Contents());
    Nothing(locked);
    Regroup(undone, out, more);
    out := out + more;
  }

  lemma Regroup(a: seq<int>, b: seq<int>, c: seq<int>)
    ensures a + b + c == a + (b + c)
  {}

  lemma HeadRecord(list: List)
    requires list.Valid() && list.head != null
    ensures list.live != [] && list.Contents() == [list.head.data] + list.Contents()[1..]
  {
    hide Distinct, Disjoint;
    ChainHead(list.head, list.live);
  }

  lemma Lengths(list: List)
    requires list.Valid()
    ensures |list.Contents()| == list.length && (list.head == null <==> list.Contents() == [])
  {}

  /**
    `stress_lockf_contention` for a run of `rounds` rounds, any call failing at will. At most
    `LOCK_MAX` locks are on record at any time, so at most `LOCK_MAX` nodes are ever allocated;
    the locks undone are the oldest ones, in the order they were taken. A run that is not cut
    short has locked once in every round but those in which the lock was refused, and what the
    file has locked and not unlocked is what is on record.
   */
  method Contention(list: List, file: File, rounds: nat)
    returns (ok: bool, ghost locked: seq<int>, ghost unlocked: seq<int>)
    requires list.Valid() && list.peak <= LOCK_MAX
    modifies list, list.Nodes(), file
    ensures list.Valid() && list.length <= list.peak <= 1024
    ensures old(list.Contents()) + locked == unlocked + list.Contents()
    ensures forall o | o in locked :: 0 <= o < 65528
    ensures ok ==> file.locked == old(file.locked) + locked && file.unlocked == old(file.unlocked) + unlocked
    ensures ok ==> |locked| + file.refusals - old(file.refusals) == rounds
    ensures ok && file.refusals == old(file.refusals) ==>
      |locked| == rounds && list.length == if old(list.length) + rounds <= 1024 then old(list.length) + rounds else 1024
    ensures ok <==> list.refusals == old(list.refusals) && file.failures == old(file.failures)
    ensures fresh(list.Nodes() - old(list.Nodes()))
  {
    hide Chain, Distinct, Disjoint, DataOf, List.Contents, List.Valid, Room, Rest;
    locked, unlocked := [], [];
    ok := true;
    var left := rounds;
    Bounds(list);
    Lengths(list);
    assert old(list.Contents()) + [] == [] + list.Contents();
    while left > 0
      invariant ok && 0 <= left <= rounds && list.Valid() && list.length <= list.peak <= LOCK_MAX
      invariant old(list.Contents()) + locked == unlocked + list.Contents()
      invariant forall o | o in locked :: 0 <= o < LOCK_FILE_SIZE - LOCK_SIZE
      invariant file.locked == old(file.locked) + locked && file.unlocked == old(file.unlocked) + unlocked
      invariant |locked| + file.refusals - old(file.refusals) == rounds - left && file.refusals >= old(file.refusals)
      invariant file.refusals == old(file.refusals) ==>
        list.length == if old(list.length) + rounds - left <= 1024 then old(list.length) + rounds - left else 1024
      invariant list.refusals == old(list.refusals) && file.failures == old(file.failures)
      invariant fresh(list.Nodes() - old(list.Nodes()))
    {
      left := left - 1;
      var draw: nat := *;
      var offset := draw % (LOCK_FILE_SIZE - LOCK_SIZE);
      ghost var more, out;
      ghost var held := list.Contents();
      Lengths(list);
      ok, more, out := Attempt(list, file, offset);
      Bounds(list);
      Lengths(list);
      Carried(old(list.Contents()), locked, unlocked, held, more, out, list.Contents());
      RoomLength(held, offset);
      locked, unlocked := locked + more, unlocked + out;
      if !ok { return; }
    }
  }

  lemma RoomLength(held: seq<int>, offset: int)
    requires |held| <= 1024
    ensures |Room(held) + [offset]| == if |held| < 1024 then |held| + 1 else 1024
  {}

  lemma Carried(before: seq<int>, locked: seq<int>, unlocked: seq<int>, held: seq<int>,
                more: seq<int>, out: seq<int>, now: seq<int>)
    requires before + locked == unlocked + held && held + more == out + now
    ensures before + (locked + more) == unlocked + out + now
  {
    assert before + (locked + more) == before + locked + more == unlocked + (held + more);
  }
}

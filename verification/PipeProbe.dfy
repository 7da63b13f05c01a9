/** Finding the largest pipe size: the value the system publishes, else a binary chop. */
module PipeProbe {
  import opened Bits
  import opened Basics

  const INT_MAX: nat := 0x7fff_ffff

  /** The kernel as a prober sees it: a size limit and a table of open descriptors. */
  class Kernel {
    const limit: nat
    const maxOpen: nat
    var open: nat

    constructor (limit: nat, maxOpen: nat)
      ensures this.limit == limit && this.maxOpen == maxOpen && open == 0
    {
      this.limit, this.maxOpen, open := limit, maxOpen, 0;
    }

    /** The descriptors that can still be opened. */
    function Free(): nat
      reads this
    {
      if open <= maxOpen then maxOpen - open else 0
    }

    /**
      `stress_check_max_pipe_size`: opens a pipe and sizes it. A pipe whose sizing is refused
      is never closed.
     */
    method Check(sz: nat, pageSize: nat) returns (ok: bool)
      modifies this
      ensures ok <==> pageSize <= sz <= limit && old(Free()) >= 2
      ensures open == if pageSize <= sz && limit < sz && old(Free()) >= 2 then old(open) + 2 else old(open)
    {
      if sz < pageSize { return false; }
      if open + 2 > maxOpen { return false; }
      open := open + 2;
      if sz > limit { return false; }
      open := open - 2;
      return true;
    }
  }

  /** The largest size a chop from `pageSize` can report: a size the kernel allows, if any is. */
  function Largest(limit: nat, pageSize: nat): nat {
    if limit < pageSize then pageSize else if limit < INT_MAX then limit else INT_MAX - 1
  }

  /** What that is: no allowed size below `INT_MAX` is larger. */
  lemma LargestIs(limit: nat, pageSize: nat, sz: nat)
    requires pageSize < 0x7fff_ffff
    ensures pageSize <= Largest(limit, pageSize) < 0x7fff_ffff
    ensures pageSize <= limit ==> Largest(limit, pageSize) <= limit
    ensures pageSize <= sz < 0x7fff_ffff && sz <= limit ==> sz <= Largest(limit, pageSize)
    ensures limit < pageSize ==> Largest(limit, pageSize) == pageSize
  {}

  /** What the chop finds in `min..max` with `free` descriptors to spend. */
  function Chopped(limit: nat, min: nat, max: nat, free: nat): (r: nat)
    requires min <= max
    ensures min <= r && (min < r ==> r <= limit) && (min < max ==> r < max)
    decreases max - min
  {
    if max - min <= 1 then min
    else
      var sz := min + (max - min) / 2;
      if sz <= limit && free >= 2 then Chopped(limit, sz, max, free)
      else Chopped(limit, min, sz, if free >= 2 then free - 2 else free)
  }

  /**
    The descriptors the chop needs to go right in `min..max`: two to open a pipe at a size that
    is allowed, and two more for every refused size before the last of those.
   */
  function Need(limit: nat, min: nat, max: nat): (n: nat)
    requires min <= max
    ensures n == 0 || n >= 2
    decreases max - min
  {
    if max - min <= 1 then 0
    else
      var sz := min + (max - min) / 2;
      if sz <= limit then Max(2, Need(limit, sz, max))
      else
        var n := Need(limit, min, sz);
        if n == 0 then 0 else n + 2
  }

  /** The largest allowed size in `min..max`, `min` if there is none. */
  function LargestIn(limit: nat, min: nat, max: nat): nat
    requires min < max
  {
    if limit <= min then min else if limit < max then limit else max - 1
  }

  /** The chop finds the largest allowed size if and only if it has the descriptors it needs. */
  lemma {:induction false} ChoppedIff(limit: nat, min: nat, max: nat, free: nat)
    requires min < max
    ensures Chopped(limit, min, max, free) == LargestIn(limit, min, max) <==> Need(limit, min, max) <= free
    decreases max - min
  {
    if max - min > 1 {
      var sz := min + (max - min) / 2;
      if sz <= limit && free >= 2 {
        ChoppedIff(limit, sz, max, free);
      } else if sz > limit {
        ChoppedIff(limit, min, sz, if free >= 2 then free - 2 else free);
      }
    }
  }

  lemma {:induction false} NeedBound(limit: nat, min: nat, max: nat, k: nat)
    requires min <= max && max - min <= Pow2(k)
    ensures Need(limit, min, max) <= 2 * k
    decreases k
  {
    if max - min > 1 {
      assert k > 0 && Pow2(k) == 2 * Pow2(k - 1);
      var sz := min + (max - min) / 2;
      if sz <= limit { NeedBound(limit, sz, max, k - 1); } else { NeedBound(limit, min, sz, k - 1); }
    }
  }

  lemma {:induction false} NeedSome(limit: nat, min: nat, max: nat)
    requires min < limit && max - min > 1
    ensures Need(limit, min, max) >= 2
    decreases max - min
  {
    var sz := min + (max - min) / 2;
    if sz > limit { NeedSome(limit, min, sz); }
  }

  /** Sixty-two descriptors are always enough. */
  lemma AlwaysEnough(limit: nat, pageSize: nat)
    requires pageSize < INT_MAX
    ensures Need(limit, pageSize, INT_MAX) <= 62
  {
    hide Pow2, Need;
    WordSize();
    Pow2Step(31);
    NeedBound(limit, pageSize, INT_MAX, 31);
  }

  /** Three are not, for a limit of a megabyte: the first refusal leaves too few to go on. */
  lemma Starved()
    ensures Chopped(0x10_0000, 4096, INT_MAX, 3) != Largest(0x10_0000, 4096)
  {
    var limit, min: nat := 0x10_0000, 4096;
    ChoppedIff(limit, min, INT_MAX, 3);
    var sz := min + (INT_MAX - min) / 2;
    assert sz > limit;
    NeedSome(limit, min, sz);
  }

  lemma ChopStep(limit: nat, min: nat, max: nat, sz: nat, free: nat)
    requires min <= max && sz == min + (max - min) / 2
    ensures sz <= limit && free >= 2 ==> Chopped(limit, sz, max, free) == Chopped(limit, min, max, free)
    ensures !(sz <= limit && free >= 2) ==>
              Chopped(limit, min, sz, if free >= 2 then free - 2 else free) == Chopped(limit, min, max, free)
  {}

  /** A window at most `2^(31-i)` wide; from turn 32 on its lower end has been tried. */
  ghost predicate Shrunk(i: nat, min: nat, max: nat, prevSz: nat) {
    && i <= 32 && min <= max
    && max - min <= Pow2(if i < 31 then 31 - i else 0)
    && (i > 0 ==> prevSz == min || prevSz == max)
    && (i == 32 ==> prevSz == min)
  }

  lemma ShrunkAtFirst(pageSize: nat)
    requires pageSize < INT_MAX
    ensures Shrunk(0, pageSize, INT_MAX, 0)
  {
    hide Pow2;
    WordSize();
    Pow2Step(31);
  }

  lemma Shrinks(i: nat, min: nat, max: nat, prevSz: nat, sz: nat)
    requires Shrunk(i, min, max, prevSz) && sz == min + (max - min) / 2 && (i == 0 ==> prevSz < min)
    ensures prevSz == sz ==> sz == min && max - min <= 1
    ensures prevSz != sz ==> Shrunk(i + 1, sz, max, sz) && Shrunk(i + 1, min, sz, sz)
  {
    assert Pow2(0) == 1;
    if i < 31 { assert Pow2(31 - i) == 2 * Pow2(30 - i); }
  }

  lemma ChopEnd(limit: nat, min: nat, max: nat, free: nat)
    requires min <= max <= min + 1
    ensures Chopped(limit, min, max, free) == min
  {}

  /** The descriptors a published size above the limit costs before the chop starts. */
  function Spent(free: nat, limit: nat, pageSize: nat, published: Option<nat>): nat {
    if published.Some? && pageSize <= published.value && limit < published.value && free >= 2 then 2 else 0
  }

  class Prober {
    var maxPipeSize: nat  // zero until it is known

    constructor ()
      ensures maxPipeSize == 0
    {
      maxPipeSize := 0;
    }

    /**
      The binary chop. It returns in the 33rd turn of its 64-turn loop at the latest. What it
      reports above the page size is always an allowed size; it is the largest one below
      `INT_MAX` if and only if the descriptors it needs are free, each refused size costing two
      for good.
     */
    static method Chop(kernel: Kernel, pageSize: nat) returns (sz: nat, ghost turns: nat)
      requires 0 < pageSize < INT_MAX
      modifies kernel
      ensures pageSize <= sz < INT_MAX && (pageSize < sz ==> sz <= kernel.limit)
      ensures sz == Largest(kernel.limit, pageSize) <==> Need(kernel.limit, pageSize, INT_MAX) <= old(kernel.Free())
      ensures turns <= 33 && old(kernel.open) <= kernel.open <= old(kernel.open) + 2 * (turns - 1)
    {
      hide Pow2, Chopped, Need;
      ShrunkAtFirst(pageSize);
      ChoppedIff(kernel.limit, pageSize, INT_MAX, kernel.Free());
      var min, max, prevSz := pageSize, INT_MAX, 0;
      var i := 0;
      while true
        invariant Shrunk(i, min, max, prevSz) && pageSize <= min && (i == 0 ==> prevSz < min)
        invariant Chopped(kernel.limit, min, max, kernel.Free())
               == Chopped(kernel.limit, pageSize, INT_MAX, old(kernel.Free()))
        invariant old(kernel.open) <= kernel.open <= old(kernel.open) + 2 * i
        decreases 64 - i
      {
        assert i < 64;
        sz := min + (max - min) / 2;
        Shrinks(i, min, max, prevSz, sz);
        if prevSz == sz {
          ChopEnd(kernel.limit, min, max, kernel.Free());
          turns := i + 1;
          return;
        }
        prevSz := sz;
        ChopStep(kernel.limit, min, max, sz, kernel.Free());
        var ok := kernel.Check(sz, pageSize);
        if ok { min := sz; } else { max := sz; }
        i := i + 1;
      }
    }

    /**
      `stress_probe_max_pipe_size`, with `published` the size the system reports, if it does. A
      published size that works is remembered; one found by probing is not, so every call
      probes again and can lose descriptors again.
     */
    method Probe(kernel: Kernel, pageSize: nat, published: Option<nat>) returns (sz: nat)
      requires 0 < pageSize < INT_MAX
      modifies this, kernel
      ensures old(maxPipeSize) != 0 ==> sz == maxPipeSize == old(maxPipeSize) && kernel.open == old(kernel.open)
      ensures old(maxPipeSize) == 0 ==> pageSize <= sz && (pageSize < sz ==> sz <= kernel.limit)
      ensures old(maxPipeSize) == 0 ==>
                if published.Some? && pageSize <= published.value <= kernel.limit && old(kernel.Free()) >= 2
                then sz == maxPipeSize == published.value && kernel.open == old(kernel.open)
                else
                  && maxPipeSize == 0
                  && (sz == Largest(kernel.limit, pageSize) <==>
                      Need(kernel.limit, pageSize, INT_MAX)
                        + Spent(old(kernel.Free()), kernel.limit, pageSize, published) <= old(kernel.Free()))
      ensures old(kernel.open) <= kernel.open <= old(kernel.open) + 66
    {
      hide Need;
      if maxPipeSize != 0 { return maxPipeSize; }
      if published.Some? {
        var ok := kernel.Check(published.value, pageSize);
        if ok {
          maxPipeSize := published.value;
          return maxPipeSize;
        }
      }
      ghost var turns;
      sz, turns := Chop(kernel, pageSize);
    }
  }
}

/**
  The page loops of the mmap stressor: unmap all pages in random order, map them back in random
  order, unmap what is left. `mapped[]` is the program's record, the kernel's table the truth.
 */
module MmapPages {
  import opened Basics
  import opened Bits
  import opened Stride

  const PAGE_MAPPED: nat := 1
  const PAGE_MAPPED_FAIL: nat := 2

  /** Where a loop stands: done, told to stop, or out of the passes this run lasts. */
  datatype Outcome = Finished | Stopped | Running

  /** A call the program makes, and whether it succeeds. */
  datatype Call = Unmap(page: nat, ok: bool) | UnmapAll(ok: bool) | Map(page: nat, ok: bool)

  /** The kernel's table for the region; any of these calls may fail. */
  class Kernel {
    var pages: set<nat>
    ghost var stuck: set<nat>  // the pages an `munmap` has failed to unmap and that are still mapped so
    ghost var failures: nat    // how many `munmap` calls have failed
    ghost var calls: seq<Call>

    method Munmap(page: nat) returns (ok: bool)
      modifies this
      ensures pages == if ok then old(pages) - {page} else old(pages)
      ensures stuck == if ok then old(stuck) - {page} else old(stuck) + {page}
      ensures failures == if ok then old(failures) else old(failures) + 1
      ensures calls == old(calls) + [Unmap(page, ok)]
    {
      ok := *;
      if ok {
        pages, stuck := pages - {page}, stuck - {page};
      } else {
        stuck, failures := stuck + {page}, failures + 1;
      }
      calls := calls + [Unmap(page, ok)];
    }

    /** `munmap` of the whole region. */
    method MunmapAll() returns (ok: bool)
      modifies this
      ensures ok ==> pages == {} && stuck == {} && failures == old(failures)
      ensures !ok ==> pages == old(pages) && stuck == old(stuck) && failures == old(failures) + 1
      ensures calls == old(calls) + [UnmapAll(ok)]
    {
      ok := *;
      if ok { pages, stuck := {}, {}; } else { failures := failures + 1; }
      calls := calls + [UnmapAll(ok)];
    }

    /** `mmap` of one page at its old address, replacing what is there; a failure may remove that too. */
    method Mmap(page: nat) returns (ok: bool)
      modifies this`pages, this`stuck, this`calls
      ensures ok ==> pages == old(pages) + {page} && stuck == old(stuck) - {page}
      ensures !ok ==> || (pages == old(pages) && stuck == old(stuck))
                      || (pages == old(pages) - {page} && stuck == old(stuck) - {page})
      ensures calls == old(calls) + [Map(page, ok)]
    {
      ok := *;
      var gone: bool := *;
      if ok {
        pages, stuck := pages + {page}, stuck - {page};
      } else if gone {
        pages, stuck := pages - {page}, stuck - {page};
      }
      calls := calls + [Map(page, ok)];
    }
  }

  /** The pages the program asks to have unmapped, one by one, in order. */
  ghost function Unmaps(calls: seq<Call>): seq<nat> {
    if calls == [] then []
    else
      var last := calls[|calls| - 1];
      Unmaps(calls[..|calls| - 1]) + if last.Unmap? then [last.page] else []
  }

  /** The pages it asks to have mapped. */
  ghost function Maps(calls: seq<Call>): seq<nat> {
    if calls == [] then []
    else
      var last := calls[|calls| - 1];
      Maps(calls[..|calls| - 1]) + if last.Map? then [last.page] else []
  }

  /** The pages it has asked to have mapped with success. */
  ghost function MapsDone(calls: seq<Call>): set<nat> {
    set c | c in calls && c.Map? && c.ok :: c.page
  }

  lemma OneCall(calls: seq<Call>, c: Call)
    ensures Unmaps(calls + [c]) == Unmaps(calls) + if c.Unmap? then [c.page] else []
    ensures Maps(calls + [c]) == Maps(calls) + if c.Map? then [c.page] else []
    ensures MapsDone(calls + [c]) == MapsDone(calls) + if c.Map? && c.ok then {c.page} else {}
  {
    assert (calls + [c])[..|calls|] == calls;
    MoreDone(calls, [c]);
    assert MapsDone([c]) == if c.Map? && c.ok then {c.page} else {} by { assert [c][0] == c; }
  }

  lemma MoreDone(a: seq<Call>, b: seq<Call>)
    ensures MapsDone(a + b) == MapsDone(a) + MapsDone(b)
  {
    forall p | p in MapsDone(a) ensures p in MapsDone(a + b) {
      var d :| d in a && d.Map? && d.ok && d.page == p;
      assert d in a + b;
    }
    forall p | p in MapsDone(b) ensures p in MapsDone(a + b) {
      var d :| d in b && d.Map? && d.ok && d.page == p;
      assert d in a + b;
    }
  }

  lemma {:induction false} CallsAppend(a: seq<Call>, b: seq<Call>)
    ensures Unmaps(a + b) == Unmaps(a) + Unmaps(b) && Maps(a + b) == Maps(a) + Maps(b)
    ensures MapsDone(a + b) == MapsDone(a) + MapsDone(b)
    decreases |b|
  {
    hide MapsDone;
    MoreDone(a, b);
    if b == [] {
      assert a + b == a;
    } else {
      var init, c := b[..|b| - 1], b[|b| - 1];
      CallsAppend(a, init);
      assert a + b == a + init + [c] && b == init + [c];
      OneCall(a + init, c);
      OneCall(init, c);
    }
  }

  /** Between two moments the calls `made` were made, and which pages they name. */
  ghost predicate Logged(before: seq<Call>, now: seq<Call>, made: seq<Call>, unmaps: seq<nat>, maps: seq<nat>) {
    now == before + made && Unmaps(made) == unmaps && Maps(made) == maps
  }

  lemma LoggedJoin(a: seq<Call>, b: seq<Call>, c: seq<Call>, m: seq<Call>, m': seq<Call>,
                   u: seq<nat>, u': seq<nat>, p: seq<nat>, p': seq<nat>)
    requires Logged(a, b, m, u, p) && Logged(b, c, m', u', p')
    ensures Logged(a, c, m + m', u + u', p + p')
    ensures u' == [] ==> u + u' == u
    ensures p' == [] ==> p + p' == p
    ensures p == [] ==> p + p' == p'
    ensures MapsDone(m) == {} ==> MapsDone(m + m') == MapsDone(m')
    ensures MapsDone(m') == {} ==> MapsDone(m + m') == MapsDone(m)
  {
    hide MapsDone;
    CallsAppend(m, m');
  }

  lemma LoggedAll(a: seq<Call>, b: seq<Call>, ok: bool)
    requires b == a + [UnmapAll(ok)]
    ensures Logged(a, b, [UnmapAll(ok)], [], []) && MapsDone([UnmapAll(ok)]) == {}
  {
    NoCalls();
    OneCall([], UnmapAll(ok));
    assert [] + [UnmapAll(ok)] == [UnmapAll(ok)];
  }

  lemma NoCalls()
    ensures Unmaps([]) == [] && Maps([]) == [] && MapsDone([]) == {}
  {}

  /** The pages whose flag is `v`. */
  ghost function Flagged(s: seq<nat>, v: nat): set<nat> {
    set p | 0 <= p < |s| && s[p] == v
  }

  ghost predicate UpTo(flags: seq<nat>, v: nat) {
    forall p | 0 <= p < |flags| :: flags[p] <= v
  }

  lemma FlagChanged(s: seq<nat>, p: nat, v: nat)
    requires p < |s| && s[p] != v
    ensures Flagged(s[p := v], v) == Flagged(s, v) + {p} && Flagged(s[p := v], s[p]) == Flagged(s, s[p]) - {p}
    ensures forall u | u != v && u != s[p] :: Flagged(s[p := v], u) == Flagged(s, u)
  {}

  /** Page `j` of the cyclic walk from `i`. */
  function At(i: nat, j: nat, pages: nat): nat
    requires pages > 0
  {
    (i + j) % pages
  }

  /** The first `n` pages of the walk from `i`. */
  ghost function Window(i: nat, n: nat, pages: nat): set<nat>
    requires pages > 0
  {
    if n == 0 then {} else Window(i, n - 1, pages) + {At(i, n - 1, pages)}
  }

  lemma {:induction false} InWindow(i: nat, n: nat, pages: nat, p: nat) returns (j: nat)
    requires pages > 0 && p in Window(i, n, pages)
    ensures j < n && At(i, j, pages) == p
  {
    hide At;
    if p == At(i, n - 1, pages) { j := n - 1; } else { j := InWindow(i, n - 1, pages, p); }
  }

  lemma AtDistinct(i: nat, j: nat, m: nat, pages: nat)
    requires j < m < pages
    ensures At(i, j, pages) != At(i, m, pages) && At(i, m, pages) < pages
  {
    if At(i, j, pages) == At(i, m, pages) {
      SameResidue(pages, i + m, i + j);
      ModUnique(m - j, pages, 0, m - j);
    }
  }

  lemma AtStart(i: nat, pages: nat)
    requires i < pages
    ensures At(i, 0, pages) == i
  {}

  lemma AtBelow(i: nat, j: nat, pages: nat)
    requires pages > 0
    ensures At(i, j, pages) < pages
  {}

  lemma {:induction false} WindowSize(i: nat, n: nat, pages: nat)
    requires 0 < pages && n <= pages
    ensures |Window(i, n, pages)| == n && Window(i, n, pages) <= Below(pages)
  {
    hide At, Below;
    if n > 0 {
      WindowSize(i, n - 1, pages);
      var p := At(i, n - 1, pages);
      AtBelow(i, n - 1, pages);
      if p in Window(i, n - 1, pages) {
        var j := InWindow(i, n - 1, pages, p);
        AtDistinct(i, j, n - 1, pages);
      }
    }
  }

  /** Pigeonhole: a window and a set of pages that together exceed the page count meet. */
  lemma WindowMeets(i: nat, n: nat, pages: nat, m: set<nat>) returns (j: nat)
    requires 0 < pages && n <= pages && m <= Below(pages) && |m| + n > pages
    ensures j < n && At(i, j, pages) in m
  {
    hide At, Below, Window;
    WindowSize(i, n, pages);
    var w := Window(i, n, pages);
    if w !! m {
      assert |w + m| == n + |m|;
      Smaller(w + m, Below(pages));
      assert false;
    } else {
      var p :| p in w && p in m;
      j := InWindow(i, n, pages, p);
    }
  }

  /** A pass that draws page `i` meets one of the pages `m` among the `n` it looks at. */
  ghost predicate Finds(i: nat, n: nat, pages: nat, m: set<nat>)
    requires pages > 0
  {
    exists j: nat :: j < n && At(i, j, pages) in m
  }

  /** With at most half of the pages left, the pages just after the window are all missed. */
  lemma PassMisses(n: nat, pages: nat)
    requires 0 < n && 2 * n <= pages
    ensures var m := Window(n, n, pages); m <= Below(pages) && |m| == n && !Finds(0, n, pages, m)
  {
    hide Window;
    WindowSize(n, n, pages);
    var m := Window(n, n, pages);
    forall j: nat | j < n ensures At(0, j, pages) !in m {
      if At(0, j, pages) in m {
        var k := InWindow(n, n, pages, At(0, j, pages));
        AtAfter(n, j, k, pages);
      }
    }
  }

  lemma NoWrap(i: nat, j: nat, pages: nat)
    requires i + j < pages
    ensures At(i, j, pages) == i + j
  {
    ModUnique(i + j, pages, 0, i + j);
  }

  lemma AtAfter(n: nat, j: nat, k: nat, pages: nat)
    requires j < n && k < n && 2 * n <= pages
    ensures At(0, j, pages) != At(n, k, pages)
  {
    hide At;
    NoWrap(0, j, pages);
    NoWrap(n, k, pages);
  }

  /**
    A pass over `n` pages left finds one whatever they are and whatever it draws if and only if
    they are more than half of all pages.
   */
  lemma AlwaysFinds(n: nat, pages: nat)
    requires 0 < n <= pages
    ensures (forall i: nat, m: set<nat> | m <= Below(pages) && |m| == n :: Finds(i, n, pages, m)) <==> 2 * n > pages
  {
    hide Window, At;
    if 2 * n > pages {
      forall i: nat, m: set<nat> | m <= Below(pages) && |m| == n ensures Finds(i, n, pages, m) {
        var j := WindowMeets(i, n, pages, m);
      }
    } else {
      PassMisses(n, pages);
    }
  }

  /** As long as a page is left, some draw finds it, so the loop can always get on. */
  lemma SomeDrawFinds(n: nat, pages: nat, m: set<nat>) returns (i: nat)
    requires 0 < n && m <= Below(pages) && |m| == n
    ensures i < pages && Finds(i, n, pages, m)
  {
    hide At;
    i :| i in m;
    NoWrap(i, 0, pages);
  }

  lemma Smaller(a: set<nat>, b: set<nat>)
    requires a <= b
    ensures |a| <= |b|
  {
    assert b == a + (b - a);
  }

  ghost function Listed(log: seq<nat>): set<nat> {
    set p | p in log
  }

  lemma LogMore(log: seq<nat>, p: nat)
    requires Distinct(log) && p !in Listed(log)
    ensures Distinct(log + [p]) && Listed(log + [p]) == Listed(log) + {p}
  {}

  /** The pages mapped are those the program has flagged so and those an `munmap` left behind. */
  ghost predicate Agrees(pages: set<nat>, stuck: set<nat>, flagged: set<nat>) {
    pages == flagged + stuck && stuck !! flagged
  }

  lemma Unmapped(pages: set<nat>, stuck: set<nat>, flagged: set<nat>, p: nat)
    requires Agrees(pages, stuck, flagged) && p in flagged
    ensures Agrees(pages - {p}, stuck - {p}, flagged - {p}) && Agrees(pages, stuck + {p}, flagged - {p})
    ensures stuck - {p} <= stuck
  {}

  lemma Mapped(pages: set<nat>, stuck: set<nat>, flagged: set<nat>, p: nat)
    requires Agrees(pages, stuck, flagged) && p !in flagged
    ensures Agrees(pages + {p}, stuck - {p}, flagged + {p}) && Agrees(pages - {p}, stuck - {p}, flagged)
  {}

  /** The program's record agrees with the kernel, and `n` pages still carry the flag `todo`. */
  ghost predicate InStep(kernel: Kernel, flags: seq<nat>, todo: nat, n: nat, log: seq<nat>)
    reads kernel
  {
    Agrees(kernel.pages, kernel.stuck, Flagged(flags, PAGE_MAPPED)) && Remaining(flags, todo, n, log)
  }

  /** `n` pages still carry the flag `todo`, and the others are in the log, each once. */
  ghost predicate Remaining(flags: seq<nat>, todo: nat, n: nat, log: seq<nat>) {
    && n == |Flagged(flags, todo)|
    && Distinct(log) && Listed(log) == Below(|flags|) - Flagged(flags, todo)
  }

  lemma StepTaken(flags: seq<nat>, p: nat, v: nat, todo: nat, n: nat, log: seq<nat>)
    requires p < |flags| && flags[p] == todo != v && Remaining(flags, todo, n, log)
    ensures n > 0 && Remaining(flags[p := v], todo, n - 1, log + [p])
    ensures Flagged(flags[p := v], v) == Flagged(flags, v) + {p} && p in Flagged(flags, todo)
    ensures Flagged(flags[p := v], todo) == Flagged(flags, todo) - {p}
    ensures forall u | u != v && u != todo :: Flagged(flags[p := v], u) == Flagged(flags, u)
  {
    hide Below;
    FlagChanged(flags, p, v);
    assert p in Flagged(flags, todo);
    LogMore(log, p);
  }

  lemma Left(flags: seq<nat>, todo: nat, n: nat, log: seq<nat>)
    requires Remaining(flags, todo, n, log)
    ensures n == |Flagged(flags, todo)| && Distinct(log)
  {}

  /** `page` is the first of the `n` pages from `i` on that is flagged `todo`. */
  ghost predicate FirstFound(i: nat, n: nat, flags: seq<nat>, todo: nat, page: nat) {
    && page < |flags| && flags[page] == todo
    && exists j: nat :: j < n && At(i, j, |flags|) == page && NoneBefore(i, j, flags, todo)
  }

  ghost predicate NoneBefore(i: nat, j: nat, flags: seq<nat>, todo: nat)
    requires |flags| > 0
  {
    forall m: nat | m < j :: At(i, m, |flags|) < |flags| && flags[At(i, m, |flags|)] != todo
  }

  /**
    The search of one pass: from a random page on, the first of `n` pages flagged `todo`. At every
    miss it looks whether to stop.
   */
  method Search(mapped: array<nat>, n: nat, todo: nat, flag: Flag)
    returns (found: bool, page: nat, stopped: bool, ghost i: nat)
    requires mapped.Length > 0 && n == |Flagged(mapped[..], todo)|
    modifies flag
    ensures (stopped ==> !flag.go) && (flag.go ==> old(flag.go))
    ensures i < mapped.Length && (found ==> FirstFound(i, n, mapped[..], todo, page) && !stopped)
    ensures !stopped ==> (found <==> Finds(i, n, mapped.Length, Flagged(mapped[..], todo)))
    ensures 2 * n > mapped.Length && !stopped ==> found
    ensures !old(flag.go) && n > 0 ==> if mapped[i] == todo then found && page == i else stopped
  {
    hide Flagged, At, Finds;
    found, page, stopped := false, 0, false;
    ghost var flags, pages := mapped[..], mapped.Length;
    var draw: nat := *;
    var first, j := draw % mapped.Length, 0;
    i := first;
    AtStart(i, pages);
    while j < n
      invariant 0 <= j <= n && !found && !stopped && i == first < pages && mapped[..] == flags
      invariant (flag.go ==> old(flag.go)) && (!old(flag.go) ==> j == 0)
      invariant forall m: nat | m < j :: At(i, m, pages) < pages && flags[At(i, m, pages)] != todo
    {
      page := At(first, j, mapped.Length);
      AtBelow(i, j, mapped.Length);
      if mapped[page] == todo {
        FlaggedIff(flags, page, todo);
        Found(flags, i, j, n, todo);
        found := true;
        return;
      }
      var go := flag.Read();
      if !go { return false, page, true, i; }
      j := j + 1;
    }
    NoneFound(flags, i, n, todo);
    if 2 * n > pages { Meets(flags, i, n, todo); }
  }

  /**
    One pass of step 1: unmap a page still mapped, if the search finds one. The page counts as
    unmapped whether or not `munmap` succeeds.
   */
  method UnmapPass(kernel: Kernel, mapped: array<nat>, n: nat, flag: Flag, ghost log: seq<nat>)
    returns (n': nat, stopped: bool, ghost log': seq<nat>, ghost i: nat)
    requires mapped.Length > 0 && InStep(kernel, mapped[..], PAGE_MAPPED, n, log)
    requires UpTo(mapped[..], PAGE_MAPPED)
    modifies kernel, mapped, flag
    ensures (stopped ==> !flag.go) && (flag.go ==> old(flag.go))
    ensures InStep(kernel, mapped[..], PAGE_MAPPED, n', log')
    ensures UpTo(mapped[..], PAGE_MAPPED)
    ensures n' <= n <= n' + 1 && (2 * n > mapped.Length && !stopped ==> n' == n - 1)
    ensures i < mapped.Length
    ensures !stopped ==> (n' == n - 1 <==> Finds(i, n, mapped.Length, Flagged(old(mapped[..]), PAGE_MAPPED)))
    ensures n' == n ==> log' == log && kernel.calls == old(kernel.calls) && mapped[..] == old(mapped[..])
    ensures n' < n ==> |log'| == |log| + 1 && |kernel.calls| == |old(kernel.calls)| + 1
    ensures n' < n ==> var page, call := log'[|log|], kernel.calls[|old(kernel.calls)|];
      && FirstFound(i, n, old(mapped[..]), PAGE_MAPPED, page) && log' == log + [page]
      && call == Unmap(page, call.ok) && kernel.calls == old(kernel.calls) + [call]
      && mapped[..] == old(mapped[..])[page := 0]
    ensures kernel.failures >= old(kernel.failures)
    ensures kernel.failures == old(kernel.failures) ==> kernel.stuck <= old(kernel.stuck)
  {
    hide Remaining, Flagged, Agrees, Finds;
    n', log' := n, log;
    ghost var flags := mapped[..];
    Left(flags, PAGE_MAPPED, n, log);
    var found, page;
    found, page, stopped, i := Search(mapped, n, PAGE_MAPPED, flag);
    if found {
      StepTaken(flags, page, 0, PAGE_MAPPED, n, log);
      Unmapped(kernel.pages, kernel.stuck, Flagged(flags, PAGE_MAPPED), page);
      mapped[page] := 0;
      assert mapped[..] == flags[page := 0];
      var ok := kernel.Munmap(page);
      n', log' := n - 1, log + [page];
    }
  }

  lemma Bounded(flags: seq<nat>, v: nat)
    ensures |Flagged(flags, v)| <= |flags| && Flagged(flags, v) <= Below(|flags|)
  {
    Smaller(Flagged(flags, v), Below(|flags|));
  }

  lemma FlaggedIff(flags: seq<nat>, p: nat, v: nat)
    requires p < |flags|
    ensures p in Flagged(flags, v) <==> flags[p] == v
  {}

  lemma Found(flags: seq<nat>, i: nat, j: nat, n: nat, v: nat)
    requires |flags| > 0 && j < n && At(i, j, |flags|) in Flagged(flags, v)
    ensures Finds(i, n, |flags|, Flagged(flags, v))
  {
    hide At;
  }

  lemma Meets(flags: seq<nat>, i: nat, n: nat, v: nat)
    requires |flags| > 0 && n == |Flagged(flags, v)| && 2 * n > |flags|
    ensures Finds(i, n, |flags|, Flagged(flags, v))
  {
    hide At, Flagged;
    Bounded(flags, v);
    var j := WindowMeets(i, n, |flags|, Flagged(flags, v));
  }

  lemma NoneFound(flags: seq<nat>, i: nat, n: nat, v: nat)
    requires |flags| > 0
    requires forall m: nat | m < n :: At(i, m, |flags|) < |flags| && flags[At(i, m, |flags|)] != v
    ensures !Finds(i, n, |flags|, Flagged(flags, v))
  {
    hide At;
  }

  /** One pass of step 2: map a page not yet tried back in, or note the failure. */
  method RemapPass(kernel: Kernel, mapped: array<nat>, n: nat, flag: Flag, ghost log: seq<nat>)
    returns (n': nat, stopped: bool, ghost log': seq<nat>, ghost i: nat)
    requires mapped.Length > 0 && InStep(kernel, mapped[..], 0, n, log)
    requires UpTo(mapped[..], PAGE_MAPPED_FAIL)
    modifies kernel, mapped, flag
    ensures (stopped ==> !flag.go) && (flag.go ==> old(flag.go))
    ensures InStep(kernel, mapped[..], 0, n', log')
    ensures UpTo(mapped[..], PAGE_MAPPED_FAIL)
    ensures n' <= n <= n' + 1 && (2 * n > mapped.Length && !stopped ==> n' == n - 1)
    ensures i < mapped.Length
    ensures !stopped ==> (n' == n - 1 <==> Finds(i, n, mapped.Length, Flagged(old(mapped[..]), 0)))
    ensures n' == n ==> log' == log && kernel.calls == old(kernel.calls) && mapped[..] == old(mapped[..])
    ensures n' < n ==> |log'| == |log| + 1 && |kernel.calls| == |old(kernel.calls)| + 1
    ensures n' < n ==> var page, call := log'[|log|], kernel.calls[|old(kernel.calls)|];
      && FirstFound(i, n, old(mapped[..]), 0, page) && log' == log + [page]
      && call == Map(page, call.ok) && kernel.calls == old(kernel.calls) + [call]
      && mapped[..] == old(mapped[..])[page := if call.ok then PAGE_MAPPED else PAGE_MAPPED_FAIL]
    ensures kernel.failures == old(kernel.failures) && kernel.stuck <= old(kernel.stuck)
  {
    hide Remaining, Flagged, Agrees, Finds;
    n', log' := n, log;
    ghost var flags := mapped[..];
    Left(flags, 0, n, log);
    var found, page;
    found, page, stopped, i := Search(mapped, n, 0, flag);
    if found {
      FlaggedIff(flags, page, PAGE_MAPPED);
      Mapped(kernel.pages, kernel.stuck, Flagged(flags, PAGE_MAPPED), page);
      var ok := kernel.Mmap(page);
      if ok {
        StepTaken(flags, page, PAGE_MAPPED, 0, n, log);
        mapped[page] := PAGE_MAPPED;
        assert mapped[..] == flags[page := PAGE_MAPPED];
      } else {
        StepTaken(flags, page, PAGE_MAPPED_FAIL, 0, n, log);
        mapped[page] := PAGE_MAPPED_FAIL;
        assert mapped[..] == flags[page := PAGE_MAPPED_FAIL];
      }
      n', log' := n - 1, log + [page];
    }
  }

  /** The pages from `n` on that the record calls mapped. */
  ghost function Ahead(flags: seq<nat>, n: nat): set<nat> {
    set p | n <= p < |flags| && flags[p] == PAGE_MAPPED
  }

  /** The log of a clean-up that has come to page `n`. */
  ghost predicate Cleaned(flags: seq<nat>, n: nat, log: seq<nat>) {
    Distinct(log) && Listed(log) == Flagged(flags, PAGE_MAPPED) - Ahead(flags, n)
  }

  lemma OneAhead(flags: seq<nat>, n: nat, log: seq<nat>)
    requires n < |flags| && Cleaned(flags, n, log)
    ensures flags[n] == PAGE_MAPPED ==> n in Ahead(flags, n) && Ahead(flags, n + 1) == Ahead(flags, n) - {n}
    ensures flags[n] == PAGE_MAPPED ==> Cleaned(flags, n + 1, log + [n])
    ensures flags[n] != PAGE_MAPPED ==> Ahead(flags, n + 1) == Ahead(flags, n) && Cleaned(flags, n + 1, log)
  {
    if flags[n] == PAGE_MAPPED { LogMore(log, n); }
  }

  lemma AheadEnds(flags: seq<nat>, log: seq<nat>)
    ensures Ahead(flags, 0) == Flagged(flags, PAGE_MAPPED) && Cleaned(flags, 0, [])
    ensures Ahead(flags, |flags|) == {}
    ensures Cleaned(flags, |flags|, log) ==> Distinct(log) && Listed(log) == Flagged(flags, PAGE_MAPPED)
  {}

  /**
    Step 3: unmap every page the record calls mapped, each with one call; what is left are the
    pages that would not go.
   */
  method CleanUp(kernel: Kernel, mapped: array<nat>) returns (ghost made: seq<Call>)
    requires Agrees(kernel.pages, kernel.stuck, Flagged(mapped[..], PAGE_MAPPED))
    requires UpTo(mapped[..], PAGE_MAPPED_FAIL)
    modifies kernel
    ensures kernel.pages == kernel.stuck && kernel.failures >= old(kernel.failures)
    ensures kernel.failures == old(kernel.failures) ==> kernel.stuck <= old(kernel.stuck)
    ensures Logged(old(kernel.calls), kernel.calls, made, Unmaps(made), []) && MapsDone(made) == {}
    ensures Distinct(Unmaps(made)) && Listed(Unmaps(made)) == Flagged(mapped[..], PAGE_MAPPED)
  {
    NoCalls();
    hide Unmaps, Maps, MapsDone, Flagged, Listed, Distinct, Ahead, Cleaned;
    made := [];
    ghost var flags := mapped[..];
    AheadEnds(flags, []);
    var n := 0;
    while n < mapped.Length
      invariant 0 <= n <= mapped.Length && mapped[..] == flags
      invariant Agrees(kernel.pages, kernel.stuck, Ahead(flags, n)) && Cleaned(flags, n, Unmaps(made))
      invariant kernel.failures >= old(kernel.failures)
      invariant kernel.failures == old(kernel.failures) ==> kernel.stuck <= old(kernel.stuck)
      invariant kernel.calls == old(kernel.calls) + made && Maps(made) == [] && MapsDone(made) == {}
    {
      OneAhead(flags, n, Unmaps(made));
      if mapped[n] % 2 == 1 {
        Unmapped(kernel.pages, kernel.stuck, Ahead(flags, n), n);
        var ok := kernel.Munmap(n);
        OneCall(made, Unmap(n, ok));
        made := made + [Unmap(n, ok)];
      }
      n := n + 1;
    }
    AheadEnds(flags, Unmaps(made));
  }

  lemma AllDone(kernel: Kernel, flags: seq<nat>, todo: nat, log: seq<nat>)
    requires InStep(kernel, flags, todo, 0, log)
    ensures Flagged(flags, todo) == {} && Listed(log) == Below(|flags|)
    ensures todo == PAGE_MAPPED ==> kernel.pages == kernel.stuck
  {}

  lemma AllMapped(kernel: Kernel, flags: seq<nat>)
    requires forall p | 0 <= p < |flags| :: flags[p] == PAGE_MAPPED
    requires kernel.pages == Below(|flags|) && kernel.stuck == {}
    ensures InStep(kernel, flags, PAGE_MAPPED, |flags|, [])
  {
    assert Flagged(flags, PAGE_MAPPED) == Below(|flags|);
  }

  lemma NoneMapped(kernel: Kernel, flags: seq<nat>)
    requires Flagged(flags, PAGE_MAPPED) == {} && UpTo(flags, PAGE_MAPPED)
    requires kernel.pages == kernel.stuck
    ensures InStep(kernel, flags, 0, |flags|, [])
  {
    forall p | 0 <= p < |flags| ensures flags[p] == 0 { assert p !in Flagged(flags, PAGE_MAPPED); }
    assert Flagged(flags, 0) == Below(|flags|);
  }

  /** After `taken` passes over `all` pages: each has found one as long as more than half were left. */
  ghost predicate Progress(all: nat, n: nat, done: nat, taken: nat) {
    done + n == all && (taken <= done || 2 * n <= all)
  }

  /** Step 1: passes until no page is left, the program is told to stop, or `passes` are over. */
  method UnmapPages(kernel: Kernel, mapped: array<nat>, flag: Flag, passes: nat)
    returns (n: nat, stopped: bool, ghost log: seq<nat>, ghost made: seq<Call>)
    requires mapped.Length > 0 && InStep(kernel, mapped[..], PAGE_MAPPED, mapped.Length, [])
    requires UpTo(mapped[..], PAGE_MAPPED)
    modifies kernel, mapped, flag
    ensures (stopped ==> !flag.go) && (flag.go ==> old(flag.go))
    ensures InStep(kernel, mapped[..], PAGE_MAPPED, n, log)
    ensures UpTo(mapped[..], PAGE_MAPPED)
    ensures kernel.failures >= old(kernel.failures)
    ensures kernel.failures == old(kernel.failures) ==> kernel.stuck <= old(kernel.stuck)
    ensures Logged(old(kernel.calls), kernel.calls, made, log, []) && MapsDone(made) == {}
    ensures !stopped && n > 0 ==> Progress(mapped.Length, n, |log|, passes)
  {
    NoCalls();
    hide Flagged, Remaining, Agrees, Unmaps, Maps, MapsDone, FirstFound, Finds;
    n, stopped, log, made := mapped.Length, false, [], [];
    var left := passes;
    ghost var draw;
    while n > 0 && left > 0 && !stopped
      invariant InStep(kernel, mapped[..], PAGE_MAPPED, n, log)
      invariant UpTo(mapped[..], PAGE_MAPPED)
      invariant kernel.failures >= old(kernel.failures)
      invariant kernel.failures == old(kernel.failures) ==> kernel.stuck <= old(kernel.stuck)
      invariant kernel.calls == old(kernel.calls) + made
      invariant Unmaps(made) == log && Maps(made) == [] && MapsDone(made) == {}
      invariant (stopped ==> !flag.go) && (flag.go ==> old(flag.go))
      invariant left <= passes && (!stopped ==> Progress(mapped.Length, n, |log|, passes - left))
    {
      left := left - 1;
      ghost var before, n0 := kernel.calls, n;
      n, stopped, log, draw := UnmapPass(kernel, mapped, n, flag, log);
      if n < n0 {
        ghost var call := kernel.calls[|before|];
        OneCall(made, call);
        made := made + [call];
      }
    }
  }

  /** Step 2: likewise; the pages then flagged as mapped are those whose call succeeded. */
  method RemapPages(kernel: Kernel, mapped: array<nat>, flag: Flag, passes: nat)
    returns (n: nat, stopped: bool, ghost log: seq<nat>, ghost made: seq<Call>)
    requires mapped.Length > 0 && InStep(kernel, mapped[..], 0, mapped.Length, [])
    requires UpTo(mapped[..], PAGE_MAPPED_FAIL)
    requires Flagged(mapped[..], PAGE_MAPPED) == {}
    modifies kernel, mapped, flag
    ensures (stopped ==> !flag.go) && (flag.go ==> old(flag.go))
    ensures InStep(kernel, mapped[..], 0, n, log)
    ensures UpTo(mapped[..], PAGE_MAPPED_FAIL)
    ensures kernel.failures == old(kernel.failures) && kernel.stuck <= old(kernel.stuck)
    ensures Logged(old(kernel.calls), kernel.calls, made, [], log)
    ensures Flagged(mapped[..], PAGE_MAPPED) == MapsDone(made)
    ensures !stopped && n > 0 ==> Progress(mapped.Length, n, |log|, passes)
  {
    NoCalls();
    hide Flagged, Remaining, Agrees, Unmaps, Maps, MapsDone, FirstFound, Finds;
    n, stopped, log, made := mapped.Length, false, [], [];
    var left := passes;
    ghost var draw;
    while n > 0 && left > 0 && !stopped
      invariant InStep(kernel, mapped[..], 0, n, log)
      invariant UpTo(mapped[..], PAGE_MAPPED_FAIL)
      invariant kernel.failures == old(kernel.failures) && kernel.stuck <= old(kernel.stuck)
      invariant kernel.calls == old(kernel.calls) + made && Maps(made) == log && Unmaps(made) == []
      invariant Flagged(mapped[..], PAGE_MAPPED) == MapsDone(made)
      invariant (stopped ==> !flag.go) && (flag.go ==> old(flag.go))
      invariant left <= passes && (!stopped ==> Progress(mapped.Length, n, |log|, passes - left))
    {
      left := left - 1;
      ghost var before, n0, flags, log0 := kernel.calls, n, mapped[..], log;
      n, stopped, log, draw := RemapPass(kernel, mapped, n, flag, log);
      if n < n0 {
        ghost var call := kernel.calls[|before|];
        OneCall(made, call);
        made := made + [call];
        NewFlag(flags, call.page, if call.ok then PAGE_MAPPED else PAGE_MAPPED_FAIL, draw, n0);
      }
    }
  }

  lemma NewFlag(flags: seq<nat>, p: nat, v: nat, i: nat, n: nat)
    requires FirstFound(i, n, flags, 0, p) && v in {PAGE_MAPPED, PAGE_MAPPED_FAIL}
    ensures p < |flags|
    ensures Flagged(flags[p := v], PAGE_MAPPED)
         == Flagged(flags, PAGE_MAPPED) + if v == PAGE_MAPPED then {p} else {}
  {
    FlagChanged(flags, p, v);
  }

  /** The unmapping of the whole region, and step 2. */
  method MapBack(kernel: Kernel, mapped: array<nat>, flag: Flag, passes: nat)
    returns (n: nat, stopped: bool, ghost log: seq<nat>, ghost made: seq<Call>)
    requires mapped.Length > 0 && kernel.pages == kernel.stuck
    requires Flagged(mapped[..], PAGE_MAPPED) == {} && UpTo(mapped[..], PAGE_MAPPED)
    modifies kernel, mapped, flag
    ensures (stopped ==> !flag.go) && (flag.go ==> old(flag.go))
    ensures InStep(kernel, mapped[..], 0, n, log)
    ensures UpTo(mapped[..], PAGE_MAPPED_FAIL)
    ensures kernel.failures >= old(kernel.failures) && kernel.stuck <= old(kernel.stuck)
    ensures Logged(old(kernel.calls), kernel.calls, made, [], log)
    ensures Flagged(mapped[..], PAGE_MAPPED) == MapsDone(made)
    ensures !stopped && n > 0 ==> Progress(mapped.Length, n, |log|, passes)
  {
    hide Flagged, MapsDone, InStep, Progress, UpTo, Logged;
    ghost var flags := mapped[..];
    Higher(flags);
    var ok := kernel.MunmapAll();
    assert mapped[..] == flags;
    NoneMapped(kernel, flags);
    ghost var k, rest := kernel.calls, [];
    LoggedAll(old(kernel.calls), k, ok);
    n, stopped, log, rest := RemapPages(kernel, mapped, flag, passes);
    LoggedJoin(old(kernel.calls), k, kernel.calls, [UnmapAll(ok)], rest, [], [], [], log);
    made := [UnmapAll(ok)] + rest;
  }

  /** Steps 1 and 2, with the unmapping of the whole region between them. */
  method Loops(kernel: Kernel, mapped: array<nat>, flag: Flag, passes: nat)
    returns (outcome: Outcome, ghost unmaps: seq<nat>, ghost remaps: seq<nat>, ghost made: seq<Call>)
    requires mapped.Length > 0 && InStep(kernel, mapped[..], PAGE_MAPPED, mapped.Length, []) && kernel.stuck == {}
    requires UpTo(mapped[..], PAGE_MAPPED)
    modifies kernel, mapped, flag
    ensures (outcome == Stopped ==> !flag.go) && (flag.go ==> old(flag.go))
    ensures Agrees(kernel.pages, kernel.stuck, Flagged(mapped[..], PAGE_MAPPED)) && UpTo(mapped[..], PAGE_MAPPED_FAIL)
    ensures kernel.failures >= old(kernel.failures) && (kernel.failures == old(kernel.failures) ==> kernel.stuck == {})
    ensures Logged(old(kernel.calls), kernel.calls, made, unmaps, remaps)
    ensures Distinct(unmaps) && Distinct(remaps) && |remaps| <= |unmaps| <= mapped.Length
    ensures outcome == Finished ==> Listed(unmaps) == Listed(remaps) == Below(mapped.Length)
    ensures outcome == Finished ==> Flagged(mapped[..], PAGE_MAPPED) == MapsDone(made)
    ensures outcome == Running ==> Advanced(mapped.Length, unmaps, remaps, passes)
  {
    assert Distinct<nat>([]);
    hide Flagged, Distinct, Listed, MapsDone, InStep, Agrees, Progress, Advanced, Below, UpTo, Logged;
    var n, stopped;
    n, stopped, unmaps, made := UnmapPages(kernel, mapped, flag, passes);
    remaps := [];
    LogLength(kernel, mapped[..], PAGE_MAPPED, n, unmaps);
    Higher(mapped[..]);
    if stopped || n > 0 {
      if !stopped { FirstLoop(mapped.Length, n, unmaps, passes); }
      outcome := if stopped then Stopped else Running;
      return;
    }
    AllDone(kernel, mapped[..], PAGE_MAPPED, unmaps);
    ghost var k, more := kernel.calls, [];
    n, stopped, remaps, more := MapBack(kernel, mapped, flag, passes);
    LoggedJoin(old(kernel.calls), k, kernel.calls, made, more, unmaps, [], [], remaps);
    made := made + more;
    LogLength(kernel, mapped[..], 0, n, remaps);
    if !stopped {
      if n == 0 { AllDone(kernel, mapped[..], 0, remaps); }
      else { SecondLoop(mapped.Length, n, unmaps, remaps, passes); }
    }
    outcome := if stopped then Stopped else if n > 0 then Running else Finished;
  }

  lemma Padded(s: seq<nat>)
    ensures s + [] == s
  {}

  lemma Higher(flags: seq<nat>)
    ensures UpTo(flags, PAGE_MAPPED) ==> UpTo(flags, PAGE_MAPPED_FAIL)
  {}

  /** How far a round has come that neither finished nor was stopped within `passes` passes of a loop. */
  ghost predicate Advanced(all: nat, unmaps: seq<nat>, remaps: seq<nat>, passes: nat) {
    var done := if |unmaps| < all then |unmaps| else |remaps|;
    done <= all && Progress(all, all - done, done, passes)
  }

  lemma FirstLoop(all: nat, n: nat, unmaps: seq<nat>, passes: nat)
    requires n > 0 && Progress(all, n, |unmaps|, passes)
    ensures Advanced(all, unmaps, [], passes)
  {}

  lemma SecondLoop(all: nat, n: nat, unmaps: seq<nat>, remaps: seq<nat>, passes: nat)
    requires |unmaps| == all && Progress(all, n, |remaps|, passes)
    ensures Advanced(all, unmaps, remaps, passes)
  {}

  /**
    One round of `stress_mmap_child` from the mapping of the whole region. No page is unmapped or
    mapped back twice, and the calls are one for each page handled. Every way out of the loops
    leaves exactly those pages mapped that an `munmap` failed on, so none if no call failed. A
    finished round has handled every page in both loops, and has unmapped those that it had
    mapped back with success; one still running has at least made the progress that is certain.
   */
  method Round(kernel: Kernel, pages4k: nat, flag: Flag, passes: nat)
    returns (outcome: Outcome, ghost unmaps: seq<nat>, ghost remaps: seq<nat>, ghost cleaned: seq<nat>,
             ghost made: seq<Call>)
    requires pages4k > 0 && kernel.pages == Below(pages4k) && kernel.stuck == {}
    modifies kernel, flag
    ensures (outcome == Stopped ==> !flag.go) && (flag.go ==> old(flag.go))
    ensures Distinct(unmaps) && Distinct(remaps) && |remaps| <= |unmaps| <= pages4k
    ensures outcome != Running ==> kernel.pages == kernel.stuck
    ensures outcome != Running && kernel.failures == old(kernel.failures) ==> kernel.pages == {}
    ensures Logged(old(kernel.calls), kernel.calls, made, unmaps + cleaned, remaps)
    ensures outcome == Finished ==> Listed(unmaps) == Listed(remaps) == Below(pages4k)
    ensures outcome == Finished ==> Distinct(cleaned) && Listed(cleaned) == MapsDone(made)
    ensures outcome == Running ==> cleaned == [] && Advanced(pages4k, unmaps, remaps, passes)
  {
    var mapped := new nat[pages4k](_ => PAGE_MAPPED);
    AllMapped(kernel, mapped[..]);
    assert UpTo(mapped[..], PAGE_MAPPED);
    hide Flagged, Distinct, Listed, Unmaps, MapsDone, InStep, Agrees, Advanced, Below, UpTo, Logged;
    outcome, unmaps, remaps, made := Loops(kernel, mapped, flag, passes);
    cleaned := [];
    Padded(unmaps);
    if outcome != Running {
      ghost var k := kernel.calls;
      ghost var last := CleanUp(kernel, mapped);
      cleaned := Unmaps(last);
      LoggedJoin(old(kernel.calls), k, kernel.calls, made, last, unmaps, cleaned, remaps, []);
      made := made + last;
    }
  }

  lemma LogLength(kernel: Kernel, flags: seq<nat>, todo: nat, n: nat, log: seq<nat>)
    requires InStep(kernel, flags, todo, n, log)
    ensures Agrees(kernel.pages, kernel.stuck, Flagged(flags, PAGE_MAPPED))
    ensures Distinct(log) && |log| + n == |flags| && n == |Flagged(flags, todo)|
  {
    Bounded(flags, todo);
    DistinctSize(log);
    assert Below(|flags|) == Listed(log) + Flagged(flags, todo);
  }

  lemma {:induction false} DistinctSize(log: seq<nat>)
    requires Distinct(log)
    ensures |Listed(log)| == |log|
  {
    if log != [] {
      var init, x := log[..|log| - 1], log[|log| - 1];
      DistinctSize(init);
      assert log == init + [x];
      LogMore(init, x);
    }
  }
}

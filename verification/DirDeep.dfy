/**
  Building and tearing down the deep directory tree. One character buffer holds the path;
  the recursion writes into it and must leave each caller's prefix as it found it. The file
  system is a map from absolute paths to kinds. Every call that can fail while the tree is
  built fails at will; while it is torn down a call succeeds whenever the kernel's rule allows.
 */
module DirDeep {
  import opened Basics

  datatype Kind = Dir | NonDir

  const NUL: char := '\0'

  predicate Digit(c: char) {
    '0' <= c <= '9'
  }

  /** `q` lies strictly below the directory `p`. */
  predicate Under(p: string, q: string) {
    |p| < |q| && p <= q && q[|p|] == '/'
  }

  /** `q` is an entry of the directory `p`. */
  predicate Child(p: string, q: string) {
    Under(p, q) && |p| + 1 < |q| && '/' !in q[|p| + 1..]
  }

  function Entry(p: string, c: char): string {
    p + ['/', c]
  }

  class FileSystem {
    var nodes: map<string, Kind>
    ghost var refusals: nat  // how many calls have failed
    ghost var mkdirs: nat    // how many directories have been made

    /** `mkdir`, `symlink` and `link`: they may fail for any reason, and do on an existing name. */
    method Create(p: string, kind: Kind) returns (ok: bool)
      modifies this
      ensures ok ==> p !in old(nodes)
      ensures nodes == if ok then old(nodes)[p := kind] else old(nodes)
      ensures refusals == if ok then old(refusals) else old(refusals) + 1
      ensures mkdirs == if ok && kind == Dir then old(mkdirs) + 1 else old(mkdirs)
    {
      ok := *;
      ok := ok && p !in nodes;
      if ok { nodes := nodes[p := kind]; } else { refusals := refusals + 1; }
      if ok && kind == Dir { mkdirs := mkdirs + 1; }
    }

    /** `creat`: opens or creates a file, never a directory. */
    method Creat(p: string) returns (ok: bool)
      modifies this`nodes, this`refusals
      ensures ok ==> p !in old(nodes) || old(nodes)[p] == NonDir
      ensures nodes == if ok then old(nodes)[p := NonDir] else old(nodes)
      ensures refusals == if ok then old(refusals) else old(refusals) + 1
    {
      ok := *;
      ok := ok && (p in nodes ==> nodes[p] == NonDir);
      if ok { nodes := nodes[p := NonDir]; } else { refusals := refusals + 1; }
    }

    method Unlink(p: string)
      modifies this`nodes
      ensures nodes == if p in old(nodes) && old(nodes)[p] == NonDir then old(nodes) - {p} else old(nodes)
    {
      if p in nodes && nodes[p] == NonDir { nodes := nodes - {p}; }
    }

    /** `rmdir` removes a directory only when it has no entries. */
    method Rmdir(p: string)
      modifies this`nodes
      ensures nodes == if p in old(nodes) && old(nodes)[p] == Dir && (forall q | q in old(nodes) :: !Child(p, q))
                       then old(nodes) - {p} else old(nodes)
    {
      if p in nodes && nodes[p] == Dir && forall q | q in nodes :: !Child(p, q) { nodes := nodes - {p}; }
    }

    /** `scandir`: the names in a directory, each once, with "." and "..". */
    method Scandir(p: string) returns (ok: bool, names: seq<string>)
      ensures ok <==> p in nodes && nodes[p] == Dir
      ensures ok ==> forall a, b | 0 <= a < b < |names| :: names[a] != names[b]
      ensures ok ==> forall s ::
        s in names <==> s == "." || s == ".." || (Child(p, p + "/" + s) && p + "/" + s in nodes)
    {
      ok := p in nodes && nodes[p] == Dir;
      var left := (set q | q in nodes && Child(p, q) :: q[|p| + 1..]) + {".", ".."};
      names := [];
      ghost var all := left;
      while left != {}
        invariant left <= all
        invariant forall s :: s in names <==> s in all && s !in left
        invariant forall a, b | 0 <= a < b < |names| :: names[a] != names[b]
        decreases left
      {
        var s :| s in left;
        left := left - {s};
        names := names + [s];
      }
      forall s ensures s in all <==> s == "." || s == ".." || (Child(p, p + "/" + s) && p + "/" + s in nodes) {
        NameOfChild(p, s);
        forall q | q in nodes && Child(p, q) && s == q[|p| + 1..] ensures q == p + "/" + s { SplitChild(p, q); }
      }
    }
  }

  /** What the stressor learns about free inodes. */
  class Inodes {
    var minFree: nat       // the smallest number it has noted
    ghost var lowest: nat  // the smallest number it has been told
    ghost var enough: nat  // how often it was told more than a target

    /** `stress_get_filesystem_available_inodes` */
    method Ask(ghost target: nat) returns (avail: nat)
      modifies this`lowest, this`enough
      ensures lowest == if avail < old(lowest) then avail else old(lowest)
      ensures enough == if avail > target then old(enough) + 1 else old(enough)
    {
      avail := *;
      if avail < lowest { lowest := avail; }
      if avail > target { enough := enough + 1; }
    }
  }

  lemma NameOfChild(p: string, s: string)
    ensures (p + "/" + s)[|p| + 1..] == s
  {}

  lemma SplitChild(p: string, q: string)
    requires Child(p, q)
    ensures q == p + "/" + q[|p| + 1..]
  {
    assert q == q[..|p|] + [q[|p|]] + q[|p| + 1..];
  }

  /** `q`, somewhere below `p`, is an entry that `stress_dir_make` can have made there. */
  ghost predicate Good(nodes: map<string, Kind>, p: string, limit: nat, q: string)
    requires q in nodes
  {
    && |q| >= |p| + 2 && q[|q| - 2] == '/' && q[|q| - 1] !in {'/', '.', NUL}
    && (nodes[q] == Dir <==> Digit(q[|q| - 1]))
    && (nodes[q] == Dir ==> |q| + 2 < limit)
    && var u := q[..|q| - 2]; (u == p || Under(p, u)) && u in nodes && nodes[u] == Dir
  }

  /** What stands at and below `p` is a tree of one-character names, its directories the digits. */
  ghost predicate MadeTree(nodes: map<string, Kind>, p: string, limit: nat) {
    && (p in nodes ==> nodes[p] == Dir && |p| + 2 < limit)
    && forall q | q in nodes && Under(p, q) :: Good(nodes, p, limit, q)
  }

  /** Nothing at or below `p`. */
  ghost predicate Absent(nodes: map<string, Kind>, p: string) {
    p !in nodes && forall q | q in nodes :: !Under(p, q)
  }

  /** The two file systems agree on every path that is neither `p` nor below it. */
  ghost predicate SameOutside(a: map<string, Kind>, b: map<string, Kind>, p: string) {
    forall q | q != p && !Under(p, q) :: (q in a <==> q in b) && (q in a && q in b ==> a[q] == b[q])
  }

  lemma UnderEntry(p: string, c: char, q: string)
    ensures Under(p, Entry(p, c))
    ensures Under(Entry(p, c), q) ==> Under(p, q) && |q| > |p| + 2 && q[|p| + 1] == c
  {
    var e := Entry(p, c);
    if Under(e, q) { assert q[|p|] == e[|p|] && q[|p| + 1] == e[|p| + 1]; assert p <= e <= q; }
  }

  /** The C string that starts at the head of a buffer. */
  function CString(s: seq<char>): string {
    if |s| == 0 || s[0] == NUL then [] else [s[0]] + CString(s[1..])
  }

  /** The buffer holds a string of length `len`. */
  ghost predicate Holds(s: seq<char>, len: nat) {
    len < |s| && s[len] == NUL && forall i | 0 <= i < len :: s[i] != NUL
  }

  lemma {:induction false} CStringOf(s: seq<char>, len: nat)
    requires Holds(s, len)
    ensures CString(s) == s[..len]
  {
    if len > 0 {
      CStringOf(s[1..], len - 1);
      assert s[..len] == [s[0]] + s[1..][..len - 1];
    }
  }

  /** `nodes` without `p` and everything below it. */
  ghost function Cleared(nodes: map<string, Kind>, p: string): map<string, Kind> {
    map q | q in nodes && q != p && !Under(p, q) :: nodes[q]
  }

  /** `stress_dir_tidy`, called on `p`, walks the directory `d`: it gets there by digits only. */
  ghost predicate Reached(nodes: map<string, Kind>, p: string, limit: nat, d: string)
    decreases |d|
  {
    && d in nodes && nodes[d] == Dir && |d| + 2 < limit
    && (d == p ||
        (|d| >= |p| + 2 && d[|d| - 2] == '/' && Digit(d[|d| - 1]) && Reached(nodes, p, limit, d[..|d| - 2])))
  }

  ghost predicate LeafName(c: char) {
    !Digit(c) && c !in {'/', '.', NUL}
  }

  /**
    What `stress_dir_tidy`, called on `p`, removes: the files with a one-character name in the
    directories it walks, and those of these directories in which nothing else is left.
   */
  ghost predicate Goes(nodes: map<string, Kind>, p: string, limit: nat, q: string)
    decreases limit - |q|
  {
    q in nodes &&
    match nodes[q]
    case NonDir =>
      && |q| >= |p| + 2 && q[|q| - 2] == '/' && LeafName(q[|q| - 1])
      && Reached(nodes, p, limit, q[..|q| - 2])
    case Dir =>
      Reached(nodes, p, limit, q) && forall r | r in nodes && Child(q, r) :: Goes(nodes, p, limit, r)
  }

  /** The file system after `stress_dir_tidy`. */
  ghost function After(nodes: map<string, Kind>, p: string, limit: nat): map<string, Kind> {
    map q | q in nodes && !Goes(nodes, p, limit, q) :: nodes[q]
  }

  /** `q` lies in the part of the directory `p` whose names begin with `c`. */
  predicate InPart(p: string, c: char, q: string) {
    |q| > |p| + 1 && q[|p| + 1] == c
  }

  /** The file system when the names that begin with a letter of `done` have been dealt with. */
  ghost function Partly(nodes: map<string, Kind>, p: string, limit: nat, done: set<char>): map<string, Kind> {
    map q | q in nodes && !(Goes(nodes, p, limit, q) && |q| > |p| + 1 && q[|p| + 1] in done) :: nodes[q]
  }

  lemma {:induction false} ReachedBelow(nodes: map<string, Kind>, p: string, limit: nat, d: string)
    requires Reached(nodes, p, limit, d)
    ensures Reached(nodes, p, limit, p)
    ensures d == p || (Under(p, d) && |d| >= |p| + 2 && Digit(d[|p| + 1]) && Entry(p, d[|p| + 1]) in nodes)
    decreases |d|
  {
    if d != p {
      var u := d[..|d| - 2];
      ReachedBelow(nodes, p, limit, u);
      if u == p { assert d == Entry(p, d[|p| + 1]); } else { assert u[|p| + 1] == d[|p| + 1]; }
    }
  }

  /** Everything removed stands at or below `p`, under an entry that `scandir` reports. */
  lemma GoesBelow(nodes: map<string, Kind>, p: string, limit: nat, q: string)
    requires Goes(nodes, p, limit, q)
    ensures Reached(nodes, p, limit, p)
    ensures q == p || (Under(p, q) && |q| >= |p| + 2)
    ensures q != p ==>
      var c := q[|p| + 1]; c !in {'/', '.', NUL} && Entry(p, c) in nodes && (q == Entry(p, c) || Digit(c))
  {
    if nodes[q] == NonDir {
      var u := q[..|q| - 2];
      ReachedBelow(nodes, p, limit, u);
      if u == p { assert q == Entry(p, q[|p| + 1]); } else { assert u[|p| + 1] == q[|p| + 1]; }
    } else {
      ReachedBelow(nodes, p, limit, q);
    }
  }

  lemma NothingGoes(nodes: map<string, Kind>, p: string, limit: nat)
    requires !Reached(nodes, p, limit, p)
    ensures After(nodes, p, limit) == nodes
  {
    forall q | q in nodes ensures !Goes(nodes, p, limit, q) {
      if Goes(nodes, p, limit, q) { GoesBelow(nodes, p, limit, q); }
    }
  }

  /** Walking on from a numbered entry is walking from the entry. */
  lemma {:induction false} ReachedFromEntry(nodes: map<string, Kind>, p: string, limit: nat, c: char, d: string)
    requires Reached(nodes, p, limit, p) && Digit(c)
    ensures Reached(nodes, Entry(p, c), limit, d) <==> Reached(nodes, p, limit, d) && InPart(p, c, d)
    decreases |d|
  {
    var e := Entry(p, c);
    if Reached(nodes, e, limit, d) {
      ReachedBelow(nodes, e, limit, d);
      if d == e {
        assert e[..|e| - 2] == p;
      } else {
        UnderEntry(p, c, d);
        ReachedFromEntry(nodes, p, limit, c, d[..|d| - 2]);
      }
    } else if Reached(nodes, p, limit, d) && InPart(p, c, d) {
      ReachedBelow(nodes, p, limit, d);
      var u := d[..|d| - 2];
      assert u == p ==> d == e;
      if u != p {
        ReachedBelow(nodes, p, limit, u);
        assert u[|p| + 1] == d[|p| + 1];
        ReachedFromEntry(nodes, p, limit, c, u);
      }
    }
  }

  lemma {:induction false} GoesFromEntry(nodes: map<string, Kind>, p: string, limit: nat, c: char, q: string)
    requires Reached(nodes, p, limit, p) && Digit(c)
    ensures Goes(nodes, Entry(p, c), limit, q) <==> Goes(nodes, p, limit, q) && InPart(p, c, q)
    decreases limit - |q|
  {
    hide Reached;
    var e := Entry(p, c);
    if q in nodes && nodes[q] == NonDir {
      if |q| >= |p| + 2 { ReachedFromEntry(nodes, p, limit, c, q[..|q| - 2]); LeafPart(nodes, p, limit, c, q); }
    } else if q in nodes {
      ReachedFromEntry(nodes, p, limit, c, q);
      if Reached(nodes, p, limit, q) && InPart(p, c, q) {
        ReachedShort(nodes, p, limit, q);
        forall r | r in nodes && Child(q, r)
          ensures Goes(nodes, e, limit, r) <==> Goes(nodes, p, limit, r)
        {
          GoesFromEntry(nodes, p, limit, c, r);
          assert r[|p| + 1] == q[|p| + 1];
        }
      }
    }
  }

  lemma ReachedShort(nodes: map<string, Kind>, p: string, limit: nat, q: string)
    requires Reached(nodes, p, limit, q)
    ensures |q| + 2 < limit && |q| >= |p|
  {}

  lemma LeafPart(nodes: map<string, Kind>, p: string, limit: nat, c: char, q: string)
    requires Digit(c) && q in nodes && nodes[q] == NonDir && |q| >= |p| + 2
    ensures Goes(nodes, p, limit, q) && InPart(p, c, q) ==> |q| >= |p| + 4 && InPart(p, c, q[..|q| - 2])
    ensures InPart(p, c, q[..|q| - 2]) ==> InPart(p, c, q)
    ensures |q[..|q| - 2]| > |p| + 1 ==> |q| >= |Entry(p, c)| + 2
  {
    if Goes(nodes, p, limit, q) && InPart(p, c, q) {
      GoesBelow(nodes, p, limit, q);
      var u := q[..|q| - 2];
      ReachedBelow(nodes, p, limit, u);
      assert u != p;
    }
  }

  /** The two file systems agree in the part of `p` that begins with `c`. */
  ghost predicate SamePart(a: map<string, Kind>, b: map<string, Kind>, p: string, c: char) {
    forall q | InPart(p, c, q) :: (q in a <==> q in b) && (q in a && q in b ==> a[q] == b[q])
  }

  lemma {:induction false} ReachedSame(a: map<string, Kind>, b: map<string, Kind>, p: string, limit: nat,
                                       c: char, d: string)
    requires SamePart(a, b, p, c) && Reached(a, Entry(p, c), limit, d)
    ensures Reached(b, Entry(p, c), limit, d) && InPart(p, c, d)
    decreases |d|
  {
    var e := Entry(p, c);
    if d != e {
      ReachedSame(a, b, p, limit, c, d[..|d| - 2]);
      assert d[..|d| - 2][|p| + 1] == d[|p| + 1];
    }
  }

  lemma {:induction false} GoesSame(a: map<string, Kind>, b: map<string, Kind>, p: string, limit: nat,
                                    c: char, q: string)
    requires SamePart(a, b, p, c) && Goes(a, Entry(p, c), limit, q)
    ensures Goes(b, Entry(p, c), limit, q)
    decreases limit - |q|
  {
    hide Reached;
    var e := Entry(p, c);
    if a[q] == NonDir {
      var u := q[..|q| - 2];
      ReachedSame(a, b, p, limit, c, u);
      assert u[|p| + 1] == q[|p| + 1];
    } else {
      ReachedSame(a, b, p, limit, c, q);
      ReachedShort(a, e, limit, q);
      forall r | r in b && Child(q, r) ensures Goes(b, e, limit, r) {
        assert r[|p| + 1] == q[|p| + 1];
        GoesSame(a, b, p, limit, c, r);
      }
    }
  }

  /** `b` is `a` with some paths taken away. */
  ghost predicate Within(b: map<string, Kind>, a: map<string, Kind>) {
    forall q | q in b :: q in a && a[q] == b[q]
  }

  lemma {:induction false} ReachedBefore(a: map<string, Kind>, b: map<string, Kind>, p: string, limit: nat, d: string)
    requires Within(b, a) && Reached(b, p, limit, d)
    ensures Reached(a, p, limit, d)
    decreases |d|
  {
    if d != p { ReachedBefore(a, b, p, limit, d[..|d| - 2]); }
  }

  /** What a first walk from `p` has left, at and below `p`, a second walk leaves too. */
  lemma {:induction false} NothingMore(a: map<string, Kind>, b: map<string, Kind>, p: string, limit: nat, q: string)
    requires Within(b, a) && forall r | r in a && (r == p || Under(p, r)) :: r in b <==> !Goes(a, p, limit, r)
    ensures !Goes(b, p, limit, q)
    decreases limit - |q|
  {
    hide Reached;
    if Goes(b, p, limit, q) {
      GoesBelow(b, p, limit, q);
      if b[q] == NonDir {
        ReachedBefore(a, b, p, limit, q[..|q| - 2]);
      } else {
        ReachedBefore(a, b, p, limit, q);
        ReachedShort(b, p, limit, q);
        forall r | r in a && Child(q, r) ensures Goes(a, p, limit, r) {
          if r in b { NothingMore(a, b, p, limit, r); }
        }
      }
    }
  }

  /** A second `stress_dir_tidy` changes nothing. */
  lemma TidyTwice(nodes: map<string, Kind>, p: string, limit: nat)
    ensures After(After(nodes, p, limit), p, limit) == After(nodes, p, limit)
  {
    hide Goes;
    var b := After(nodes, p, limit);
    forall q | q in b ensures !Goes(b, p, limit, q) { NothingMore(nodes, b, p, limit, q); }
  }

  lemma InPartOfEntry(p: string, c: char, q: string)
    requires q == Entry(p, c) || Under(Entry(p, c), q)
    ensures InPart(p, c, q)
  {
    UnderEntry(p, c, q);
  }

  /** One numbered name: its walk does its part, whether or not the part has been walked before. */
  lemma DigitStep(nodes: map<string, Kind>, p: string, limit: nat, done: set<char>, c: char)
    requires Reached(nodes, p, limit, p) && Digit(c)
    ensures After(Partly(nodes, p, limit, done), Entry(p, c), limit) == Partly(nodes, p, limit, done + {c})
  {
    hide Reached, Goes;
    var e, now := Entry(p, c), Partly(nodes, p, limit, done);
    if c in done {
      forall r | r in nodes && (r == e || Under(e, r)) ensures r in now <==> !Goes(nodes, e, limit, r) {
        InPartOfEntry(p, c, r);
        GoesFromEntry(nodes, p, limit, c, r);
      }
      forall q | q in now ensures !Goes(now, e, limit, q) { NothingMore(nodes, now, e, limit, q); }
      assert done + {c} == done;
    } else {
      forall q | q in now ensures Goes(now, e, limit, q) <==> Goes(nodes, p, limit, q) && InPart(p, c, q) {
        if Goes(now, e, limit, q) { GoesSame(now, nodes, p, limit, c, q); }
        GoesFromEntry(nodes, p, limit, c, q);
        if Goes(nodes, e, limit, q) { GoesSame(nodes, now, p, limit, c, q); }
      }
    }
  }

  /** One other name: only the file of that one letter goes. */
  lemma LeafStep(nodes: map<string, Kind>, p: string, limit: nat, done: set<char>, c: char)
    requires Reached(nodes, p, limit, p) && LeafName(c)
    ensures var e, now := Entry(p, c), Partly(nodes, p, limit, done);
      Partly(nodes, p, limit, done + {c}) == if e in now && now[e] == NonDir then now - {e} else now
  {
    hide Reached;
    var e, now := Entry(p, c), Partly(nodes, p, limit, done);
    assert e[..|e| - 2] == p;
    forall q | q in now ensures Goes(nodes, p, limit, q) && InPart(p, c, q) <==> q == e && nodes[q] == NonDir {
      if Goes(nodes, p, limit, q) && InPart(p, c, q) {
        GoesBelow(nodes, p, limit, q);
        if nodes[q] == Dir { ReachedBelow(nodes, p, limit, q); }
      }
    }
  }

  /** When all names have been dealt with, the directory goes if nothing is left in it. */
  lemma LastStep(nodes: map<string, Kind>, p: string, limit: nat, done: set<char>)
    requires Reached(nodes, p, limit, p)
    requires forall c | Entry(p, c) in nodes && c !in {'/', '.', NUL} :: c in done
    ensures var now := Partly(nodes, p, limit, done);
      && p in now && now[p] == Dir
      && After(nodes, p, limit) == if forall q | q in now :: !Child(p, q) then now - {p} else now
  {
    hide Reached;
    var now := Partly(nodes, p, limit, done);
    ReachedDir(nodes, p, limit, p);
    forall q | q in nodes && q != p ensures q in now <==> !Goes(nodes, p, limit, q) {
      if Goes(nodes, p, limit, q) { GoesBelow(nodes, p, limit, q); }
    }
    if forall q | q in now :: !Child(p, q) {
      forall r | r in nodes && Child(p, r) ensures Goes(nodes, p, limit, r) {}
    } else {
      var r :| r in now && Child(p, r);
      assert !Goes(nodes, p, limit, r);
    }
  }

  lemma ReachedDir(nodes: map<string, Kind>, p: string, limit: nat, d: string)
    requires Reached(nodes, p, limit, d)
    ensures d in nodes && nodes[d] == Dir
  {}

  lemma NoneDone(nodes: map<string, Kind>, p: string, limit: nat)
    ensures Partly(nodes, p, limit, {}) == nodes
  {}

  lemma {:induction false} MadeReached(nodes: map<string, Kind>, p: string, limit: nat, d: string)
    requires MadeTree(nodes, p, limit) && d in nodes && nodes[d] == Dir && (d == p || Under(p, d))
    ensures Reached(nodes, p, limit, d)
    decreases |d|
  {
    if d != p {
      assert Good(nodes, p, limit, d);
      MadeReached(nodes, p, limit, d[..|d| - 2]);
    }
  }

  lemma {:induction false} MadeGoes(nodes: map<string, Kind>, p: string, limit: nat, q: string)
    requires MadeTree(nodes, p, limit) && q in nodes && (q == p || Under(p, q))
    ensures Goes(nodes, p, limit, q)
    decreases limit - |q|
  {
    hide Reached;
    if nodes[q] == NonDir {
      assert Good(nodes, p, limit, q);
      MadeReached(nodes, p, limit, q[..|q| - 2]);
    } else {
      MadeReached(nodes, p, limit, q);
      ReachedShort(nodes, p, limit, q);
      forall r | r in nodes && Child(q, r) ensures Goes(nodes, p, limit, r) { MadeGoes(nodes, p, limit, r); }
    }
  }

  /** A tree of the shape that is built goes whole, and nothing else does. */
  lemma MadeTreeGoes(nodes: map<string, Kind>, p: string, limit: nat)
    requires MadeTree(nodes, p, limit)
    ensures After(nodes, p, limit) == Cleared(nodes, p)
  {
    hide Goes, MadeTree;
    forall q | q in nodes ensures Goes(nodes, p, limit, q) <==> q == p || Under(p, q) {
      if Goes(nodes, p, limit, q) {
        GoesBelow(nodes, p, limit, q);
      } else if q == p || Under(p, q) {
        MadeGoes(nodes, p, limit, q);
      }
    }
  }

  lemma AllNamed(nodes: map<string, Kind>, p: string, names: seq<string>, done: set<char>)
    requires forall s :: s in names <==> s == "." || s == ".." || (Child(p, p + "/" + s) && p + "/" + s in nodes)
    requires forall i | 0 <= i < |names| && |names[i]| == 1 && names[i][0] != '.' :: names[i][0] in done
    ensures forall c | Entry(p, c) in nodes && c !in {'/', '.', NUL} :: c in done
  {
    forall c | Entry(p, c) in nodes && c !in {'/', '.', NUL} ensures c in done {
      assert p + "/" + [c] == Entry(p, c);
      NameOfChild(p, [c]);
      assert [c] in names;
      var i :| 0 <= i < |names| && names[i] == [c];
      assert names[i][0] == c;
    }
  }

  lemma Restored(s: seq<char>, s': seq<char>, len: nat)
    requires Holds(s, len) && |s'| == |s| && s'[..len] == s[..len] && s'[len] == NUL
    ensures Holds(s', len) && s'[..len + 1] == s[..len + 1]
  {
    forall i | 0 <= i < len ensures s'[i] == s[i] { assert s'[i] == s'[..len][i] == s[..len][i]; }
  }

  /** The buffer after writing "/c" at `len`. */
  lemma Written(s: seq<char>, s': seq<char>, len: nat, c: char)
    requires Holds(s, len) && len + 2 < |s| && |s'| == |s| && c != NUL
    requires s'[..len] == s[..len] && s'[len] == '/' && s'[len + 1] == c && s'[len + 2] == NUL
    ensures Holds(s', len + 2) && s'[..len + 2] == Entry(s[..len], c)
  {
    forall i | 0 <= i < len ensures s'[i] != NUL { assert s'[i] == s'[..len][i] == s[..len][i]; }
  }

  /** Paths are C strings. */
  ghost predicate Named(nodes: map<string, Kind>) {
    forall q | q in nodes :: NUL !in q
  }

  lemma FirstLetter(nodes: map<string, Kind>, p: string, name: string)
    requires Named(nodes)
    requires name == "." || name == ".." || (Child(p, p + "/" + name) && p + "/" + name in nodes)
    ensures |name| > 0 && name[0] != NUL && name[0] != '/'
  {
    if name != "." && name != ".." {
      NameOfChild(p, name);
      assert (p + "/" + name)[|p| + 1] == name[0];
    }
  }

  lemma StillNamed(a: map<string, Kind>, b: map<string, Kind>)
    requires Named(a) && Within(b, a)
    ensures Named(b)
  {}

  lemma PartlyNamed(nodes: map<string, Kind>, p: string, limit: nat, done: set<char>)
    requires Named(nodes)
    ensures Named(Partly(nodes, p, limit, done)) && Named(After(nodes, p, limit))
  {
    hide Goes;
    StillNamed(nodes, Partly(nodes, p, limit, done));
    StillNamed(nodes, After(nodes, p, limit));
  }

  /**
    `stress_dir_tidy`, for every file system: it removes exactly the files of one letter in the
    directories it can walk to and those of these directories that become empty, and hands the
    caller's part of the buffer back unchanged.
   */
  method Tidy(fs: FileSystem, path: array<char>, len: nat)
    requires Holds(path[..], len) && Named(fs.nodes)
    modifies fs`nodes, path
    ensures path[..len + 1] == old(path[..len + 1])
    ensures fs.nodes == After(old(fs.nodes), old(path[..len]), path.Length) && Named(fs.nodes)
    decreases path.Length - len
  {
    hide Partly, After, Child, Under, Digit, CString, Named, Goes;
    ghost var s0, p, nodes, limit := path[..], path[..len], fs.nodes, path.Length;
    if len + 2 >= path.Length {
      NothingGoes(nodes, p, limit);
      return;
    }
    CStringOf(path[..], len);
    var ok, names := fs.Scandir(CString(path[..]));
    if !ok {
      NothingGoes(nodes, p, limit);
      return;
    }
    assert Reached(nodes, p, limit, p);
    hide Reached;
    var n := |names|;
    ghost var done: set<char> := {};
    NoneDone(nodes, p, limit);
    while n > 0
      invariant 0 <= n <= |names|
      invariant path[..len] == p
      invariant fs.nodes == Partly(nodes, p, limit, done)
      invariant forall i | n <= i < |names| && |names[i]| == 1 && names[i][0] != '.' :: names[i][0] in done
    {
      n := n - 1;
      FirstLetter(nodes, p, names[n]);
      if names[n][0] == '.' { continue; }
      ghost var c := names[n][0];
      PartlyNamed(nodes, p, limit, done);
      path[len] := '/';
      path[len + 1] := names[n][0];
      path[len + 2] := NUL;
      Written(s0, path[..], len, c);
      if Digit(names[n][0]) {
        DigitStep(nodes, p, limit, done, c);
        Tidy(fs, path, len + 2);
        assert path[..len] == path[..len + 3][..len];
      } else {
        LeafStep(nodes, p, limit, done, c);
        CStringOf(path[..], len + 2);
        fs.Unlink(CString(path[..]));
      }
      done := done + {c};
    }
    path[len] := NUL;
    Restored(s0, path[..], len);
    CStringOf(path[..], len);
    AllNamed(nodes, p, names, done);
    LastStep(nodes, p, limit, done);
    PartlyNamed(nodes, p, limit, done);
    fs.Rmdir(CString(path[..]));
  }

  function Numeral(i: nat): char
    requires i < 10
  {
    '0' + i as char
  }

  /** The tree at `p` while it is being filled: numerals from `i` on are still to come. */
  ghost predicate Filling(before: map<string, Kind>, nodes: map<string, Kind>, p: string, limit: nat, i: nat) {
    && p in nodes && MadeTree(nodes, p, limit) && SameOutside(before, nodes, p)
    && forall j: nat | i <= j < 10 :: Absent(nodes, Entry(p, Numeral(j)))
  }

  lemma FillStart(before: map<string, Kind>, p: string, limit: nat)
    requires Absent(before, p) && |p| + 2 < limit
    ensures Filling(before, before[p := Dir], p, limit, 0)
  {
    forall j: nat | j < 10 ensures Absent(before[p := Dir], Entry(p, Numeral(j))) {
      var e := Entry(p, Numeral(j));
      UnderEntry(p, Numeral(j), e);
      forall q | q in before ensures !Under(e, q) { UnderEntry(p, Numeral(j), q); }
    }
  }

  lemma FillLeaf(before: map<string, Kind>, nodes: map<string, Kind>, p: string, limit: nat, c: char)
    requires Filling(before, nodes, p, limit, 0) && !Digit(c) && c !in {'/', '.', NUL}
    requires Entry(p, c) in nodes ==> nodes[Entry(p, c)] == NonDir
    ensures Filling(before, nodes[Entry(p, c) := NonDir], p, limit, 0)
  {
    var e := Entry(p, c);
    var m := nodes[e := NonDir];
    UnderEntry(p, c, e);
    assert e[..|e| - 2] == p;
    forall q | q in m && Under(p, q) ensures Good(m, p, limit, q) {
      if q != e { assert Good(nodes, p, limit, q); }
    }
    forall j: nat | j < 10 ensures Absent(m, Entry(p, Numeral(j))) { UnderEntry(p, Numeral(j), e); }
  }

  lemma FillSubTree(before: map<string, Kind>, nodes: map<string, Kind>, m: map<string, Kind>,
                    p: string, limit: nat, i: nat)
    requires Filling(before, nodes, p, limit, i) && i < 10
    requires MadeTree(m, Entry(p, Numeral(i)), limit) && SameOutside(nodes, m, Entry(p, Numeral(i)))
    ensures Filling(before, m, p, limit, i + 1)
  {
    var e := Entry(p, Numeral(i));
    UnderEntry(p, Numeral(i), e);
    assert e[..|e| - 2] == p && p in m;
    forall q | q in m && Under(p, q) ensures Good(m, p, limit, q) { FillGood(nodes, m, p, limit, e, q); }
    forall q | q != p && !Under(p, q) ensures q != e && !Under(e, q) { UnderEntry(p, Numeral(i), q); }
    forall j: nat | i + 1 <= j < 10 ensures Absent(m, Entry(p, Numeral(j))) {
      var f := Entry(p, Numeral(j));
      assert Absent(nodes, f);
      assert f[|p| + 1] == Numeral(j) != Numeral(i) == e[|p| + 1];
      UnderEntry(p, Numeral(j), f);
      UnderEntry(p, Numeral(i), f);
      forall q | q in m ensures !Under(f, q) { UnderEntry(p, Numeral(j), q); UnderEntry(p, Numeral(i), q); }
    }
  }

  lemma FillGood(nodes: map<string, Kind>, m: map<string, Kind>, p: string, limit: nat, e: string, q: string)
    requires MadeTree(nodes, p, limit) && p in nodes && p in m && nodes[p] == m[p]
    requires |e| == |p| + 2 && Under(p, e) && Digit(e[|e| - 1]) && e[..|e| - 2] == p
    requires MadeTree(m, e, limit) && SameOutside(nodes, m, e)
    requires q in m && Under(p, q)
    ensures Good(m, p, limit, q)
  {
    if Under(e, q) {
      assert Good(m, e, limit, q);
    } else if q != e {
      assert Good(nodes, p, limit, q);
      var u := q[..|q| - 2];
      assert u != e && !Under(e, u);
    }
  }

  /** Below `p` there are only the link target, the two links and numbered entries, `dirs` of them. */
  ghost predicate Lettered(nodes: map<string, Kind>, p: string, dirs: nat, link: string) {
    forall q | q in nodes && Under(p, q) ::
      q == link || (|q| > 0 && var c := q[|q| - 1]; c == 's' || c == 'h' || '0' as int <= c as int < '0' as int + dirs)
  }

  lemma LetteredStart(nodes: map<string, Kind>, p: string, dirs: nat, link: string)
    requires Absent(nodes, p)
    ensures Lettered(nodes, p, dirs, link) && Lettered(nodes[p := Dir], p, dirs, link)
  {}

  lemma LetteredLeaf(nodes: map<string, Kind>, p: string, dirs: nat, link: string, e: string)
    requires Lettered(nodes, p, dirs, link) && (e == link || e == Entry(p, 's') || e == Entry(p, 'h'))
    ensures Lettered(nodes[e := NonDir], p, dirs, link)
  {}

  lemma LetteredSubTree(nodes: map<string, Kind>, m: map<string, Kind>, p: string, dirs: nat, link: string, i: nat)
    requires i < dirs <= 10 && Lettered(nodes, p, dirs, link)
    requires Lettered(m, Entry(p, Numeral(i)), dirs, link) && SameOutside(nodes, m, Entry(p, Numeral(i)))
    ensures Lettered(m, p, dirs, link)
  {
    var e := Entry(p, Numeral(i));
    assert e[|e| - 1] == Numeral(i);
  }

  /** The complete tree: both links and every sub-directory, down to where the buffer ends. */
  ghost predicate Full(nodes: map<string, Kind>, p: string, limit: nat, dirs: nat)
    requires dirs <= 10
    decreases limit - |p|
  {
    |p| + 2 < limit ==>
      && p in nodes && Entry(p, 's') in nodes && Entry(p, 'h') in nodes
      && forall i: nat | i < dirs :: Full(nodes, Entry(p, Numeral(i)), limit, dirs)
  }

  lemma {:induction false} FullGrows(a: map<string, Kind>, b: map<string, Kind>, p: string, limit: nat, dirs: nat)
    requires dirs <= 10 && a.Keys <= b.Keys && Full(a, p, limit, dirs)
    ensures Full(b, p, limit, dirs)
    decreases limit - |p|
  {
    if |p| + 2 < limit {
      forall i: nat | i < dirs ensures Full(b, Entry(p, Numeral(i)), limit, dirs) {
        FullGrows(a, b, Entry(p, Numeral(i)), limit, dirs);
      }
    }
  }

  /** The first `i` sub-directories are complete. */
  ghost predicate FullUpTo(nodes: map<string, Kind>, p: string, limit: nat, dirs: nat, i: nat)
    requires i <= dirs <= 10
  {
    forall j: nat | j < i :: Full(nodes, Entry(p, Numeral(j)), limit, dirs)
  }

  lemma FullOneMore(a: map<string, Kind>, b: map<string, Kind>, p: string, limit: nat, dirs: nat, i: nat)
    requires i < dirs <= 10 && a.Keys <= b.Keys
    requires FullUpTo(a, p, limit, dirs, i) && Full(b, Entry(p, Numeral(i)), limit, dirs)
    ensures FullUpTo(b, p, limit, dirs, i + 1)
  {
    forall j: nat | j < i ensures Full(b, Entry(p, Numeral(j)), limit, dirs) {
      FullGrows(a, b, Entry(p, Numeral(j)), limit, dirs);
    }
  }

  lemma FullDone(nodes: map<string, Kind>, p: string, limit: nat, dirs: nat)
    requires dirs <= 10 && p in nodes && Entry(p, 's') in nodes && Entry(p, 'h') in nodes
    requires FullUpTo(nodes, p, limit, dirs, dirs)
    ensures Full(nodes, p, limit, dirs)
  {}

  lemma NothingMade(nodes: map<string, Kind>, p: string, limit: nat)
    requires Absent(nodes, p)
    ensures MadeTree(nodes, p, limit) && SameOutside(nodes, nodes, p)
  {}

  lemma FillDone(before: map<string, Kind>, nodes: map<string, Kind>, p: string, limit: nat, i: nat)
    requires Filling(before, nodes, p, limit, i)
    ensures MadeTree(nodes, p, limit) && SameOutside(before, nodes, p)
  {}

  /** One more directory may be made if more inodes are free than the target, the path fits and the flag is up. */
  method MayGoOn(inodes: Inodes, flag: Flag, len: nat, limit: nat, targetFree: nat) returns (go: bool)
    requires inodes.minFree == inodes.lowest
    modifies inodes, flag
    ensures inodes.minFree == inodes.lowest <= old(inodes.lowest) && (flag.go ==> old(flag.go))
    ensures go ==> len + 2 < limit && old(flag.go) && inodes.enough == old(inodes.enough) + 1
    ensures !go ==> inodes.lowest <= targetFree || len + 2 >= limit || !flag.go
    ensures inodes.enough >= old(inodes.enough)
  {
    var avail := inodes.Ask(targetFree);
    if inodes.minFree > avail { inodes.minFree := avail; }
    if avail <= targetFree { return false; }
    if len + 2 >= limit { return false; }
    go := flag.Read();
  }

  /**
    `stress_dir_make`: whatever fails on the way, it builds at the path in the buffer a tree that
    `Tidy` can remove, changes nothing elsewhere, and hands the caller's part of the buffer back.
   */
  method Make(fs: FileSystem, inodes: Inodes, flag: Flag, linkpath: string, path: array<char>, len: nat, dirs: nat,
              targetFree: nat, depth: nat)
    requires Holds(path[..], len) && Absent(fs.nodes, path[..len]) && dirs <= 10 && inodes.minFree == inodes.lowest
    requires depth == 0 ==> linkpath == Entry(path[..len], 'f')
    modifies fs, inodes, flag, path
    ensures path[..len + 1] == old(path[..len + 1])
    ensures MadeTree(fs.nodes, old(path[..len]), path.Length)
    ensures SameOutside(old(fs.nodes), fs.nodes, old(path[..len]))
    ensures old(fs.nodes).Keys <= fs.nodes.Keys && fs.refusals >= old(fs.refusals)
    ensures Lettered(fs.nodes, old(path[..len]), dirs, linkpath)
    ensures inodes.minFree == inodes.lowest <= old(inodes.lowest) && (flag.go ==> old(flag.go))
    ensures 0 <= fs.mkdirs - old(fs.mkdirs) <= inodes.enough - old(inodes.enough)
    ensures !old(flag.go) ==> fs.nodes == old(fs.nodes)
    ensures fs.refusals == old(fs.refusals) && inodes.lowest > targetFree && flag.go ==>
      && Full(fs.nodes, old(path[..len]), path.Length, dirs)
      && (depth == 0 && len + 2 < path.Length ==> linkpath in fs.nodes)
    decreases path.Length - len, 2
  {
    hide MadeTree, Absent, SameOutside, Filling, CString, FullUpTo, Lettered;
    ghost var s0, p, before, limit := path[..], path[..len], fs.nodes, path.Length;
    NothingMade(before, p, limit);
    LetteredStart(before, p, dirs, linkpath);
    var more := MayGoOn(inodes, flag, len, path.Length, targetFree);
    if !more { return; }

    CStringOf(path[..], len);
    var ok := fs.Create(CString(path[..]), Dir);
    if !ok { return; }
    FillStart(before, p, limit);
    FillDone(before, fs.nodes, p, limit, 0);
    if depth == 0 {
      ghost var nodes := fs.nodes;
      ok := fs.Creat(linkpath);
      if !ok { return; }
      FillLeaf(before, nodes, p, limit, 'f');
      LetteredLeaf(nodes, p, dirs, linkpath, linkpath);
    }

    FillDirectory(fs, inodes, flag, linkpath, path, len, dirs, targetFree, depth, before);
    FillDone(before, fs.nodes, p, limit, dirs);
    if fs.refusals == old(fs.refusals) && inodes.lowest > targetFree && flag.go { FullDone(fs.nodes, p, limit, dirs); }
  }

  /** What goes into a directory just made: two links and the sub-directories. */
  method FillDirectory(fs: FileSystem, inodes: Inodes, flag: Flag, linkpath: string, path: array<char>, len: nat,
                       dirs: nat, targetFree: nat, depth: nat, ghost before: map<string, Kind>)
    requires inodes.minFree == inodes.lowest && len + 2 < path.Length && Holds(path[..], len) && dirs <= 10
    requires Filling(before, fs.nodes, path[..len], path.Length, 0) && Lettered(fs.nodes, path[..len], dirs, linkpath)
    modifies fs, inodes, flag, path
    ensures path[..len + 1] == old(path[..len + 1])
    ensures Filling(before, fs.nodes, old(path[..len]), path.Length, dirs)
    ensures Lettered(fs.nodes, old(path[..len]), dirs, linkpath)
    ensures old(fs.nodes).Keys <= fs.nodes.Keys && fs.refusals >= old(fs.refusals)
    ensures inodes.minFree == inodes.lowest <= old(inodes.lowest) && (flag.go ==> old(flag.go))
    ensures 0 <= fs.mkdirs - old(fs.mkdirs) <= inodes.enough - old(inodes.enough)
    ensures fs.refusals == old(fs.refusals) && inodes.lowest > targetFree && flag.go ==>
      && Entry(old(path[..len]), 's') in fs.nodes && Entry(old(path[..len]), 'h') in fs.nodes
      && FullUpTo(fs.nodes, old(path[..len]), path.Length, dirs, dirs)
    decreases path.Length - len, 1
  {
    hide MadeTree, Absent, SameOutside, Filling, CString, FullUpTo, Lettered;
    ghost var s0, p := path[..], path[..len];
    path[len] := '/';
    path[len + 1] := 's';
    path[len + 2] := NUL;
    Written(s0, path[..], len, 's');
    MakeLeaf(fs, path, len, before, p, 's', dirs, linkpath);
    path[len + 1] := 'h';
    Written(s0, path[..], len, 'h');
    MakeLeaf(fs, path, len, before, p, 'h', dirs, linkpath);
    MakeSubTrees(fs, inodes, flag, linkpath, path, len, dirs, targetFree, depth, s0, before);
    path[len] := NUL;
    Restored(s0, path[..], len);
  }

  /** The loop over the sub-directories: the recursive call is the only other writer of the buffer. */
  method MakeSubTrees(fs: FileSystem, inodes: Inodes, flag: Flag, linkpath: string, path: array<char>, len: nat,
                      dirs: nat, targetFree: nat, depth: nat, ghost s0: seq<char>, ghost before: map<string, Kind>)
    requires inodes.minFree == inodes.lowest && len + 2 < path.Length == |s0| && Holds(s0, len) && dirs <= 10
    requires path[..len] == s0[..len] && path[len] == '/' && path[len + 2] == NUL
    requires Filling(before, fs.nodes, s0[..len], path.Length, 0) && Lettered(fs.nodes, s0[..len], dirs, linkpath)
    modifies fs, inodes, flag, path
    ensures path[..len] == s0[..len]
    ensures Filling(before, fs.nodes, s0[..len], path.Length, dirs) && Lettered(fs.nodes, s0[..len], dirs, linkpath)
    ensures old(fs.nodes).Keys <= fs.nodes.Keys && fs.refusals >= old(fs.refusals)
    ensures inodes.minFree == inodes.lowest <= old(inodes.lowest) && (flag.go ==> old(flag.go))
    ensures 0 <= fs.mkdirs - old(fs.mkdirs) <= inodes.enough - old(inodes.enough)
    ensures fs.refusals == old(fs.refusals) && inodes.lowest > targetFree && flag.go ==>
      FullUpTo(fs.nodes, s0[..len], path.Length, dirs, dirs)
    decreases path.Length - len, 0
  {
    hide MadeTree, Absent, SameOutside, Filling, Full, Lettered;
    ghost var p, limit := s0[..len], path.Length;
    var i := 0;
    while i < dirs
      invariant 0 <= i <= dirs
      invariant path[..len] == p && path[len] == '/' && path[len + 2] == NUL
      invariant Filling(before, fs.nodes, p, limit, i) && Lettered(fs.nodes, p, dirs, linkpath)
      invariant old(fs.nodes).Keys <= fs.nodes.Keys && fs.refusals >= old(fs.refusals)
      invariant inodes.minFree == inodes.lowest <= old(inodes.lowest) && (flag.go ==> old(flag.go))
      invariant 0 <= fs.mkdirs - old(fs.mkdirs) <= inodes.enough - old(inodes.enough)
      invariant fs.refusals == old(fs.refusals) && inodes.lowest > targetFree && flag.go ==>
        FullUpTo(fs.nodes, p, limit, dirs, i)
    {
      path[len + 1] := Numeral(i);
      Written(s0, path[..], len, Numeral(i));
      ghost var nodes, s1 := fs.nodes, path[..];
      NextAbsent(before, nodes, p, limit, i);
      Make(fs, inodes, flag, linkpath, path, len + 2, dirs, targetFree, depth + 1);
      PrefixKept(s1, path[..], len);
      FillSubTree(before, nodes, fs.nodes, p, limit, i);
      LetteredSubTree(nodes, fs.nodes, p, dirs, linkpath, i);
      if fs.refusals == old(fs.refusals) && inodes.lowest > targetFree && flag.go {
        FullOneMore(nodes, fs.nodes, p, limit, dirs, i);
      }
      i := i + 1;
    }
  }

  lemma PrefixKept(s: seq<char>, s': seq<char>, len: nat)
    requires |s| == |s'| && len + 2 < |s| && s[..len + 3] == s'[..len + 3]
    ensures s[..len] == s'[..len] && s[len] == s'[len] && s[len + 2] == s'[len + 2]
  {
    assert s[..len] == s[..len + 3][..len] && s'[..len] == s'[..len + 3][..len];
    assert s[len] == s[..len + 3][len] && s[len + 2] == s[..len + 3][len + 2];
  }

  lemma NextAbsent(before: map<string, Kind>, nodes: map<string, Kind>, p: string, limit: nat, i: nat)
    requires Filling(before, nodes, p, limit, i) && i < 10
    ensures Absent(nodes, Entry(p, Numeral(i)))
  {}

  /** One `symlink` or `link` in the directory being filled. */
  method MakeLeaf(fs: FileSystem, path: array<char>, len: nat,
                  ghost before: map<string, Kind>, ghost p: string, ghost c: char, ghost dirs: nat, ghost link: string)
    requires len + 2 < path.Length && Holds(path[..], len + 2) && path[..len + 2] == Entry(p, c)
    requires Filling(before, fs.nodes, p, path.Length, 0) && c in {'s', 'h'} && Lettered(fs.nodes, p, dirs, link)
    modifies fs
    ensures Filling(before, fs.nodes, p, path.Length, 0) && Lettered(fs.nodes, p, dirs, link)
    ensures old(fs.nodes).Keys <= fs.nodes.Keys && fs.refusals >= old(fs.refusals)
    ensures (fs.refusals == old(fs.refusals) ==> Entry(p, c) in fs.nodes) && fs.mkdirs == old(fs.mkdirs)
  {
    hide MadeTree, Absent, SameOutside, Filling, CString, Lettered;
    CStringOf(path[..], len + 2);
    ghost var nodes := fs.nodes;
    var ok := fs.Create(CString(path[..]), NonDir);
    if ok {
      FillLeaf(before, nodes, p, path.Length, c);
      LetteredLeaf(nodes, p, dirs, link, Entry(p, c));
    }
  }

  /**
    `stress_dirdeep`: making the tree and tidying it up leaves the file system as it was, for every
    fan-out the option allows and every pattern of failures while making. In between, `made` holds
    the tree. It is complete if no call failed, the flag was up, and fewer than `wanted` of the
    inodes available at the start were ever gone.
   */
  method MakeThenTidy(fs: FileSystem, inodes: Inodes, flag: Flag, rootpath: string, size: nat, dirs: nat,
                      available: nat, wanted: nat) returns (ghost made: map<string, Kind>)
    requires NUL !in rootpath && |rootpath| < size && Absent(fs.nodes, rootpath) && dirs <= 10 && Named(fs.nodes)
    requires inodes.minFree == inodes.lowest
    modifies fs, inodes, flag
    ensures fs.nodes == old(fs.nodes) && fs.refusals >= old(fs.refusals)
    ensures inodes.minFree == inodes.lowest <= old(inodes.lowest) && (flag.go ==> old(flag.go))
    ensures MadeTree(made, rootpath, size) && SameOutside(old(fs.nodes), made, rootpath)
    ensures Lettered(made, rootpath, dirs, Entry(rootpath, 'f'))
    ensures fs.refusals == old(fs.refusals) && flag.go && 0 < inodes.minFree && available < inodes.minFree + wanted ==>
      Full(made, rootpath, size, dirs) && (|rootpath| + 2 < size ==> Entry(rootpath, 'f') in made)
    ensures !old(flag.go) ==> made == old(fs.nodes)
  {
    hide MadeTree, Absent, CString, Named, Cleared, SameOutside, After, Full, Lettered;
    ghost var before := fs.nodes;
    var targetFree := if available > wanted then available - wanted else 0;
    var path := new char[size];
    CopyString(path, rootpath);
    Make(fs, inodes, flag, Entry(rootpath, 'f'), path, |rootpath|, dirs, targetFree, 0);
    CopyString(path, rootpath);
    made := fs.nodes;
    MadeNamed(before, made, rootpath, size);
    Tidy(fs, path, |rootpath|);
    MadeTreeGoes(made, rootpath, size);
    ClearedOutside(before, made, rootpath);
  }

  lemma MadeNamed(before: map<string, Kind>, made: map<string, Kind>, p: string, limit: nat)
    requires Named(before) && SameOutside(before, made, p) && MadeTree(made, p, limit) && NUL !in p
    ensures Named(made)
  {
    forall q | q in made ensures NUL !in q {
      if Under(p, q) { NamedBelow(made, p, limit, q); } else if q != p { assert q in before; }
    }
  }

  lemma {:induction false} NamedBelow(nodes: map<string, Kind>, p: string, limit: nat, q: string)
    requires MadeTree(nodes, p, limit) && NUL !in p && q in nodes && Under(p, q)
    ensures NUL !in q
    decreases |q|
  {
    assert Good(nodes, p, limit, q);
    var u := q[..|q| - 2];
    if u != p { NamedBelow(nodes, p, limit, u); }
    assert q == u + [q[|q| - 2]] + [q[|q| - 1]];
  }

  lemma ClearedOutside(before: map<string, Kind>, made: map<string, Kind>, p: string)
    requires Absent(before, p) && SameOutside(before, made, p)
    ensures Cleared(made, p) == before
  {}

  /** `strncpy` of a string that fits: the rest of the buffer is zeroed. */
  method CopyString(path: array<char>, s: string)
    requires NUL !in s && |s| < path.Length
    modifies path
    ensures path[..|s|] == s && Holds(path[..], |s|)
  {
    var i := 0;
    while i < path.Length
      invariant 0 <= i <= path.Length
      invariant forall j | 0 <= j < i :: path[j] == if j < |s| then s[j] else NUL
    {
      path[i] := if i < |s| then s[i] else NUL;
      i := i + 1;
    }
  }
}

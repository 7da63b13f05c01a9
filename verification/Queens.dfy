/** The bit-mask n-queens counter of the CPU stressor. */
module Queens {
  import opened Basics
  import opened Bits

  /** No two queens share a column or a diagonal; `s[i]` is the column of the queen in row `i`. */
  ghost predicate Peaceful(s: seq<nat>) {
    forall i, j | 0 <= i < j < |s| :: s[i] != s[j] && s[i] + (j - i) != s[j] && s[j] + (j - i) != s[i]
  }

  ghost predicate OnBoard(n: nat, s: seq<nat>) {
    forall i | 0 <= i < |s| :: s[i] < n
  }

  /** Every sequence of `len` columns of an `n`-column board. */
  ghost function Boards(n: nat, len: nat): set<seq<nat>> {
    if len == 0 then {[]}
    else set s, c | s in Boards(n, len - 1) && c in Below(n) :: s + [c]
  }

  ghost function Used(b: seq<nat>): set<nat> {
    set c | c in b
  }

  /** The full boards without attack that start with the rows of `b`. */
  ghost function Completions(n: nat, b: seq<nat>): set<seq<nat>> {
    set s | s in Boards(n, n) && b <= s && Peaceful(s)
  }

  /** All solutions of the n-queens problem. */
  ghost function Solutions(n: nat): set<seq<nat>> {
    Completions(n, [])
  }

  /** The completions whose next row uses a column of `d`. */
  ghost function Through(n: nat, b: seq<nat>, d: set<nat>): set<seq<nat>> {
    set s | s in Completions(n, b) && |b| < |s| && s[|b|] in d
  }

  /** Column `c` is not attacked in the row below `b`. */
  ghost predicate Safe(b: seq<nat>, c: nat) {
    c !in b && !OnLeft(b, c) && !OnRight(b, c)
  }

  ghost predicate OnLeft(b: seq<nat>, c: nat) {
    exists r | 0 <= r < |b| :: b[r] + (|b| - r) == c
  }

  ghost predicate OnRight(b: seq<nat>, c: nat) {
    exists r | 0 <= r < |b| :: b[r] == c + (|b| - r)
  }

  /** `poss` holds exactly the safe columns outside `tried`. */
  ghost predicate ToTry(n: nat, b: seq<nat>, tried: set<nat>, poss: nat) {
    forall c: nat :: Has(poss, c) <==> c < n && Safe(b, c) && c !in tried
  }

  /** What the three masks of `queens_try` say about the rows placed so far. */
  ghost predicate Encodes(n: nat, b: seq<nat>, left: nat, cols: nat, right: nat, all: nat) {
    && 1 <= n <= W && |b| < n && OnBoard(n, b) && Peaceful(b)
    && left < Pow2(W) && cols < Pow2(W) && right < Pow2(W) && all == Pow2(n) - 1
    && (forall c: nat :: Has(cols, c) <==> c in b)
    && (forall c: nat | c < W :: Has(left, c) <==> OnLeft(b, c))
    && (forall c: nat :: Has(right, c) <==> OnRight(b, c))
  }

  lemma {:induction false} BoardsSound(n: nat, len: nat, s: seq<nat>)
    requires s in Boards(n, len)
    ensures |s| == len && OnBoard(n, s)
    decreases len
  {
    if len > 0 {
      var t, c :| t in Boards(n, len - 1) && c in Below(n) && s == t + [c];
      BoardsSound(n, len - 1, t);
    }
  }

  lemma {:induction false} BoardsComplete(n: nat, s: seq<nat>)
    requires OnBoard(n, s)
    ensures s in Boards(n, |s|)
    decreases |s|
  {
    if |s| > 0 {
      var t, c := s[..|s| - 1], s[|s| - 1];
      BoardsComplete(n, t);
      assert t in Boards(n, |t|) && c in Below(n) && s == t + [c];
    }
  }

  lemma InBoards(n: nat, len: nat, s: seq<nat>)
    ensures s in Boards(n, len) <==> |s| == len && OnBoard(n, s)
  {
    if s in Boards(n, len) { BoardsSound(n, len, s); }
    if |s| == len && OnBoard(n, s) { BoardsComplete(n, s); }
  }

  /** Extending a peaceful board by one row is exactly choosing a safe column. */
  lemma PeacefulExtend(b: seq<nat>, c: nat)
    ensures Peaceful(b + [c]) <==> Peaceful(b) && Safe(b, c)
  {
    var s := b + [c];
    if Peaceful(s) {
      forall i, j | 0 <= i < j < |b| ensures b[i] != b[j] && b[i] + (j - i) != b[j] && b[j] + (j - i) != b[i] {
        assert s[i] == b[i] && s[j] == b[j];
      }
      forall r | 0 <= r < |b| ensures b[r] != c && b[r] + (|b| - r) != c && b[r] != c + (|b| - r) {
        assert s[r] == b[r] && s[|b|] == c;
      }
    }
  }

  lemma PeacefulPrefix(s: seq<nat>, m: nat)
    requires m <= |s| && Peaceful(s)
    ensures Peaceful(s[..m])
  {}

  /** The column chosen next by any completion is a safe one on the board. */
  lemma NextIsSafe(n: nat, b: seq<nat>, s: seq<nat>)
    requires |b| < n && s in Completions(n, b)
    ensures |s| == n && s[|b|] < n && Safe(b, s[|b|])
  {
    InBoards(n, n, s);
    PeacefulPrefix(s, |b| + 1);
    assert s[..|b| + 1] == b + [s[|b|]];
    PeacefulExtend(b, s[|b|]);
  }

  lemma InThrough(n: nat, b: seq<nat>, d: set<nat>, k: nat, s: seq<nat>)
    requires |b| < n
    ensures s in Through(n, b, d + {k}) <==> s in Through(n, b, d) || s in Completions(n, b + [k])
  {
    InBoards(n, n, s);
    if s in Completions(n, b + [k]) { assert b <= b + [k] <= s; assert s[|b|] == k; }
    if s in Through(n, b, d + {k}) && s[|b|] == k { assert s[..|b| + 1] == b + [k]; }
  }

  /** Trying one more column adds exactly the completions of the extended board. */
  lemma ThroughOneMore(n: nat, b: seq<nat>, d: set<nat>, k: nat)
    requires |b| < n && k !in d
    ensures |Through(n, b, d + {k})| == |Through(n, b, d)| + |Completions(n, b + [k])|
  {
    var t, c, u := Through(n, b, d), Completions(n, b + [k]), Through(n, b, d + {k});
    forall s ensures s in u <==> s in t || s in c { InThrough(n, b, d, k, s); }
    assert u == t + c;
    forall s | s in t ensures s !in c { assert (b + [k])[|b|] == k; }
    assert t !! c;
  }

  lemma ThroughNone(n: nat, b: seq<nat>)
    ensures Through(n, b, {}) == {} && Word32(|Through(n, b, {})|) == 0
  {
    hide Completions, Pow2;
    assert Through(n, b, {}) == {};
  }

  lemma CountOneMore(n: nat, b: seq<nat>, d: set<nat>, k: nat, x: nat, y: nat)
    requires |b| < n && k !in d
    requires x == Word32(|Through(n, b, d)|) && y == Word32(|Completions(n, b + [k])|)
    ensures Word32(x + y) == Word32(|Through(n, b, d + {k})|)
  {
    ThroughOneMore(n, b, d, k);
    SumMod(|Through(n, b, d)|, |Completions(n, b + [k])|, Pow2(W));
  }

  lemma ThroughAll(n: nat, b: seq<nat>, d: set<nat>)
    requires |b| < n && ToTry(n, b, d, 0)
    ensures Through(n, b, d) == Completions(n, b)
  {
    forall s | s in Completions(n, b) ensures s in Through(n, b, d) {
      NextIsSafe(n, b, s);
      HasZero(s[|b|]);
    }
  }

  lemma FullBoard(n: nat, b: seq<nat>)
    requires |b| == n && OnBoard(n, b) && Peaceful(b)
    ensures Completions(n, b) == {b}
  {
    forall s ensures s in Completions(n, b) <==> s == b { InBoards(n, n, s); }
  }

  /** A peaceful board occupies as many columns as it has rows. */
  lemma {:induction false} DistinctColumns(n: nat, b: seq<nat>)
    requires OnBoard(n, b) && Peaceful(b)
    ensures |Used(b)| == |b| && Used(b) <= Below(n)
  {
    hide Peaceful, OnLeft, OnRight;
    if |b| > 0 {
      var p, c := b[..|b| - 1], b[|b| - 1];
      PeacefulPrefix(b, |b| - 1);
      DistinctColumns(n, p);
      assert b == p + [c];
      PeacefulExtend(p, c);
      assert Used(b) == Used(p) + {c};
    }
  }

  lemma SubsetEqual(a: set<nat>, b: set<nat>)
    requires a <= b && |a| == |b|
    ensures a == b
  {
    assert b == a + (b - a);
  }

  /** The test `new_cols == all` recognises exactly the last row. */
  lemma LastRow(n: nat, b: seq<nat>, cols: nat)
    requires OnBoard(n, b) && Peaceful(b)
    requires forall c: nat :: Has(cols, c) <==> c in b
    ensures cols == Pow2(n) - 1 <==> |b| == n
  {
    hide Peaceful, Has, Pow2;
    var used := Used(b);
    DistinctColumns(n, b);
    forall c: nat ensures Has(Pow2(n) - 1, c) <==> c in Below(n) { HasAllOnes(n, c); }
    if |b| == n {
      SubsetEqual(used, Below(n));
      forall c: nat ensures Has(cols, c) == Has(Pow2(n) - 1, c) { assert c in used <==> c in b; }
      SameBits(cols, Pow2(n) - 1);
    }
    if cols == Pow2(n) - 1 {
      forall c ensures c in used <==> c in Below(n) { assert Has(cols, c) <==> c in b; }
      assert used == Below(n);
    }
  }

  /** Shifting the diagonal masks moves their attacks one row down. */
  lemma EncodesNext(n: nat, b: seq<nat>, left: nat, cols: nat, right: nat, k: nat)
    requires Encodes(n, b, left, cols, right, Pow2(n) - 1)
    requires k < n && Safe(b, k) && |b| + 1 < n
    ensures Encodes(n, b + [k], Word32(2 * Or(left, Pow2(k))), Or(cols, Pow2(k)), Or(right, Pow2(k)) / 2, Pow2(n) - 1)
  {
    hide Peaceful, Has, Pow2, Or, OnLeft, OnRight;
    var bit, b' := Pow2(k), b + [k];
    PeacefulExtend(b, k);
    forall c: nat ensures Has(Or(cols, bit), c) <==> c in b' { HasOr(cols, bit, c); HasPow2(k, c); }
    forall c: nat | c < W ensures Has((2 * Or(left, bit)) % Pow2(W), c) <==> OnLeft(b', c) {
      HasShl(Or(left, bit), W, c);
      LeftNext(b, k, c);
      if c > 0 { HasOr(left, bit, c - 1); HasPow2(k, c - 1); }
    }
    forall c: nat ensures Has(Or(right, bit) / 2, c) <==> OnRight(b', c) {
      RightNext(b, k, c);
      HasHalf(Or(right, bit), c);
      HasOr(right, bit, c + 1); HasPow2(k, c + 1);
    }
    OrBelow(cols, bit, n, b');
    OrBelow32(right, k);
  }

  lemma LeftNext(b: seq<nat>, k: nat, c: nat)
    ensures OnLeft(b + [k], c) <==> c > 0 && (OnLeft(b, c - 1) || k == c - 1)
  {
    var b' := b + [k];
    if c > 0 && OnLeft(b, c - 1) {
      var r :| 0 <= r < |b| && b[r] + (|b| - r) == c - 1;
      assert b'[r] + (|b'| - r) == c;
    }
    if c > 0 && k == c - 1 { assert b'[|b|] + (|b'| - |b|) == c; }
    if OnLeft(b', c) {
      var r :| 0 <= r < |b'| && b'[r] + (|b'| - r) == c;
      if r < |b| { assert b[r] + (|b| - r) == c - 1; }
    }
  }

  lemma RightNext(b: seq<nat>, k: nat, c: nat)
    ensures OnRight(b + [k], c) <==> OnRight(b, c + 1) || k == c + 1
  {
    var b' := b + [k];
    if OnRight(b, c + 1) {
      var r :| 0 <= r < |b| && b[r] == c + 1 + (|b| - r);
      assert b'[r] == c + (|b'| - r);
    }
    if k == c + 1 { assert b'[|b|] == c + (|b'| - |b|); }
    if OnRight(b', c) {
      var r :| 0 <= r < |b'| && b'[r] == c + (|b'| - r);
      if r < |b| { assert b[r] == c + 1 + (|b| - r); }
    }
  }

  lemma OrBelow(cols: nat, bit: nat, n: nat, b: seq<nat>)
    requires n <= W && OnBoard(n, b)
    requires forall c: nat :: Has(Or(cols, bit), c) <==> c in b
    ensures Or(cols, bit) < Pow2(W)
  {
    BelowFromBits(Or(cols, bit), W);
  }

  lemma OrBelow32(x: nat, k: nat)
    requires x < Pow2(W) && k < W
    ensures Or(x, Pow2(k)) < Pow2(W)
  {
    forall i | W <= i ensures !Has(Or(x, Pow2(k)), i) {
      HasOr(x, Pow2(k), i); HasPow2(k, i);
      if Has(x, i) { HasBelow(x, W, i); }
    }
    BelowFromBits(Or(x, Pow2(k)), W);
  }

  lemma TakenBits(left: nat, cols: nat, right: nat)
    requires left < Pow2(W) && cols < Pow2(W) && right < Pow2(W)
    ensures Or(Or(left, cols), right) < Pow2(W)
    ensures forall c: nat :: Has(Or(Or(left, cols), right), c) <==> Has(left, c) || Has(cols, c) || Has(right, c)
  {
    var taken := Or(Or(left, cols), right);
    forall c: nat ensures Has(taken, c) <==> Has(left, c) || Has(cols, c) || Has(right, c) {
      HasOr(Or(left, cols), right, c); HasOr(left, cols, c);
    }
    forall c | W <= c ensures !Has(taken, c) {
      if Has(left, c) { HasBelow(left, W, c); }
      if Has(cols, c) { HasBelow(cols, W, c); }
      if Has(right, c) { HasBelow(right, W, c); }
    }
    BelowFromBits(taken, W);
  }

  lemma FreeBits(n: nat, taken: nat, poss: nat)
    requires n <= W && taken < Pow2(W) && poss == And(Not(taken, W), Pow2(n) - 1)
    ensures poss < Pow2(W)
    ensures forall c: nat :: Has(poss, c) <==> c < n && !Has(taken, c)
  {
    forall c: nat ensures Has(poss, c) <==> c < n && !Has(taken, c) {
      HasAnd(Not(taken, W), Pow2(n) - 1, c);
      HasNot(taken, W, c);
      HasAllOnes(n, c);
    }
    BelowFromBits(poss, W);
  }

  /** `poss` initially holds exactly the safe columns. */
  lemma PossIsSafe(n: nat, b: seq<nat>, left: nat, cols: nat, right: nat)
    requires Encodes(n, b, left, cols, right, Pow2(n) - 1)
    ensures Or(Or(left, cols), right) < Pow2(W)
    ensures And(Not(Or(Or(left, cols), right), W), Pow2(n) - 1) < Pow2(W)
    ensures ToTry(n, b, {}, And(Not(Or(Or(left, cols), right), W), Pow2(n) - 1))
  {
    hide And, Or, Has, Pow2, OnLeft, OnRight, Peaceful, OnBoard;
    TakenBits(left, cols, right);
    var taken := Or(Or(left, cols), right);
    var poss: nat := And(Not(taken, W), Pow2(n) - 1);
    FreeBits(n, taken, poss);
    forall c: nat ensures Has(poss, c) <==> c < n && Safe(b, c) {
      assert c < n ==> (Has(taken, c) <==> !Safe(b, c));
    }
  }

  /** One turn of the loop: `poss & -poss` picks an untried safe column `k`. */
  lemma PickColumn(n: nat, b: seq<nat>, poss: nat, tried: set<nat>) returns (k: nat)
    requires 0 < poss < Pow2(W) && ToTry(n, b, tried, poss)
    ensures And(poss, Neg(poss, W)) == Pow2(k) <= poss
    ensures k < n && k !in tried && Safe(b, k)
    ensures ToTry(n, b, tried + {k}, poss - Pow2(k))
  {
    hide Has, And, Neg, Pow2, Safe;
    k := LowBit(poss, W);
    HasMinusBit(poss, k, 0);
    var rest := poss - Pow2(k);
    forall c: nat ensures Has(rest, c) <==> c < n && Safe(b, c) && c !in tried + {k} { HasMinusBit(poss, k, c); }
  }

  /** The columns after placing a queen tell whether the board is complete. */
  lemma ColumnsFilled(n: nat, b: seq<nat>, cols: nat, k: nat)
    requires OnBoard(n, b) && Peaceful(b) && k < n && Safe(b, k)
    requires forall c: nat :: Has(cols, c) <==> c in b
    ensures Or(cols, Pow2(k)) == Pow2(n) - 1 <==> |b| + 1 == n
    ensures |b| + 1 == n ==> Word32(|Completions(n, b + [k])|) == 1
  {
    var newCols, b' := Or(cols, Pow2(k)), b + [k];
    forall c: nat ensures Has(newCols, c) <==> c in b' { HasOr(cols, Pow2(k), c); HasPow2(k, c); }
    PeacefulExtend(b, k);
    LastRow(n, b', newCols);
    assert Word32(1) == 1 by { WordSize(); }
    if |b'| == n { FullBoard(n, b'); }
  }

  /**
    `queens_try`: whatever rows its masks encode, it counts (in a 32-bit register) exactly
    the ways to complete them.
   */
  method QueensTry(left: nat, cols: nat, right: nat, all: nat, ghost n: nat, ghost b: seq<nat>) returns (solutions: nat)
    requires Encodes(n, b, left, cols, right, all)
    ensures solutions == Word32(|Completions(n, b)|)
    decreases n - |b|
  {
    hide And, Or, Neg, Has, Pow2, Word32, Safe, OnLeft, OnRight, Peaceful, OnBoard, Completions, Through;
    PossIsSafe(n, b, left, cols, right);
    solutions := 0;
    var poss: nat := And(Not(Or(Or(left, cols), right), W), all);
    ghost var tried: set<nat> := {};
    ThroughNone(n, b);
    while poss != 0
      invariant poss < Pow2(W)
      invariant ToTry(n, b, tried, poss)
      invariant solutions == Word32(|Through(n, b, tried)|)
      decreases poss
    {
      ghost var k := PickColumn(n, b, poss, tried);
      ColumnsFilled(n, b, cols, k);
      var bit := And(poss, Neg(poss, W));
      var newCols := Or(cols, bit);
      poss := poss - bit;
      var more;
      if newCols == all {
        more := 1;
      } else {
        EncodesNext(n, b, left, cols, right, k);
        more := QueensTry(Word32(2 * Or(left, bit)), newCols, Or(right, bit) / 2, all, n, b + [k]);
      }
      CountOneMore(n, b, tried, k, solutions, more);
      solutions := Word32(solutions + more);
      tried := tried + {k};
    }
    ThroughAll(n, b, tried);
  }

  function Factorial(m: nat): (f: nat) {
    if m == 0 then 1 else m * Factorial(m - 1)
  }

  ghost function SafeColumns(n: nat, b: seq<nat>): set<nat> {
    set c | c in Below(n) && Safe(b, c)
  }

  lemma SafeCount(n: nat, b: seq<nat>)
    requires OnBoard(n, b) && Peaceful(b)
    ensures |SafeColumns(n, b)| <= n - |b|
  {
    var d := SafeColumns(n, b);
    DistinctColumns(n, b);
    assert d !! Used(b);
    assert Below(n) == d + Used(b) + (Below(n) - d - Used(b));
  }

  lemma {:induction false} ThroughBound(n: nat, b: seq<nat>, d: set<nat>)
    requires |b| < n && OnBoard(n, b) && Peaceful(b)
    requires forall c | c in d :: c < n && Safe(b, c)
    ensures |Through(n, b, d)| <= |d| * Factorial(n - |b| - 1)
    decreases n - |b|, 0, |d|
  {
    hide Through, Completions, Peaceful, Factorial, Safe;
    if d == {} {
      ThroughNone(n, b);
      assert Through(n, b, d) == {};
    } else {
      var k :| k in d;
      ThroughBound(n, b, d - {k});
      ThroughOneMore(n, b, d - {k}, k);
      assert d == d - {k} + {k};
      PeacefulExtend(b, k);
      CompletionsBound(n, b + [k]);
      assert |d| * Factorial(n - |b| - 1) == (|d| - 1) * Factorial(n - |b| - 1) + Factorial(n - |b| - 1);
    }
  }

  /** A partial board has at most as many completions as its free columns have orders. */
  lemma {:induction false} CompletionsBound(n: nat, b: seq<nat>)
    requires |b| <= n && OnBoard(n, b) && Peaceful(b)
    ensures |Completions(n, b)| <= Factorial(n - |b|)
    decreases n - |b|, 1
  {
    if |b| == n {
      FullBoard(n, b);
    } else {
      var d := SafeColumns(n, b);
      forall s | s in Completions(n, b) ensures s in Through(n, b, d) { NextIsSafe(n, b, s); }
      assert Through(n, b, d) == Completions(n, b);
      ThroughBound(n, b, d);
      SafeCount(n, b);
      MulMono(|d|, Factorial(n - |b| - 1), n - |b|, Factorial(n - |b| - 1));
    }
  }

  /** Boards up to 12 columns, the ones the stressor tries, cannot overflow the 32-bit count. */
  lemma CountFits(n: nat)
    requires n <= 12
    ensures Word32(|Solutions(n)|) == |Solutions(n)|
  {
    assert |Solutions(n)| <= 479001600 by {
      CompletionsBound(n, []);
      FactorialMonotone(n, 12);
      FactorialOf12();
    }
    Word32Small(|Solutions(n)|);
  }

  lemma FactorialOf12()
    ensures Factorial(12) == 479001600
  {
    assert Factorial(3) == 6;
    assert Factorial(6) == 720;
    assert Factorial(9) == 362880;
  }

  lemma {:induction false} FactorialMonotone(a: nat, b: nat)
    requires a <= b
    ensures Factorial(a) <= Factorial(b)
    decreases b
  {
    if a < b {
      FactorialMonotone(a, b - 1);
      MulMono(1, Factorial(b - 1), b, Factorial(b - 1));
    }
  }

  /**
    `stress_cpu_queens` for one size: the mask is grown as `all = all + all + 1`, and the
    count is the number of solutions (modulo the register's width; exact for the sizes the
    stressor uses).
   */
  method CountQueens(n: nat) returns (solutions: nat)
    requires 1 <= n <= W
    ensures solutions == Word32(|Solutions(n)|)
    ensures n <= 12 ==> solutions == |Solutions(n)|
  {
    var all, m := 1, 1;
    while m < n
      invariant 1 <= m <= n && all == Pow2(m) - 1
    {
      all, m := all + all + 1, m + 1;
    }
    forall c: nat ensures !Has(0, c) { HasZero(c); }
    solutions := QueensTry(0, 0, 0, all, n, []);
    if n <= 12 { CountFits(n); }
  }
}

/** The N-Queens benchmark: count the ways to place n non-attacking queens
    on an n x n board, one queen per row. A board is the sequence of the
    columns of the queens placed so far, row by row (the `char` buffer of
    the source; with n <= 127 every column fits a `char`). The recursion of
    the counters is specified by `Count`; `Solutions` is the set of complete
    placements it is proved to count. */
module NQueens {
  import opened Bots

  // ---------------------------------------------------------------------
  // Boards and the reference set of solutions

  /** Queens at columns `p` and `q`, `d` rows apart, attack each other: same
      column or same diagonal. */
  predicate Attacks(p: int, q: int, d: int)
  {
    q == p || q == p - d || q == p + d
  }

  /** No two queens of the placement attack each other. */
  predicate PairwiseSafe(a: seq<int>)
  {
    forall i, j :: 0 <= i < j < |a| ==> !Attacks(a[i], a[j], j - i)
  }

  /** Every column lies on the n x n board. */
  predicate OnBoard(a: seq<int>, n: int)
  {
    forall k :: 0 <= k < |a| ==> 0 <= a[k] < n
  }

  /** All placements of `k` queens on a board of width `n`. */
  ghost function Boards(n: nat, k: nat): set<seq<int>>
  {
    if k == 0 then {[]}
    else set b, c | b in Boards(n, k - 1) && 0 <= c < n :: b + [c]
  }

  lemma {:induction false} BoardsMembers(n: nat, k: nat, s: seq<int>)
    ensures s in Boards(n, k) <==> |s| == k && OnBoard(s, n)
  {
    if s in Boards(n, k) {
      BoardsAreOnBoard(n, k, s);
    }
    if |s| == k && OnBoard(s, n) {
      OnBoardInBoards(n, k, s);
    }
  }

  lemma {:induction false} BoardsAreOnBoard(n: nat, k: nat, s: seq<int>)
    requires s in Boards(n, k)
    ensures |s| == k && OnBoard(s, n)
  {
    if k > 0 {
      var b, c :| b in Boards(n, k - 1) && 0 <= c < n && s == b + [c];
      BoardsAreOnBoard(n, k - 1, b);
    }
  }

  lemma {:induction false} OnBoardInBoards(n: nat, k: nat, s: seq<int>)
    requires |s| == k && OnBoard(s, n)
    ensures s in Boards(n, k)
  {
    if k > 0 {
      var b := s[..k - 1];
      OnBoardInBoards(n, k - 1, b);
      assert s == b + [s[k - 1]];
    }
  }

  /** The complete non-attacking placements that extend the prefix `p`. */
  ghost function Solutions(n: nat, p: seq<int>): set<seq<int>>
  {
    set s | s in Boards(n, n) && |p| <= |s| && s[..|p|] == p && PairwiseSafe(s)
  }

  // ---------------------------------------------------------------------
  // The counting recursion

  /** The count `nqueens_ser(n, j, a, ...)` produces for the prefix `p ==
      a[..j]`: 1 for a full board, otherwise the sum over the columns of the
      next row of the counts of the extensions that `ok` accepts. */
  function Count(n: nat, p: seq<int>): nat
    requires |p| <= n
    decreases n - |p|, 1, 0
  {
    if |p| == n then 1 else CountColumns(n, p, n)
  }

  /** The sum of the branch counts for the columns 0 .. i - 1 of row |p|. */
  function CountColumns(n: nat, p: seq<int>, i: int): nat
    requires |p| < n && 0 <= i <= n
    decreases n - |p|, 0, i
  {
    if i == 0 then 0 else CountColumns(n, p, i - 1) + Branch(n, p, i - 1)
  }

  /** The count of the branch that puts the next queen in column `c`
      (`csols[c]` of the task-parallel versions). */
  function Branch(n: nat, p: seq<int>, c: int): nat
    requires |p| < n
    decreases n - |p|, 0, 0
  {
    if PairwiseSafe(p + [c]) then Count(n, p + [c]) else 0
  }

  /** The placements with prefix `p` whose queen in row |p| stands left of
      column `i`. */
  ghost function SolutionsLeftOf(n: nat, p: seq<int>, i: int): set<seq<int>>
  {
    set s | s in Solutions(n, p) && |p| < |s| && s[|p|] < i
  }

  /** The counting recursion counts exactly the complete non-attacking
      placements that extend a non-attacking prefix on the board. */
  lemma {:induction false} CountIsSolutions(n: nat, p: seq<int>)
    requires |p| <= n && OnBoard(p, n) && PairwiseSafe(p)
    ensures Count(n, p) == |Solutions(n, p)|
    decreases n - |p|, 1, 0
  {
    if |p| == n {
      BoardsMembers(n, n, p);
      forall s | s in Solutions(n, p)
        ensures s == p
      {
        BoardsMembers(n, n, s);
        assert s == s[..|p|];
      }
      assert p in Solutions(n, p);
      assert Solutions(n, p) == {p};
    } else {
      CountColumnsIsSolutionsLeftOf(n, p, n);
      forall s | s in Solutions(n, p)
        ensures s in SolutionsLeftOf(n, p, n)
      {
        BoardsMembers(n, n, s);
      }
      assert SolutionsLeftOf(n, p, n) == Solutions(n, p);
    }
  }

  lemma {:induction false} CountColumnsIsSolutionsLeftOf(n: nat, p: seq<int>, i: int)
    requires |p| < n && 0 <= i <= n && OnBoard(p, n) && PairwiseSafe(p)
    ensures CountColumns(n, p, i) == |SolutionsLeftOf(n, p, i)|
    decreases n - |p|, 0, i
  {
    if i == 0 {
      forall s | s in SolutionsLeftOf(n, p, 0)
        ensures false
      {
        BoardsMembers(n, n, s);
      }
      assert SolutionsLeftOf(n, p, 0) == {};
    } else {
      CountColumnsIsSolutionsLeftOf(n, p, i - 1);
      SplitLastColumn(n, p, i - 1);
      ColumnIsBranch(n, p, i - 1);
      if PairwiseSafe(p + [i - 1]) {
        CountIsSolutions(n, p + [i - 1]);
      }
    }
  }

  /** The placements with prefix `p` whose queen in row |p| is in column `c`. */
  ghost function InColumn(n: nat, p: seq<int>, c: int): set<seq<int>>
  {
    set s | s in Solutions(n, p) && |p| < |s| && s[|p|] == c
  }

  lemma SplitLastColumn(n: nat, p: seq<int>, c: int)
    ensures |SolutionsLeftOf(n, p, c + 1)| == |SolutionsLeftOf(n, p, c)| + |InColumn(n, p, c)|
  {
    assert SolutionsLeftOf(n, p, c + 1) == SolutionsLeftOf(n, p, c) + InColumn(n, p, c);
    assert SolutionsLeftOf(n, p, c) * InColumn(n, p, c) == {};
  }

  /** The placements in column `c` are those extending `p + [c]`, and there
      are none when `p + [c]` already has an attack. */
  lemma ColumnIsBranch(n: nat, p: seq<int>, c: int)
    ensures PairwiseSafe(p + [c]) ==> InColumn(n, p, c) == Solutions(n, p + [c])
    ensures !PairwiseSafe(p + [c]) ==> InColumn(n, p, c) == {}
  {
    var q := p + [c];
    forall s | s in Solutions(n, p) && |p| < |s|
      ensures s[|p|] == c <==> s[..|q|] == q
    {
      assert s[..|q|] == s[..|p|] + [s[|p|]];
    }
    forall s | s in Solutions(n, q)
      ensures s[..|p|] == p
    {
      assert s[..|p|] == s[..|q|][..|p|];
    }
    if !PairwiseSafe(q) {
      forall s | s in InColumn(n, p, c)
        ensures false
      {
        assert s[..|q|] == q;
        PrefixSafe(s, |q|);
      }
    }
  }

  /** A prefix of a non-attacking placement is non-attacking. */
  lemma PrefixSafe(s: seq<int>, k: nat)
    requires k <= |s| && PairwiseSafe(s)
    ensures PairwiseSafe(s[..k])
  {
    forall i, j | 0 <= i < j < k
      ensures !Attacks(s[..k][i], s[..k][j], j - i)
    {
      assert s[..k][i] == s[i] && s[..k][j] == s[j];
    }
  }

  // ---------------------------------------------------------------------
  // The code

  /** `ok(n, a)`: the first `n` queens of the buffer do not attack each
      other. */
  method Ok(n: int, a: array<int>) returns (r: bool)
    requires 0 <= n <= a.Length
    ensures r <==> PairwiseSafe(a[..n])
  {
    var i := 0;
    while i < n
      invariant 0 <= i <= n
      invariant forall i', j :: 0 <= i' < i && i' < j < n ==> !Attacks(a[i'], a[j], j - i')
    {
      var p := a[i];
      var j := i + 1;
      while j < n
        invariant i + 1 <= j <= n
        invariant forall j' :: i < j' < j ==> !Attacks(p, a[j'], j' - i)
      {
        var q := a[j];
        if q == p || q == p - (j - i) || q == p + (j - i) {
          assert !PairwiseSafe(a[..n]) by {
            assert a[..n][i] == p && a[..n][j] == q;
          }
          return false;
        }
        j := j + 1;
      }
      i := i + 1;
    }
    return true;
  }

  /** `nqueens_ser`: place the queen of row `j` in each column in turn,
      writing it into the shared buffer, and add the counts of the placements
      `ok` accepts. The rows before `j` are left as they were. */
  method Serial(n: int, j: int, a: array<int>) returns (solutions: int)
    requires 0 <= j <= n == a.Length <= 127
    modifies a
    ensures solutions == Count(n, old(a[..j]))
    ensures a[..j] == old(a[..j])
    decreases n - j
  {
    if n == j {
      return 1;
    }
    ghost var p := a[..j];
    solutions := 0;
    var i := 0;
    while i < n
      invariant 0 <= i <= n
      invariant a[..j] == p
      invariant solutions == CountColumns(n, p, i)
    {
      a[j] := i;
      assert a[..j + 1] == p + [i];
      var good := Ok(j + 1, a);
      if good {
        var res := Serial(n, j + 1, a);
        solutions := solutions + res;
      }
      assert a[..j] == a[..j + 1][..j];
      i := i + 1;
    }
  }

  /** The final loop of `nqueens`: the sum of the per-column counts. */
  method SumColumns(n: int, ghost p: seq<int>, csols: array<int>) returns (solutions: int)
    requires |p| < n == csols.Length
    requires forall k :: 0 <= k < n ==> csols[k] == Branch(n, p, k)
    ensures solutions == Count(n, p)
  {
    solutions := 0;
    var i := 0;
    while i < n
      invariant 0 <= i <= n
      invariant solutions == CountColumns(n, p, i)
    {
      solutions := solutions + csols[i];
      i := i + 1;
    }
  }

  /** `nqueens` under MANUAL_CUTOFF, each task of the task group read as a
      call in program order. Above the cutoff depth every column gets a task
      working on its own copy `b` of the first `j` rows, at depth + 1; at or
      below it the columns are tried in the shared buffer by `nqueens_ser`.
      The per-column counts `csols` start at zero and are summed at the end.
      Above the cutoff the caller's buffer is not written at all. */
  method NQueensCutoff(n: int, j: int, a: array<int>, depth: int, cutoff: int) returns (solutions: int)
    requires 0 <= j <= n == a.Length <= 127
    modifies a
    ensures solutions == Count(n, old(a[..j]))
    ensures a[..j] == old(a[..j])
    ensures depth < cutoff ==> a[..] == old(a[..])
    decreases n - j, 1
  {
    if n == j {
      return 1;
    }
    ghost var p := a[..j];
    var csols := new int[n](_ => 0);
    var i := 0;
    while i < n
      invariant 0 <= i <= n
      invariant a[..j] == p
      invariant depth < cutoff ==> a[..] == old(a[..])
      invariant forall k :: 0 <= k < i ==> csols[k] == Branch(n, p, k)
      invariant forall k :: i <= k < n ==> csols[k] == 0
      modifies a, csols
    {
      if depth < cutoff {
        csols[i] := CutoffTask(n, j, a, i, depth, cutoff);
      } else {
        a[j] := i;
        assert a[..j + 1] == p + [i];
        var good := Ok(j + 1, a);
        if good {
          csols[i] := Serial(n, j + 1, a);
        }
        assert a[..j] == a[..j + 1][..j];
      }
      i := i + 1;
    }
    solutions := SumColumns(n, p, csols);
  }

  /** The default `nqueens`: every column gets a task working on its own copy
      of the first `j` rows, so the caller's buffer is only read. The depth is
      passed on unchanged. */
  method NQueensDefault(n: int, j: int, a: array<int>, depth: int) returns (solutions: int)
    requires 0 <= j <= n == a.Length <= 127
    ensures solutions == Count(n, a[..j])
    decreases n - j, 1
  {
    if n == j {
      return 1;
    }
    ghost var p := a[..j];
    var csols := new int[n](_ => 0);
    var i := 0;
    while i < n
      invariant 0 <= i <= n
      invariant forall k :: 0 <= k < i ==> csols[k] == Branch(n, p, k)
      invariant forall k :: i <= k < n ==> csols[k] == 0
      modifies csols
    {
      csols[i] := DefaultTask(n, j, a, i, depth);
      i := i + 1;
    }
    solutions := SumColumns(n, p, csols);
  }

  /** The task `nqueens` spawns for column `i` above the cutoff: copy the
      first `j` rows into a fresh buffer `b`, place the queen of row `j` and,
      when `ok` accepts it, count one level deeper. It returns what it
      stores in `csols[i]`, which stays 0 when `ok` rejects the placement. */
  method CutoffTask(n: int, j: int, a: array<int>, i: int, depth: int, cutoff: int) returns (count: int)
    requires 0 <= j < n == a.Length <= 127 && 0 <= i < n
    ensures count == Branch(n, a[..j], i)
    decreases n - j, 0
  {
    var b := new int[n];
    forall k | 0 <= k < j {
      b[k] := a[k];
    }
    b[j] := i;
    assert b[..j + 1] == a[..j] + [i];
    var good := Ok(j + 1, b);
    count := 0;
    if good {
      count := NQueensCutoff(n, j + 1, b, depth + 1, cutoff);
    }
  }

  /** The task of the default `nqueens` for column `i`: as CutoffTask, with
      the depth passed on unchanged. */
  method DefaultTask(n: int, j: int, a: array<int>, i: int, depth: int) returns (count: int)
    requires 0 <= j < n == a.Length <= 127 && 0 <= i < n
    ensures count == Branch(n, a[..j], i)
    decreases n - j, 0
  {
    var b := new int[n];
    forall k | 0 <= k < j {
      b[k] := a[k];
    }
    b[j] := i;
    assert b[..j + 1] == a[..j] + [i];
    var good := Ok(j + 1, b);
    count := 0;
    if good {
      count := NQueensDefault(n, j + 1, b, depth);
    }
  }

  /** `find_queens`: count from an empty board of width `size`, with the
      MANUAL_CUTOFF or the default `nqueens`. The result is the number of
      ways to place `size` non-attacking queens. */
  method FindQueens(size: int, manualCutoff: bool, cutoff: int) returns (totalCount: int)
    requires 0 <= size <= 127
    ensures totalCount == |Solutions(size, [])|
  {
    var a := new int[size];
    if manualCutoff {
      totalCount := NQueensCutoff(size, 0, a, 0, cutoff);
    } else {
      totalCount := NQueensDefault(size, 0, a, 0);
    }
    assert a[..0] == [];
    CountIsSolutions(size, []);
  }

  /** The table `solutions` of known counts for board sizes 1 to 14
      (MAX_SOLUTIONS entries). */
  const KnownSolutions: seq<int> :=
    [1, 0, 0, 2, 10, 4, 40, 92, 352, 724, 2680, 14200, 73712, 365596]

  /** `verify_queens`: not applicable above MAX_SOLUTIONS; the comparison
      is made on `size_t`, so a negative size is not applicable either. Size
      0 would read before the table and is excluded. */
  function VerifyQueens(size: int, totalCount: int): (r: Outcome)
    requires size != 0
    ensures r == NotApplicable <==> size < 0 || size > |KnownSolutions|
    ensures r == Successful <==> 1 <= size <= |KnownSolutions| && totalCount == KnownSolutions[size - 1]
  {
    if size < 0 || size > |KnownSolutions| then NotApplicable
    else if totalCount == KnownSolutions[size - 1] then Successful
    else Unsuccessful
  }

  /** No queen of `p` from row `k` on attacks a queen in column `c` of the
      next row. */
  predicate FreeFrom(p: seq<int>, c: int, k: nat)
    decreases |p| - k
  {
    k >= |p| || (!Attacks(p[k], c, |p| - k) && FreeFrom(p, c, k + 1))
  }

  lemma {:induction false} FreeFromMeans(p: seq<int>, c: int, k: nat)
    ensures FreeFrom(p, c, k) <==> forall i :: k <= i < |p| ==> !Attacks(p[i], c, |p| - i)
    decreases |p| - k
  {
    if k < |p| {
      FreeFromMeans(p, c, k + 1);
    }
  }

  lemma SafeSnoc(p: seq<int>, c: int)
    requires PairwiseSafe(p)
    ensures PairwiseSafe(p + [c]) <==> FreeFrom(p, c, 0)
  {
    FreeFromMeans(p, c, 0);
    var q := p + [c];
    if PairwiseSafe(q) {
      forall k | 0 <= k < |p| ensures !Attacks(p[k], c, |p| - k) {
        assert q[k] == p[k] && q[|p|] == c;
      }
    }
  }

  /** The count of a node of the search on a board of width at most 4, one
      term per column. */
  lemma Node(n: nat, p: seq<int>)
    requires |p| < n <= 4 && PairwiseSafe(p)
    ensures Count(n, p) ==
      (if FreeFrom(p, 0, 0) then Count(n, p + [0]) else 0) +
      (if 1 < n && FreeFrom(p, 1, 0) then Count(n, p + [1]) else 0) +
      (if 2 < n && FreeFrom(p, 2, 0) then Count(n, p + [2]) else 0) +
      (if 3 < n && FreeFrom(p, 3, 0) then Count(n, p + [3]) else 0)
    ensures forall c :: FreeFrom(p, c, 0) ==> PairwiseSafe(p + [c])
  {
    forall c | FreeFrom(p, c, 0) || !FreeFrom(p, c, 0)
      ensures PairwiseSafe(p + [c]) <==> FreeFrom(p, c, 0)
    {
      SafeSnoc(p, c);
    }
    assert CountColumns(n, p, 1) == Branch(n, p, 0);
    if n >= 2 {
      assert CountColumns(n, p, 2) == CountColumns(n, p, 1) + Branch(n, p, 1);
    }
    if n >= 3 {
      assert CountColumns(n, p, 3) == CountColumns(n, p, 2) + Branch(n, p, 2);
    }
    if n >= 4 {
      assert CountColumns(n, p, 4) == CountColumns(n, p, 3) + Branch(n, p, 3);
    }
  }

  lemma TwoQueens(n: nat)
    requires n == 2
    ensures Count(n, []) == 0
  {
    Node(n, []);
    assert [] + [0] == [0] && [] + [1] == [1];
    Node(n, [0]);
    Node(n, [1]);
  }

  lemma ThreeQueensRow1(n: nat)
    requires n == 3
    ensures PairwiseSafe([0]) && PairwiseSafe([1]) && PairwiseSafe([2])
    ensures Count(n, []) == Count(n, [0]) + Count(n, [1]) + Count(n, [2])
  {
    Node(n, []);
    assert [] + [0] == [0] && [] + [1] == [1] && [] + [2] == [2];
  }

  lemma ThreeQueensRow2(n: nat)
    requires n == 3
    requires PairwiseSafe([0]) && PairwiseSafe([1]) && PairwiseSafe([2])
    ensures PairwiseSafe([0, 2]) && PairwiseSafe([2, 0])
    ensures Count(n, [0]) == Count(n, [0, 2]) && Count(n, [1]) == 0 && Count(n, [2]) == Count(n, [2, 0])
  {
    Node(n, [0]);
    Node(n, [1]);
    Node(n, [2]);
    assert [0] + [2] == [0, 2] && [2] + [0] == [2, 0];
  }

  lemma ThreeQueens(n: nat)
    requires n == 3
    ensures Count(n, []) == 0
  {
    ThreeQueensRow1(n);
    ThreeQueensRow2(n);
    Node(n, [0, 2]);
    Node(n, [2, 0]);
  }

  lemma FourQueensRow1(n: nat)
    requires n == 4
    ensures PairwiseSafe([0]) && PairwiseSafe([1]) && PairwiseSafe([2]) && PairwiseSafe([3])
    ensures Count(n, []) == Count(n, [0]) + Count(n, [1]) + Count(n, [2]) + Count(n, [3])
  {
    Node(n, []);
    assert [] + [0] == [0] && [] + [1] == [1] && [] + [2] == [2] && [] + [3] == [3];
  }

  lemma FourQueensRow2(n: nat)
    requires n == 4
    requires PairwiseSafe([0]) && PairwiseSafe([1]) && PairwiseSafe([2]) && PairwiseSafe([3])
    ensures PairwiseSafe([0, 2]) && PairwiseSafe([0, 3]) && PairwiseSafe([1, 3])
    ensures PairwiseSafe([2, 0]) && PairwiseSafe([3, 0]) && PairwiseSafe([3, 1])
    ensures Count(n, [0]) == Count(n, [0, 2]) + Count(n, [0, 3])
    ensures Count(n, [1]) == Count(n, [1, 3])
    ensures Count(n, [2]) == Count(n, [2, 0])
    ensures Count(n, [3]) == Count(n, [3, 0]) + Count(n, [3, 1])
  {
    Node(n, [0]); Node(n, [1]); Node(n, [2]); Node(n, [3]);
    assert [0] + [2] == [0, 2] && [0] + [3] == [0, 3] && [1] + [3] == [1, 3];
    assert [2] + [0] == [2, 0] && [3] + [0] == [3, 0] && [3] + [1] == [3, 1];
  }

  lemma FourQueensRow3(n: nat)
    requires n == 4
    requires PairwiseSafe([0, 2]) && PairwiseSafe([0, 3]) && PairwiseSafe([1, 3]) && PairwiseSafe([2, 0]) && PairwiseSafe([3, 0]) && PairwiseSafe([3, 1])
    ensures PairwiseSafe([0, 3, 1]) && PairwiseSafe([1, 3, 0]) && PairwiseSafe([2, 0, 3]) && PairwiseSafe([3, 0, 2])
    ensures Count(n, [0, 2]) == 0 && Count(n, [3, 1]) == 0
    ensures Count(n, [0, 3]) == Count(n, [0, 3, 1])
    ensures Count(n, [1, 3]) == Count(n, [1, 3, 0])
    ensures Count(n, [2, 0]) == Count(n, [2, 0, 3])
    ensures Count(n, [3, 0]) == Count(n, [3, 0, 2])
  {
    Node(n, [0, 2]); Node(n, [0, 3]); Node(n, [1, 3]); Node(n, [2, 0]); Node(n, [3, 0]); Node(n, [3, 1]);
    assert [0, 3] + [1] == [0, 3, 1] && [1, 3] + [0] == [1, 3, 0] && [2, 0] + [3] == [2, 0, 3] && [3, 0] + [2] == [3, 0, 2];
  }

  lemma FourQueensRow4(n: nat)
    requires n == 4
    requires PairwiseSafe([0, 3, 1]) && PairwiseSafe([1, 3, 0]) && PairwiseSafe([2, 0, 3]) && PairwiseSafe([3, 0, 2])
    ensures Count(n, [0, 3, 1]) == 0 && Count(n, [3, 0, 2]) == 0
    ensures Count(n, [1, 3, 0]) == 1 && Count(n, [2, 0, 3]) == 1
  {
    Node(n, [0, 3, 1]); Node(n, [1, 3, 0]); Node(n, [2, 0, 3]); Node(n, [3, 0, 2]);
  }

  lemma FourQueens(n: nat)
    requires n == 4
    ensures Count(n, []) == 2
  {
    FourQueensRow1(n);
    FourQueensRow2(n);
    FourQueensRow3(n);
    FourQueensRow4(n);
  }
  /** A run on a board of width 1 to 4 verifies: the table entries are the
      number of complete non-attacking placements. */
  lemma SmallBoardsVerify(size: int)
    requires 1 <= size <= 4
    ensures |Solutions(size, [])| == KnownSolutions[size - 1]
    ensures VerifyQueens(size, |Solutions(size, [])|) == Successful
  {
    CountIsSolutions(size, []);
    if size == 2 {
      TwoQueens(size);
    } else if size == 3 {
      ThreeQueens(size);
    } else if size == 4 {
      FourQueens(size);
    }
  }
}

/** The Fibonacci benchmark: the serial recursion `fib_seq`, the task-parallel
    `fib` in its MANUAL_CUTOFF and default forms (each spawned child read as a
    direct call), the table of known values and the verifier that checks a
    parallel result against the serial one or against the table. */
module Fib {
  import opened Bots

  /** The mathematical Fibonacci numbers, the reference every variant is
      proved against. */
  function Fib(n: nat): nat
  {
    if n < 2 then n else Fib(n - 1) + Fib(n - 2)
  }

  /** FIB_RESULTS_PRE and the precomputed table `fib_results`. */
  const FibResultsPre: nat := 41
  const FibResults: seq<int> := [0, 1, 1, 2, 3, 5, 8, 13, 21, 34, 55, 89, 144, 233, 377,
    610, 987, 1597, 2584, 4181, 6765, 10946, 17711, 28657, 46368, 75025, 121393,
    196418, 317811, 514229, 832040, 1346269, 2178309, 3524578, 5702887, 9227465,
    14930352, 24157817, 39088169, 63245986, 102334155]

  /** The table starts 0, 1 and every later entry is the sum of the two before it. */
  lemma FibResultsRecurrence()
    ensures |FibResults| == FibResultsPre
    ensures FibResults[0] == 0 && FibResults[1] == 1
    ensures forall k :: 2 <= k < FibResultsPre ==> FibResults[k] == FibResults[k - 1] + FibResults[k - 2]
  {
  }

  /** Entry `k` of `fib_results` is the k-th Fibonacci number. */
  lemma {:induction false} FibResultsCorrect(k: nat)
    requires k < FibResultsPre
    ensures |FibResults| == FibResultsPre && FibResults[k] == Fib(k)
  {
    FibResultsRecurrence();
    if k >= 2 {
      FibResultsCorrect(k - 1);
      FibResultsCorrect(k - 2);
    }
  }

  lemma {:induction false} FibMonotone(m: nat, n: nat)
    requires m <= n
    ensures Fib(m) <= Fib(n)
    decreases n - m
  {
    if m < n {
      FibMonotone(m, n - 1);
      assert Fib(n - 1) <= Fib(n) by {
        if n >= 2 {
          assert Fib(n) == Fib(n - 1) + Fib(n - 2);
        }
      }
    }
  }

  /** Fib(46) is the largest Fibonacci number a C `int` holds: this is why the
      `int` intermediates of `fib_seq` are exact up to n = 46 and no further,
      while a `long long` holds Fib(47). */
  lemma FibIntBoundary()
    ensures Fib(46) <= IntMax < Fib(47) <= LLongMax
  {
    FibAt45();
    FibNext(45, 1134903170, 1836311903);
  }

  /** Fib(92) is the largest Fibonacci number a C `long long` holds: the
      default `fib` and `fib_verify_value` are exact up to n = 92. */
  lemma FibLongLongBoundary()
    ensures Fib(92) <= LLongMax < Fib(93)
  {
    FibAt92();
  }

  /** The last two entries of the table. */
  lemma FibTableEnd()
    ensures Fib(39) == 63245986 && Fib(40) == 102334155
  {
    FibResultsCorrect(39);
    FibResultsCorrect(40);
  }

  /** The first Fibonacci numbers past the table. */
  lemma FibBeyondTable()
    ensures Fib(43) == 433494437 && Fib(44) == 701408733
  {
    FibTableEnd();
    FibNext(39, 63245986, 102334155);
    FibNext(40, 102334155, 165580141);
    FibNext(41, 165580141, 267914296);
    FibNext(42, 267914296, 433494437);
  }

  /** Fibonacci numbers 45 and 46. */
  lemma FibAt45()
    ensures Fib(45) == 1134903170 && Fib(46) == 1836311903
  {
    FibBeyondTable();
    FibNext(43, 433494437, 701408733);
    FibNext(44, 701408733, 1134903170);
  }

  /** Fibonacci numbers 56 and 57. */
  lemma FibAt56()
    ensures Fib(56) == 225851433717 && Fib(57) == 365435296162
  {
    FibAt45();
    FibNext(45, 1134903170, 1836311903);
    FibNext(46, 1836311903, 2971215073);
    FibNext(47, 2971215073, 4807526976);
    FibNext(48, 4807526976, 7778742049);
    FibNext(49, 7778742049, 12586269025);
    FibNext(50, 12586269025, 20365011074);
    FibNext(51, 20365011074, 32951280099);
    FibNext(52, 32951280099, 53316291173);
    FibNext(53, 53316291173, 86267571272);
    FibNext(54, 86267571272, 139583862445);
    FibNext(55, 139583862445, 225851433717);
  }

  /** Fibonacci numbers 68 and 69. */
  lemma FibAt68()
    ensures Fib(68) == 72723460248141 && Fib(69) == 117669030460994
  {
    FibAt56();
    FibNext(56, 225851433717, 365435296162);
    FibNext(57, 365435296162, 591286729879);
    FibNext(58, 591286729879, 956722026041);
    FibNext(59, 956722026041, 1548008755920);
    FibNext(60, 1548008755920, 2504730781961);
    FibNext(61, 2504730781961, 4052739537881);
    FibNext(62, 4052739537881, 6557470319842);
    FibNext(63, 6557470319842, 10610209857723);
    FibNext(64, 10610209857723, 17167680177565);
    FibNext(65, 17167680177565, 27777890035288);
    FibNext(66, 27777890035288, 44945570212853);
    FibNext(67, 44945570212853, 72723460248141);
  }

  /** Fibonacci numbers 80 and 81. */
  lemma FibAt80()
    ensures Fib(80) == 23416728348467685 && Fib(81) == 37889062373143906
  {
    FibAt68();
    FibNext(68, 72723460248141, 117669030460994);
    FibNext(69, 117669030460994, 190392490709135);
    FibNext(70, 190392490709135, 308061521170129);
    FibNext(71, 308061521170129, 498454011879264);
    FibNext(72, 498454011879264, 806515533049393);
    FibNext(73, 806515533049393, 1304969544928657);
    FibNext(74, 1304969544928657, 2111485077978050);
    FibNext(75, 2111485077978050, 3416454622906707);
    FibNext(76, 3416454622906707, 5527939700884757);
    FibNext(77, 5527939700884757, 8944394323791464);
    FibNext(78, 8944394323791464, 14472334024676221);
    FibNext(79, 14472334024676221, 23416728348467685);
  }

  /** Fibonacci numbers 92 and 93. */
  lemma FibAt92()
    ensures Fib(92) == 7540113804746346429 && Fib(93) == 12200160415121876738
  {
    FibAt80();
    FibNext(80, 23416728348467685, 37889062373143906);
    FibNext(81, 37889062373143906, 61305790721611591);
    FibNext(82, 61305790721611591, 99194853094755497);
    FibNext(83, 99194853094755497, 160500643816367088);
    FibNext(84, 160500643816367088, 259695496911122585);
    FibNext(85, 259695496911122585, 420196140727489673);
    FibNext(86, 420196140727489673, 679891637638612258);
    FibNext(87, 679891637638612258, 1100087778366101931);
    FibNext(88, 1100087778366101931, 1779979416004714189);
    FibNext(89, 1779979416004714189, 2880067194370816120);
    FibNext(90, 2880067194370816120, 4660046610375530309);
    FibNext(91, 4660046610375530309, 7540113804746346429);
  }

  /** One step of the recurrence, on known values. */
  lemma FibNext(n: nat, a: nat, b: nat)
    requires Fib(n) == a && Fib(n + 1) == b
    ensures Fib(n + 2) == a + b
  {
  }

  /** Every Fibonacci number up to index 46 fits in a C `int`. */
  lemma FibFitsInt(n: nat)
    requires n <= 46
    ensures Fib(n) <= IntMax
  {
    FibMonotone(n, 46);
    FibIntBoundary();
  }

  /** Every Fibonacci number up to index 92 fits in a C `long long`. */
  lemma FibFitsLongLong(n: nat)
    requires n <= 92
    ensures Fib(n) <= LLongMax
  {
    FibMonotone(n, 92);
    FibLongLongBoundary();
  }

  /** `fib_seq`: plain double recursion. Its intermediates `x` and `y` are C
      `int`, so the model is restricted to the inputs whose intermediates fit
      (see FibFitsInt and FibIntBoundary). */
  function FibSeq(n: int): (r: int)
    requires n <= 46
    ensures n < 2 ==> r == n
    ensures n >= 0 ==> r == Fib(n)
    ensures r <= IntMax
    decreases n
  {
    if n < 2 then n
    else
      var x := FibSeq(n - 1);
      var y := FibSeq(n - 2);
      FibFitsInt(n);
      x + y
  }

  /** `fib(n, d)` under MANUAL_CUTOFF: above the cutoff depth both children
      are spawned with depth d + 1; at or below it the children are computed
      by `fib_seq`. Its own `long long` intermediates are exact up to n = 92;
      the levels at or below the cutoff need n - 1 <= 46 for `fib_seq`, and
      every level above the cutoff lowers n by at least one before that. */
  function FibCutoff(n: int, d: int, cutoff: int): (r: int)
    requires n <= 92 && n <= 47 + (if d < cutoff then cutoff - d else 0)
    ensures n < 2 ==> r == n
    ensures n >= 0 ==> r == Fib(n)
    ensures r <= LLongMax
    decreases n
  {
    if n < 2 then n
    else if d < cutoff then
      var x := FibCutoff(n - 1, d + 1, cutoff);
      var y := FibCutoff(n - 2, d + 1, cutoff);
      FibFitsLongLong(n);
      x + y
    else
      var x := FibSeq(n - 1);
      var y := FibSeq(n - 2);
      FibFitsLongLong(n);
      x + y
  }

  /** The default `fib(n)`: both children are always spawned. Its `long long`
      intermediates hold every Fibonacci number up to index 92
      (FibLongLongBoundary). */
  function FibDefault(n: int): (r: int)
    requires n <= 92
    ensures n < 2 ==> r == n
    ensures n >= 0 ==> r == Fib(n)
    ensures r <= LLongMax
    decreases n
  {
    if n < 2 then n
    else
      var x := FibDefault(n - 1);
      var y := FibDefault(n - 2);
      FibFitsLongLong(n);
      x + y
  }

  /** The cutoff variant computes what the serial one does, for every
      starting depth and every cutoff value, and agrees with the default
      variant. */
  lemma CutoffInvariance(n: int, d: int, cutoff: int)
    requires n <= 46
    ensures FibCutoff(n, d, cutoff) == FibSeq(n) == FibDefault(n)
  {
  }

  /** `fib_verify_value`: the table below FIB_RESULTS_PRE, the recurrence above it. */
  function FibVerifyValue(n: int): (r: int)
    requires 0 <= n <= 92
    ensures r == Fib(n)
    decreases n
  {
    if n < FibResultsPre then
      FibResultsCorrect(n);
      FibResults[n]
    else
      FibVerifyValue(n - 1) + FibVerifyValue(n - 2)
  }

  /** What `fib_verify` returns, together with the value it leaves in the
      static `seq_res` slot. */
  datatype Verdict = Verdict(outcome: Outcome, seqRes: int)

  /** `fib_verify`: with the sequential flag set, compare the parallel result
      with the stored sequential one; otherwise first store the reference
      value `fib_verify_value(n)` and compare with that. */
  function FibVerify(n: int, sequentialFlag: bool, parRes: int, seqRes: int): (v: Verdict)
    requires !sequentialFlag ==> 0 <= n <= 92
    ensures v.outcome != NotApplicable
    ensures v.seqRes == if sequentialFlag then seqRes else Fib(n)
    ensures v.outcome == Successful <==> parRes == v.seqRes
  {
    if sequentialFlag then
      Verdict(Check(seqRes, parRes), seqRes)
    else
      var reference := FibVerifyValue(n);
      Verdict(Check(reference, parRes), reference)
  }

  /** A run of the benchmark (`fib0` storing `fib(n, 0)` in `par_res`,
      `fib0_seq` storing `fib_seq(n)` in `seq_res`) always verifies, whichever
      way `fib_verify` checks and whatever the cutoff; the same holds for the
      default `fib`. The known values fib(0) = 0, fib(1) = 1, fib(10) = 55
      are among them. */
  lemma RunVerifies(n: int, cutoff: int, sequentialFlag: bool)
    requires 0 <= n <= 46
    ensures FibVerify(n, sequentialFlag, FibCutoff(n, 0, cutoff), FibSeq(n)).outcome == Successful
    ensures FibVerify(n, sequentialFlag, FibDefault(n), FibSeq(n)).outcome == Successful
    ensures FibSeq(0) == 0 && FibSeq(1) == 1 && FibSeq(10) == 55
  {
    FibResultsCorrect(10);
  }
}

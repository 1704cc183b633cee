/** The arena set-up shared by the task-group benchmarks (`init_arenaptr`,
    copied as `init_queens` in the N-Queens benchmark): how many workers the
    arena gets and whether its workers are pinned to CPUs, decided from the
    OMP_PLACES, OMP_NUM_THREADS and OMP_PROC_BIND settings and the CPU count;
    and the pinning observer that hands the k-th worker entering the arena
    its CPU. Reading the environment, `atoi`, `get_nprocs` and setting the
    affinity are outside the model: their results are parameters. */
module Arena {
  import opened Bots

  /** The three settings as `getenv` finds them. OMP_NUM_THREADS is given as
      the value `atoi` makes of it. */
  datatype Env = Env(places: Option<string>, numThreads: Option<int>, procBind: Option<string>)

  /** Which observer the arena gets: the default one, which does nothing on
      entry, or a pinning observer. */
  datatype Observer = PlainObserver | PinningObserver(coresOnly: bool)

  datatype ArenaConfig = ArenaConfig(coresOnly: bool, maxConcurrency: int, observer: Observer)

  /** `s[0]` of a C string: the terminating NUL for the empty string. */
  function FirstChar(s: string): char
  {
    if |s| == 0 then '\0' else s[0]
  }

  /** The decision made by `init_arenaptr`, given the CPU count `get_nprocs()`
      reports. */
  function InitArena(nprocs: int, env: Env): (cfg: ArenaConfig)
    requires nprocs >= 1
    // cores-only placement: OMP_PLACES is set and does not name threads
    ensures cfg.coresOnly <==> env.places.Some? && FirstChar(env.places.value) != 't'
    // an explicit thread count wins, raised to 1 when below 1
    ensures env.numThreads.Some? ==> cfg.maxConcurrency == if env.numThreads.value < 1 then 1 else env.numThreads.value
    // otherwise one worker per CPU, or per pair of sibling CPUs (`nprocs >> 1`)
    // with cores-only placement
    ensures env.numThreads.None? && !cfg.coresOnly ==> cfg.maxConcurrency == nprocs
    ensures env.numThreads.None? && cfg.coresOnly ==> cfg.maxConcurrency == nprocs / 2
    // pinning exactly when OMP_PROC_BIND starts with 'c' (close)
    ensures cfg.observer.PinningObserver? <==> env.procBind.Some? && FirstChar(env.procBind.value) == 'c'
    ensures cfg.observer.PinningObserver? ==> cfg.observer.coresOnly == cfg.coresOnly
  {
    var coresOnly := !(env.places.None? || FirstChar(env.places.value) == 't');
    // default_conc is get_nprocs(), shifted right by one (halved) for cores
    var defaultConc := if coresOnly then nprocs / 2 else nprocs;
    var maxConcurrency :=
      match env.numThreads
      case Some(i) => if i < 1 then 1 else i
      case None => defaultConc;
    var observer :=
      if env.procBind.Some? && FirstChar(env.procBind.value) == 'c' then PinningObserver(coresOnly)
      else PlainObserver;
    ArenaConfig(coresOnly, maxConcurrency, observer)
  }

  /** Placement does not depend on the thread-count override, and the
      override, when present, does not depend on the CPU count or placement. */
  lemma SettingsIndependent(nprocs: int, nprocs': int, env: Env, k: Option<int>, places: Option<string>)
    requires nprocs >= 1 && nprocs' >= 1
    ensures InitArena(nprocs, env).coresOnly == InitArena(nprocs', env.(numThreads := k)).coresOnly
    ensures env.numThreads.Some? ==>
      InitArena(nprocs, env).maxConcurrency == InitArena(nprocs', env.(places := places)).maxConcurrency
  {
  }

  /** The arena gets at least one worker, except in one case: no override,
      cores-only placement and a single CPU, where `nprocs >> 1` is 0 and no
      clamp applies. */
  lemma ConcurrencyPositive(nprocs: int, env: Env)
    requires nprocs >= 1
    ensures InitArena(nprocs, env).maxConcurrency >= 1 <==>
      !(env.numThreads.None? && InitArena(nprocs, env).coresOnly && nprocs == 1)
  {
  }

  /** 2^32: `unsigned` arithmetic wraps modulo this. */
  const U32: int := 0x1_0000_0000

  /** The CPU given to the worker that finds the counter at `k`:
      `(k << shift) % nprocs` on 32-bit unsigned values. */
  function PinnedCpu(k: int, shift: nat, nprocs: int): (cpu: int)
    requires 0 <= k < U32 && shift <= 1 && 1 <= nprocs < U32
    ensures 0 <= cpu < nprocs
  {
    (if shift == 1 then (2 * k) % U32 else k) % nprocs
  }

  /** With cores-only placement (shift 1) and an even CPU count, every chosen
      CPU is even: the odd sibling of each core is skipped. */
  lemma CoresOnlyPinsEvenCpus(k: int, nprocs: int)
    requires 0 <= k < U32 && 1 <= nprocs < U32 && nprocs % 2 == 0
    ensures PinnedCpu(k, 1, nprocs) % 2 == 0
  {
    EvenModEven(2 * k, U32);
    EvenModEven((2 * k) % U32, nprocs);
  }

  /** An even number taken modulo an even modulus stays even. */
  lemma EvenModEven(x: int, m: int)
    requires x >= 0 && x % 2 == 0 && m > 0 && m % 2 == 0
    ensures (x % m) % 2 == 0
  {
    var q := x / m;
    assert x == q * m + x % m;
    assert q * m == 2 * (q * (m / 2));
  }

  /** Workers entering one after another get distinct CPUs while there are
      CPUs left: the first nprocs workers without cores-only placement, the
      first nprocs / 2 with it. */
  lemma DistinctCpus(k1: int, k2: int, shift: nat, nprocs: int)
    requires shift <= 1 && 1 <= nprocs < U32
    requires 0 <= k1 < k2 && (if shift == 0 then k2 < nprocs else 2 * k2 < nprocs)
    ensures PinnedCpu(k1, shift, nprocs) != PinnedCpu(k2, shift, nprocs)
  {
    ModSmall(k1, nprocs);
    ModSmall(k2, nprocs);
    if shift == 1 {
      ModSmall(2 * k1, U32);
      ModSmall(2 * k2, U32);
      ModSmall(2 * k1, nprocs);
      ModSmall(2 * k2, nprocs);
    }
  }

  lemma ModSmall(x: int, m: int)
    requires 0 <= x < m
    ensures x % m == x
  {
  }

  /** `pinning_observer`: the CPU count and shift are fixed at construction;
      the counter of entered workers is bumped on every entry and never reset,
      so an arena that is reused keeps counting where it stopped. */
  class PinningObserverState {
    const nprocs: int
    const shift: nat
    var counter: int

    ghost predicate Valid()
      reads this
    {
      1 <= nprocs < U32 && shift <= 1 && 0 <= counter < U32
    }

    constructor (coresOnly: bool, nprocs: int)
      requires 1 <= nprocs < U32
      ensures Valid()
      ensures this.nprocs == nprocs && shift == (if coresOnly then 1 else 0) && counter == 0
    {
      this.nprocs := nprocs;
      shift := if coresOnly then 1 else 0;
      counter := 0;
    }

    /** `on_scheduler_entry`: the CPU the entering worker is pinned to. */
    method OnSchedulerEntry() returns (cpu: int)
      requires Valid()
      modifies this`counter
      ensures Valid()
      ensures cpu == PinnedCpu(old(counter), shift, nprocs)
      ensures 0 <= cpu < nprocs
      ensures counter == (old(counter) + 1) % U32
    {
      cpu := PinnedCpu(counter, shift, nprocs);
      counter := (counter + 1) % U32;
    }
  }
}

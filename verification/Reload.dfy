/**
  Reloading the configuration while requests are handled: the shared pointers are
  swapped under a lock that every handler holds while it uses them.
  */
module Reload {

  // ---------- the interleaved steps ----------

  /**
    Where a thread is.  A generation numbers what one reload makes: a configuration,
    and from `Loaded` on the actions that go with it.
    */
  datatype Pc =
    | Idle
    | Allocated(gen: nat)
    | Initialized(gen: nat)
    | WithPath(gen: nat)
    | WithArgs(gen: nat)
    | WithFile(gen: nat)
    | Loaded(gen: nat)                               // the actions are loaded too
    | Locked(gen: nat)                               // inside the lock, nothing installed
    | HalfInstalled(gen: nat, oldConfig: nat)        // the configuration is new, the actions are not
    | Installed(oldConfig: nat, oldActs: nat)
    | Released(oldConfig: nat, oldActs: nat)         // outside the lock, the old state to be freed
    | FreedConfig(oldActs: nat)
    | Handling                                       // a handler inside the lock

  datatype Option = None | Some(thread: nat)

  /** `lost` are configurations that nothing points to and nobody frees. */
  datatype Sys = Sys(config: nat, acts: nat, holder: Option, nextGen: nat,
                     madeActs: set<nat>, freedConfigs: set<nat>, lost: set<nat>, freedActs: set<nat>,
                     threads: seq<Pc>)

  // The calls of a reload in order, each with its failure, and the steps of a handler.
  datatype Action =
    | AllocFails | AllocWorks | InitFails | InitWorks | PathFails | PathWorks | ArgsFail | ArgsWork
    | FileFails | FileWorks | ActsFail | ActsWork
    | TakeLock | InstallConfig | InstallActs | GiveLock | FreeOldConfig | FreeOldActs
    | HandlerLocks | HandlerUses | HandlerUnlocks

  /** A thread may take the step. */
  predicate Enabled(s: Sys, t: nat, a: Action) {
    t < |s.threads| &&
    var pc := s.threads[t];
    match a
    case AllocFails => pc.Idle?
    case AllocWorks => pc.Idle?
    case InitFails => pc.Allocated?
    case InitWorks => pc.Allocated?
    case PathFails => pc.Initialized?
    case PathWorks => pc.Initialized?
    case ArgsFail => pc.WithPath?
    case ArgsWork => pc.WithPath?
    case FileFails => pc.WithArgs?
    case FileWorks => pc.WithArgs?
    case ActsFail => pc.WithFile?
    case ActsWork => pc.WithFile?
    case TakeLock => pc.Loaded? && s.holder.None?
    case InstallConfig => pc.Locked?
    case InstallActs => pc.HalfInstalled?
    case GiveLock => pc.Installed?
    case FreeOldConfig => pc.Released?
    case FreeOldActs => pc.FreedConfig?
    case HandlerLocks => pc.Idle? && s.holder.None?
    case HandlerUses => pc.Handling?
    case HandlerUnlocks => pc.Handling?
  }

  function Move(s: Sys, t: nat, pc: Pc): Sys
    requires t < |s.threads|
  {
    s.(threads := s.threads[t := pc])
  }

  /** A reload that fails frees its configuration. */
  function GiveUp(s: Sys, t: nat, gen: nat): Sys
    requires t < |s.threads|
  {
    Move(s, t, Idle).(freedConfigs := s.freedConfigs + {gen})
  }

  /** A reload that fails returns without freeing its configuration. */
  function Lose(s: Sys, t: nat, gen: nat): Sys
    requires t < |s.threads|
  {
    Move(s, t, Idle).(lost := s.lost + {gen})
  }

  function Do(s: Sys, t: nat, a: Action): Sys
    requires Enabled(s, t, a)
  {
    var pc := s.threads[t];
    match a
    case AllocFails => s
    case AllocWorks => Move(s, t, Allocated(s.nextGen)).(nextGen := s.nextGen + 1)
    case InitFails => Lose(s, t, pc.gen)
    case InitWorks => Move(s, t, Initialized(pc.gen))
    case PathFails => GiveUp(s, t, pc.gen)
    case PathWorks => Move(s, t, WithPath(pc.gen))
    case ArgsFail => Lose(s, t, pc.gen)
    case ArgsWork => Move(s, t, WithArgs(pc.gen))
    case FileFails => GiveUp(s, t, pc.gen)
    case FileWorks => Move(s, t, WithFile(pc.gen))
    case ActsFail => GiveUp(s, t, pc.gen)
    case ActsWork => Move(s, t, Loaded(pc.gen)).(madeActs := s.madeActs + {pc.gen})
    case TakeLock => Move(s, t, Locked(pc.gen)).(holder := Some(t))
    case InstallConfig => Move(s, t, HalfInstalled(pc.gen, s.config)).(config := pc.gen)
    case InstallActs => Move(s, t, Installed(pc.oldConfig, s.acts)).(acts := pc.gen)
    case GiveLock => Move(s, t, Released(pc.oldConfig, pc.oldActs)).(holder := None)
    case FreeOldConfig => Move(s, t, FreedConfig(pc.oldActs)).(freedConfigs := s.freedConfigs + {pc.oldConfig})
    case FreeOldActs => Move(s, t, Idle).(freedActs := s.freedActs + {pc.oldActs})
    case HandlerLocks => Move(s, t, Handling).(holder := Some(t))
    case HandlerUses => s
    case HandlerUnlocks => Move(s, t, Idle).(holder := None)
  }

  function Start(n: nat): Sys { Sys(0, 0, None, 1, {0}, {}, {}, {}, seq(n, i => Idle)) }

  /** A schedule: which thread takes which step. */
  ghost predicate Possible(s: Sys, run: seq<(nat, Action)>)
    decreases |run|
  {
    run != [] ==> Enabled(s, run[0].0, run[0].1) && Possible(Do(s, run[0].0, run[0].1), run[1..])
  }

  ghost function After(s: Sys, run: seq<(nat, Action)>): Sys
    requires Possible(s, run)
    decreases |run|
  {
    if run == [] then s else After(Do(s, run[0].0, run[0].1), run[1..])
  }

  // ---------- what every step keeps ----------

  predicate InLock(pc: Pc) { pc.Locked? || pc.HalfInstalled? || pc.Installed? || pc.Handling? }

  /** The configuration that only this thread will free, install or lose. */
  function OwnConfig(pc: Pc): int {
    match pc
    case Idle => -1
    case HalfInstalled(_, c) => c
    case Installed(c, _) => c
    case Released(c, _) => c
    case FreedConfig(_) => -1
    case Handling => -1
    case _ => pc.gen
  }

  function OwnActs(pc: Pc): int {
    match pc
    case Loaded(g) => g
    case Locked(g) => g
    case HalfInstalled(g, _) => g
    case Installed(_, a) => a
    case Released(_, a) => a
    case FreedConfig(a) => a
    case _ => -1
  }

  ghost predicate LockHeld(s: Sys) {
    forall t :: 0 <= t < |s.threads| ==> (InLock(s.threads[t]) <==> s.holder == Some(t))
  }

  ghost predicate Half(s: Sys) {
    s.holder.Some? && s.holder.thread < |s.threads| && s.threads[s.holder.thread].HalfInstalled?
  }

  /** Outside a half-finished installation, both pointers are from the same load. */
  ghost predicate Paired(s: Sys) {
    s.config == if Half(s) then s.threads[s.holder.thread].gen else s.acts
  }

  /** What was made is shared, or one thread's own, or gone, and no two of these. */
  ghost predicate Owned(shared: nat, gone: set<nat>, made: set<nat>, own: seq<int>) {
    && shared in made && shared !in gone && gone <= made
    && (forall t :: 0 <= t < |own| && own[t] >= 0 ==> own[t] in made && own[t] != shared && own[t] !in gone)
    && (forall t, u :: 0 <= t < u < |own| && own[t] >= 0 ==> own[t] != own[u])
    && (forall g :: g in made ==> g == shared || g in gone || g in own)
  }

  ghost function Upto(n: nat): (r: set<nat>)
    ensures forall g: nat :: g in r <==> g < n
  {
    if n == 0 then {} else Upto(n - 1) + {n - 1}
  }

  function OwnConfigs(s: Sys): seq<int> { seq(|s.threads|, t requires 0 <= t < |s.threads| => OwnConfig(s.threads[t])) }

  function OwnActions(s: Sys): seq<int> { seq(|s.threads|, t requires 0 <= t < |s.threads| => OwnActs(s.threads[t])) }

  ghost predicate ConfigsOwned(s: Sys) {
    Owned(s.config, s.freedConfigs + s.lost, Upto(s.nextGen), OwnConfigs(s)) && s.freedConfigs !! s.lost
  }

  ghost predicate ActsOwned(s: Sys) { Owned(s.acts, s.freedActs, s.madeActs, OwnActions(s)) }

  predicate Early(pc: Pc) { pc.Allocated? || pc.Initialized? || pc.WithPath? || pc.WithArgs? || pc.WithFile? }

  /** A reload that is still loading has a generation that no actions were made for. */
  ghost predicate ActsToCome(s: Sys) {
    && (forall g :: g in s.madeActs ==> g < s.nextGen)
    && (forall t :: 0 <= t < |s.threads| && Early(s.threads[t]) ==> s.threads[t].gen !in s.madeActs)
  }

  ghost predicate Inv(s: Sys) { LockHeld(s) && Paired(s) && ConfigsOwned(s) && ActsOwned(s) && ActsToCome(s) }

  // How ownership may change.

  lemma TakeNew(shared: nat, gone: set<nat>, made: set<nat>, own: seq<int>, t: nat, g: nat)
    requires Owned(shared, gone, made, own) && t < |own| && own[t] < 0 && g !in made
    ensures Owned(shared, gone, made + {g}, own[t := g])
  {
    Replaced(own, t, g);
  }

  lemma Replaced(own: seq<int>, t: nat, x: int)
    requires t < |own|
    ensures x in own[t := x]
    ensures forall g :: g in own && g != own[t] ==> g in own[t := x]
  {
    assert own[t := x][t] == x;
    forall g | g in own && g != own[t] ensures g in own[t := x] {
      var u :| 0 <= u < |own| && own[u] == g;
      assert own[t := x][u] == g;
    }
  }

  lemma Exchange(shared: nat, gone: set<nat>, made: set<nat>, own: seq<int>, t: nat)
    requires Owned(shared, gone, made, own) && t < |own| && own[t] >= 0
    ensures Owned(own[t], gone, made, own[t := shared])
  {
    Replaced(own, t, shared);
  }

  lemma Release(shared: nat, gone: set<nat>, made: set<nat>, own: seq<int>, t: nat)
    requires Owned(shared, gone, made, own) && t < |own| && own[t] >= 0
    ensures Owned(shared, gone + {own[t]}, made, own[t := -1]) && own[t] !in gone
  {
    Replaced(own, t, -1);
  }

  lemma OneMore(n: nat)
    ensures Upto(n + 1) == Upto(n) + {n} && n !in Upto(n)
  {
  }

  lemma StepKeepsConfigs(s: Sys, t: nat, a: Action)
    requires ConfigsOwned(s) && Enabled(s, t, a)
    ensures ConfigsOwned(Do(s, t, a))
  {
    hide Owned, Upto;
    var own, s', gone, made := OwnConfigs(s), Do(s, t, a), s.freedConfigs + s.lost, Upto(s.nextGen);
    assert OwnConfigs(s') == own[t := OwnConfig(s'.threads[t])];
    if a == AllocWorks {
      OneMore(s.nextGen);
      TakeNew(s.config, gone, made, own, t, s.nextGen);
    } else if a == InstallConfig {
      Exchange(s.config, gone, made, own, t);
    } else if OwnConfig(s'.threads[t]) == own[t] {
      assert OwnConfigs(s') == own;
    } else {
      Release(s.config, gone, made, own, t);
      assert s'.freedConfigs + s'.lost == gone + {own[t]};
    }
  }

  lemma StepKeepsActs(s: Sys, t: nat, a: Action)
    requires ActsOwned(s) && ActsToCome(s) && Enabled(s, t, a)
    ensures ActsOwned(Do(s, t, a))
  {
    hide Owned;
    var own, s' := OwnActions(s), Do(s, t, a);
    assert OwnActions(s') == own[t := OwnActs(s'.threads[t])];
    match a
    case ActsWork => TakeNew(s.acts, s.freedActs, s.madeActs, own, t, s.threads[t].gen);
    case InstallActs => Exchange(s.acts, s.freedActs, s.madeActs, own, t);
    case FreeOldActs => Release(s.acts, s.freedActs, s.madeActs, own, t);
    case _ => assert OwnActions(s') == own;
  }

  /** Two threads never own the same configuration, nor one that is not made. */
  lemma ConfigsDiffer(s: Sys, t: nat, u: nat)
    requires ConfigsOwned(s) && t < |s.threads| && u < |s.threads| && OwnConfig(s.threads[t]) >= 0
    ensures OwnConfig(s.threads[t]) < s.nextGen
    ensures t != u ==> OwnConfig(s.threads[t]) != OwnConfig(s.threads[u])
  {
    var own := OwnConfigs(s);
    assert own[t] == OwnConfig(s.threads[t]) && own[u] == OwnConfig(s.threads[u]);
    assert own[t] in Upto(s.nextGen);
  }

  lemma StepKeepsActsToCome(s: Sys, t: nat, a: Action)
    requires ConfigsOwned(s) && ActsToCome(s) && Enabled(s, t, a)
    ensures ActsToCome(Do(s, t, a))
  {
    hide ConfigsOwned;
    var s' := Do(s, t, a);
    if a == ActsWork {
      ConfigsDiffer(s, t, t);
      forall u | 0 <= u < |s'.threads| && Early(s'.threads[u]) ensures s'.threads[u].gen !in s'.madeActs {
        ConfigsDiffer(s, t, u);
      }
    }
  }

  lemma StepKeepsLock(s: Sys, t: nat, a: Action)
    requires LockHeld(s) && Paired(s) && Enabled(s, t, a)
    ensures LockHeld(Do(s, t, a)) && Paired(Do(s, t, a))
  {
  }

  lemma StepKeeps(s: Sys, t: nat, a: Action)
    requires Inv(s) && Enabled(s, t, a)
    ensures Inv(Do(s, t, a))
  {
    hide LockHeld, Paired, ConfigsOwned, ActsOwned, ActsToCome, Do;
    StepKeepsLock(s, t, a);
    StepKeepsConfigs(s, t, a);
    StepKeepsActs(s, t, a);
    StepKeepsActsToCome(s, t, a);
  }

  lemma StartIsFine(n: nat)
    ensures Inv(Start(n))
  {
    var s := Start(n);
    assert Upto(1) == {0};
    assert forall t :: 0 <= t < n ==> OwnConfigs(s)[t] == -1 && OwnActions(s)[t] == -1;
  }

  lemma {:induction false} RunKeeps(s: Sys, run: seq<(nat, Action)>)
    requires Inv(s) && Possible(s, run)
    ensures Inv(After(s, run))
    decreases |run|
  {
    hide Inv;
    if run != [] {
      StepKeeps(s, run[0].0, run[0].1);
      RunKeeps(Do(s, run[0].0, run[0].1), run[1..]);
    }
  }

  lemma RunIsFine(n: nat, run: seq<(nat, Action)>)
    requires Possible(Start(n), run)
    ensures Inv(After(Start(n), run))
  {
    StartIsFine(n);
    RunKeeps(Start(n), run);
  }

  /** In every interleaving, a handler sees a configuration and actions from the same load, neither of them freed. */
  lemma HandlersAreSafe(n: nat, run: seq<(nat, Action)>, t: nat)
    requires Possible(Start(n), run)
    requires var s := After(Start(n), run); t < |s.threads| && s.threads[t].Handling?
    ensures var s := After(Start(n), run);
      && s.config == s.acts && s.config !in s.freedConfigs && s.config !in s.lost && s.acts !in s.freedActs
      && s.holder == Some(t)
  {
    RunIsFine(n, run);
  }

  /** Nothing is freed twice, and nothing is freed that is shared or lost. */
  lemma FreesAreSafe(n: nat, run: seq<(nat, Action)>, t: nat)
    requires Possible(Start(n), run)
    requires var s := After(Start(n), run); t < |s.threads|
    ensures var s := After(Start(n), run); var pc := s.threads[t];
      && (pc.Released? ==> pc.oldConfig !in s.freedConfigs && pc.oldConfig !in s.lost && pc.oldConfig != s.config)
      && (pc.FreedConfig? ==> pc.oldActs !in s.freedActs && pc.oldActs != s.acts)
      && (Early(pc) ==> pc.gen !in s.freedConfigs && pc.gen !in s.lost && pc.gen != s.config)
  {
    RunIsFine(n, run);
    OwnIsSafe(After(Start(n), run), t);
  }

  lemma OwnIsSafe(s: Sys, t: nat)
    requires ConfigsOwned(s) && ActsOwned(s) && t < |s.threads|
    ensures var c := OwnConfig(s.threads[t]); c >= 0 ==> c !in s.freedConfigs && c !in s.lost && c != s.config
    ensures var a := OwnActs(s.threads[t]); a >= 0 ==> a !in s.freedActs && a != s.acts
  {
    assert OwnConfigs(s)[t] == OwnConfig(s.threads[t]) && OwnActions(s)[t] == OwnActs(s.threads[t]);
    assert forall g :: g in s.freedConfigs || g in s.lost ==> g in s.freedConfigs + s.lost;
  }

  // ---------- what is leaked ----------

  /** The two failures that return without freeing. */
  predicate Lossy(a: Action) { a == InitFails || a == ArgsFail }

  function CountLossy(run: seq<(nat, Action)>): nat {
    if run == [] then 0 else (if Lossy(run[0].1) then 1 else 0) + CountLossy(run[1..])
  }

  lemma StepLoses(s: Sys, t: nat, a: Action)
    requires Inv(s) && Enabled(s, t, a)
    ensures |Do(s, t, a).lost| == |s.lost| + if Lossy(a) then 1 else 0
  {
    OwnIsSafe(s, t);
  }

  lemma {:induction false} RunLoses(s: Sys, run: seq<(nat, Action)>)
    requires Inv(s) && Possible(s, run)
    ensures |After(s, run).lost| == |s.lost| + CountLossy(run)
    decreases |run|
  {
    hide Inv;
    if run != [] {
      StepLoses(s, run[0].0, run[0].1);
      StepKeeps(s, run[0].0, run[0].1);
      RunLoses(Do(s, run[0].0, run[0].1), run[1..]);
    }
  }

  lemma IdleOwnsNothing(s: Sys)
    requires ConfigsOwned(s) && ActsOwned(s) && forall t :: 0 <= t < |s.threads| ==> s.threads[t].Idle?
    ensures Upto(s.nextGen) - s.freedConfigs == {s.config} + s.lost && s.config !in s.lost
    ensures s.madeActs - s.freedActs == {s.acts}
  {
    assert forall t :: 0 <= t < |s.threads| ==> OwnConfigs(s)[t] == -1;
    assert forall t :: 0 <= t < |s.threads| ==> OwnActions(s)[t] == -1;
    assert forall g :: g in s.freedConfigs || g in s.lost <==> g in s.freedConfigs + s.lost;
  }

  /**
    When all threads are idle, what was made and not freed is the installed state, and one
    configuration for each failure that loses one; so nothing leaks if and only if the run has
    no such failure.
    */
  lemma LeaksExactly(n: nat, run: seq<(nat, Action)>)
    requires Possible(Start(n), run)
    requires var s := After(Start(n), run); forall t :: 0 <= t < |s.threads| ==> s.threads[t].Idle?
    ensures var s := After(Start(n), run);
      && Upto(s.nextGen) - s.freedConfigs == {s.config} + s.lost && s.config !in s.lost
      && s.madeActs - s.freedActs == {s.acts}
      && |s.lost| == CountLossy(run)
      && (Upto(s.nextGen) - s.freedConfigs == {s.config} <==> forall i :: 0 <= i < |run| ==> !Lossy(run[i].1))
  {
    StartIsFine(n);
    RunIsFine(n, run);
    RunLoses(Start(n), run);
    NoneLossy(run);
    var s := After(Start(n), run);
    IdleOwnsNothing(s);
    LostOrNot(s.lost, s.config);
  }

  lemma LostOrNot(lost: set<nat>, config: nat)
    requires config !in lost
    ensures {config} + lost == {config} <==> |lost| == 0
  {
    if |lost| == 0 { assert lost == {}; }
    if {config} + lost == {config} { assert forall g :: g in lost ==> g in {config} + lost; }
  }

  lemma {:induction false} NoneLossy(run: seq<(nat, Action)>)
    ensures CountLossy(run) == 0 <==> forall i :: 0 <= i < |run| ==> !Lossy(run[i].1)
  {
    if run != [] {
      NoneLossy(run[1..]);
      assert forall i :: 0 < i < |run| ==> run[i] == run[1..][i - 1];
      assert forall i :: 0 <= i < |run[1..]| ==> run[1..][i] == run[i + 1];
    }
  }

  /** The shared pointers change only when a reload that has loaded everything installs them. */
  lemma {:induction false} OnlyInstallsChange(s: Sys, run: seq<(nat, Action)>)
    requires Possible(s, run)
    ensures (forall i :: 0 <= i < |run| ==> run[i].1 != InstallConfig) ==> After(s, run).config == s.config
    ensures (forall i :: 0 <= i < |run| ==> run[i].1 != InstallActs) ==> After(s, run).acts == s.acts
    decreases |run|
  {
    if run != [] {
      OnlyInstallsChange(Do(s, run[0].0, run[0].1), run[1..]);
      assert forall i :: 0 <= i < |run[1..]| ==> run[1..][i] == run[i + 1];
      assert run[0] in run;
    }
  }

  // ---------- one reload ----------

  const ENOENT: int := 2
  const ENOMEM: int := 12
  const EEXIST: int := 17

  /** What the calls inside a reload return. */
  datatype Load = Load(alloc: bool, init: int, path: bool, args: int, file: int, actions: int)

  /** What becomes of the configuration that a reload has made. */
  datatype Fate = NotMade | Lost | Freed | Kept

  // The steps that a reload takes, call by call.

  function Trace(o: Load): seq<Action> { if !o.alloc then [AllocFails] else [AllocWorks] + TraceInit(o) }

  function TraceInit(o: Load): seq<Action> { if o.init != 0 then [InitFails] else [InitWorks] + TracePath(o) }

  function TracePath(o: Load): seq<Action> { if !o.path then [PathFails] else [PathWorks] + TraceArgs(o) }

  function TraceArgs(o: Load): seq<Action> { if o.args != 0 then [ArgsFail] else [ArgsWork] + TraceFile(o) }

  function TraceFile(o: Load): seq<Action> { if o.file != 0 then [FileFails] else [FileWorks] + TraceActs(o) }

  function TraceActs(o: Load): seq<Action> { if o.actions != 0 then [ActsFail] else [ActsWork] + Install() }

  function Install(): seq<Action> {
    [TakeLock, InstallConfig, InstallActs] + ([GiveLock, FreeOldConfig, FreeOldActs] + [])
  }

  /** The steps of one thread as a schedule. */
  function By(t: nat, steps: seq<Action>): seq<(nat, Action)> {
    if steps == [] then [] else [(t, steps[0])] + By(t, steps[1..])
  }

  /** Running `steps` in thread `t` is possible and leads from `s` to `s'`. */
  ghost predicate Leads(s: Sys, t: nat, steps: seq<Action>, s': Sys) {
    Possible(s, By(t, steps)) && After(s, By(t, steps)) == s'
  }

  lemma LeadsOn(s: Sys, t: nat, a: Action, steps: seq<Action>, s': Sys)
    requires Enabled(s, t, a) && Leads(Do(s, t, a), t, steps, s')
    ensures Leads(s, t, [a] + steps, s')
  {
    assert ([a] + steps)[1..] == steps;
    assert By(t, [a] + steps)[1..] == By(t, steps);
  }

  /** What is left of `s` when thread `t` is idle again and generation `gen` has met its fate. */
  function Left(s: Sys, t: nat, gen: nat, fate: Fate): Sys
    requires t < |s.threads|
  {
    var s' := Move(s, t, Idle);
    match fate
    case NotMade => s'
    case Lost => s'.(lost := s.lost + {gen})
    case Freed => s'.(freedConfigs := s.freedConfigs + {gen})
    case Kept => s'.(config := gen, acts := gen, madeActs := s.madeActs + {gen},
                     freedConfigs := s.freedConfigs + {s.config}, freedActs := s.freedActs + {s.acts})
  }

  lemma NoSteps(s: Sys, t: nat)
    ensures Leads(s, t, [], s)
  {
  }

  lemma LeadsTo(s: Sys, t: nat, a: Action)
    requires Enabled(s, t, a)
    ensures Leads(s, t, [a], Do(s, t, a))
  {
    NoSteps(Do(s, t, a), t);
    LeadsOn(s, t, a, [], Do(s, t, a));
    assert [a] + [] == [a];
  }

  lemma LeadsOnOn(s: Sys, t: nat, a: Action, b: Action, c: Action, steps: seq<Action>, s': Sys)
    requires Enabled(s, t, a) && Enabled(Do(s, t, a), t, b) && Enabled(Do(Do(s, t, a), t, b), t, c)
    requires Leads(Do(Do(Do(s, t, a), t, b), t, c), t, steps, s')
    ensures Leads(s, t, [a, b, c] + steps, s')
  {
    hide Leads, Do, Enabled;
    LeadsOn(Do(Do(s, t, a), t, b), t, c, steps, s');
    LeadsOn(Do(s, t, a), t, b, [c] + steps, s');
    LeadsOn(s, t, a, [b] + ([c] + steps), s');
    assert [a] + ([b] + ([c] + steps)) == [a, b, c] + steps;
  }

  lemma Swapped(s: Sys, t: nat)
    requires t < |s.threads| && s.threads[t].Loaded? && s.holder.None?
    ensures Enabled(s, t, TakeLock) && Enabled(Do(s, t, TakeLock), t, InstallConfig)
    ensures Enabled(Do(Do(s, t, TakeLock), t, InstallConfig), t, InstallActs)
    ensures Do(Do(Do(s, t, TakeLock), t, InstallConfig), t, InstallActs)
            == Move(s, t, Installed(s.config, s.acts)).(config := s.threads[t].gen, acts := s.threads[t].gen,
                                                        holder := Some(t))
  {
  }

  lemma Cleaned(s: Sys, t: nat, c: nat, a: nat)
    requires t < |s.threads| && s.threads[t] == Installed(c, a)
    ensures Enabled(s, t, GiveLock) && Enabled(Do(s, t, GiveLock), t, FreeOldConfig)
    ensures Enabled(Do(Do(s, t, GiveLock), t, FreeOldConfig), t, FreeOldActs)
    ensures Do(Do(Do(s, t, GiveLock), t, FreeOldConfig), t, FreeOldActs)
            == Move(s, t, Idle).(holder := None, freedConfigs := s.freedConfigs + {c}, freedActs := s.freedActs + {a})
  {
  }

  /** Installing takes the lock, swaps both pointers, and frees the old state. */
  lemma InstallLeads(s: Sys, t: nat)
    requires t < |s.threads| && s.threads[t].Loaded? && s.holder.None? && s.threads[t].gen in s.madeActs
    ensures Leads(s, t, Install(), Left(s, t, s.threads[t].gen, Kept))
  {
    hide Leads, Do, Enabled;
    Swapped(s, t);
    var s3 := Do(Do(Do(s, t, TakeLock), t, InstallConfig), t, InstallActs);
    Cleaned(s3, t, s.config, s.acts);
    var s6 := Do(Do(Do(s3, t, GiveLock), t, FreeOldConfig), t, FreeOldActs);
    NoSteps(s6, t);
    LeadsOnOn(s3, t, GiveLock, FreeOldConfig, FreeOldActs, [], s6);
    LeadsOnOn(s, t, TakeLock, InstallConfig, InstallActs, [GiveLock, FreeOldConfig, FreeOldActs] + [], s6);
    assert s6.threads == s.threads[t := Idle];
    assert s.madeActs + {s.threads[t].gen} == s.madeActs;
  }

  lemma ActsLead(s: Sys, t: nat, o: Load, gen: nat)
    requires t < |s.threads| && s.threads[t] == WithFile(gen) && s.holder.None?
    ensures Leads(s, t, TraceActs(o), Left(s, t, gen, if o.actions != 0 then Freed else Kept))
  {
    hide Leads, Install;
    if o.actions != 0 {
      LeadsTo(s, t, ActsFail);
    } else {
      var s' := Do(s, t, ActsWork);
      InstallLeads(s', t);
      LeadsOn(s, t, ActsWork, Install(), Left(s', t, gen, Kept));
      assert s'.threads[t := Idle] == s.threads[t := Idle];
      assert s.madeActs + {gen} + {gen} == s.madeActs + {gen};
    }
  }

  /** A step that only moves the thread on changes nothing in what is left. */
  lemma MovesOn(s: Sys, t: nat, a: Action, pc: Pc, steps: seq<Action>, gen: nat, fate: Fate)
    requires Enabled(s, t, a) && Do(s, t, a) == Move(s, t, pc)
    requires Leads(Do(s, t, a), t, steps, Left(Do(s, t, a), t, gen, fate))
    ensures Leads(s, t, [a] + steps, Left(s, t, gen, fate))
  {
    hide Leads;
    var s' := Do(s, t, a);
    LeadsOn(s, t, a, steps, Left(s', t, gen, fate));
    assert s'.threads[t := Idle] == s.threads[t := Idle];
  }

  lemma FileLeads(s: Sys, t: nat, o: Load, gen: nat)
    requires t < |s.threads| && s.threads[t] == WithArgs(gen) && s.holder.None?
    ensures Leads(s, t, TraceFile(o), Left(s, t, gen, if o.file != 0 || o.actions != 0 then Freed else Kept))
  {
    hide Leads, TraceActs;
    if o.file != 0 {
      LeadsTo(s, t, FileFails);
    } else {
      ActsLead(Do(s, t, FileWorks), t, o, gen);
      MovesOn(s, t, FileWorks, WithFile(gen), TraceActs(o), gen,
              if o.actions != 0 then Freed else Kept);
    }
  }

  lemma ArgsLead(s: Sys, t: nat, o: Load, gen: nat)
    requires t < |s.threads| && s.threads[t] == WithPath(gen) && s.holder.None?
    ensures Leads(s, t, TraceArgs(o), Left(s, t, gen, if o.args != 0 then Lost
                                          else if o.file != 0 || o.actions != 0 then Freed else Kept))
  {
    hide Leads, TraceFile;
    if o.args != 0 {
      LeadsTo(s, t, ArgsFail);
    } else {
      FileLeads(Do(s, t, ArgsWork), t, o, gen);
      MovesOn(s, t, ArgsWork, WithArgs(gen), TraceFile(o), gen,
              if o.file != 0 || o.actions != 0 then Freed else Kept);
    }
  }

  lemma PathLeads(s: Sys, t: nat, o: Load, gen: nat)
    requires t < |s.threads| && s.threads[t] == Initialized(gen) && s.holder.None?
    ensures Leads(s, t, TracePath(o), Left(s, t, gen, if !o.path then Freed else if o.args != 0 then Lost
                                          else if o.file != 0 || o.actions != 0 then Freed else Kept))
  {
    hide Leads, TraceArgs;
    if !o.path {
      LeadsTo(s, t, PathFails);
    } else {
      ArgsLead(Do(s, t, PathWorks), t, o, gen);
      MovesOn(s, t, PathWorks, WithPath(gen), TraceArgs(o), gen,
              if o.args != 0 then Lost else if o.file != 0 || o.actions != 0 then Freed else Kept);
    }
  }

  lemma InitLeads(s: Sys, t: nat, o: Load, gen: nat)
    requires t < |s.threads| && s.threads[t] == Allocated(gen) && s.holder.None?
    ensures Leads(s, t, TraceInit(o), Left(s, t, gen, if o.init != 0 || (o.path && o.args != 0) then Lost
                                          else if !o.path || o.file != 0 || o.actions != 0 then Freed else Kept))
  {
    hide Leads, TracePath;
    if o.init != 0 {
      LeadsTo(s, t, InitFails);
    } else {
      PathLeads(Do(s, t, InitWorks), t, o, gen);
      MovesOn(s, t, InitWorks, Initialized(gen), TracePath(o), gen,
              if !o.path then Freed else if o.args != 0 then Lost
              else if o.file != 0 || o.actions != 0 then Freed else Kept);
    }
  }

  /** A whole reload taken alone is a run of the steps and leaves the state that its fate says. */
  lemma ReloadLeads(s: Sys, t: nat, o: Load)
    requires t < |s.threads| && s.threads[t].Idle? && s.holder.None?
    ensures var fate := if !o.alloc then NotMade else if o.init != 0 || (o.path && o.args != 0) then Lost
                        else if !o.path || o.file != 0 || o.actions != 0 then Freed else Kept;
      Leads(s, t, Trace(o), Left(s.(nextGen := s.nextGen + if o.alloc then 1 else 0), t, s.nextGen, fate))
  {
    hide Leads, TraceInit;
    if !o.alloc {
      LeadsTo(s, t, AllocFails);
      assert s.threads[t := Idle] == s.threads;
    } else {
      var s', gen := Do(s, t, AllocWorks), s.nextGen;
      InitLeads(s', t, o, gen);
      var fate := if o.init != 0 || (o.path && o.args != 0) then Lost
                  else if !o.path || o.file != 0 || o.actions != 0 then Freed else Kept;
      LeadsOn(s, t, AllocWorks, TraceInit(o), Left(s', t, gen, fate));
      assert s'.threads[t := Idle] == s.threads[t := Idle];
    }
  }

  // ---------- the handlers ----------

  /** What the calls inside a handler return, and what the request says. */
  datatype Outcome = Outcome(createPath: int, renamed: bool, hasPath: bool, dupWorks: bool, unknown: bool,
                             hasDev: bool, mkdirs: int, quirk: bool, exists_: bool, mknod: int,
                             hasMetadata: int, putMetadata: int, runCommands: int, removeMetadata: int)

  /** What a handler calls while it holds the lock, and how it starts and ends. */
  datatype Call =
    | Lock | CreatePath | Mkdirs | HasMetadata | Mknod | PutMetadata | RunCommands(seen: bool)
    | Unlink | Rmdirs | RemoveMetadata | Unlock | FreeRequest

  function When(c: bool, call: Call): seq<Call> { if c then [call] else [] }

  /** The request has a path to work on. */
  predicate Named(o: Outcome) { o.createPath == 0 && (o.renamed || (o.hasPath && o.dupWorks)) }

  /** No call has failed before metadata is written. */
  predicate Made(o: Outcome) {
    if o.hasDev then o.mkdirs == 0 && (o.quirk || o.exists_ || o.mknod == 0 || o.mknod == -EEXIST)
    else o.hasMetadata == 0 || o.hasMetadata == -ENOENT
  }

  /** The device counts as processed before. */
  predicate Seen(o: Outcome) {
    if !o.hasDev then o.hasMetadata == 0
    else if o.quirk then o.hasMetadata != 0
    else !o.exists_ && o.mknod == -EEXIST
  }

  function Calls(look: bool, node: bool, put: bool, run: bool, seen: bool): seq<Call> {
    When(look, HasMetadata) + When(node, Mknod) + When(put, PutMetadata) + When(run, RunCommands(seen))
  }

  function MakeCalls(o: Outcome): seq<Call> {
    Calls(o.quirk || !o.hasDev, o.hasDev && !o.quirk && !o.exists_,
          Made(o), Made(o) && o.putMetadata == 0, Seen(o))
  }

  /** What adding a device with a path calls. */
  function AddCalls(o: Outcome): seq<Call> {
    if o.unknown then [RunCommands(false)]
    else if !o.hasDev then MakeCalls(o)
    else [Mkdirs] + if o.mkdirs == 0 then MakeCalls(o) else []
  }

  function Place(call: Call): nat {
    match call
    case Lock => 0
    case CreatePath => 1
    case Mkdirs => 2
    case HasMetadata => 3
    case Mknod => 4
    case PutMetadata => 5
    case RunCommands(_) => 6
    case _ => 7
  }

  /** The calls come in one order, none twice, and all before place `n`. */
  ghost predicate Rising(calls: seq<Call>, n: nat) {
    && (forall i :: 0 <= i < |calls| ==> Place(calls[i]) < n)
    && (forall i, j :: 0 <= i < j < |calls| ==> Place(calls[i]) < Place(calls[j]))
  }

  lemma CallsAre(first: seq<Call>, look: bool, node: bool, put: bool, run: bool, seen: bool)
    requires Rising(first, 3)
    ensures var calls := first + Calls(look, node, put, run, seen);
      && Rising(calls, 7)
      && forall x :: x in calls <==> x in first || (x.HasMetadata? && look) || (x.Mknod? && node) ||
                                     (x.PutMetadata? && put) || (x == RunCommands(seen) && run)
  {
    hide When, Rising;
    OneMoreCall(first, look, HasMetadata);
    var c2 := first + When(look, HasMetadata);
    OneMoreCall(c2, node, Mknod);
    var c3 := c2 + When(node, Mknod);
    OneMoreCall(c3, put, PutMetadata);
    var c4 := c3 + When(put, PutMetadata);
    OneMoreCall(c4, run, RunCommands(seen));
    assert first + Calls(look, node, put, run, seen) == c4 + When(run, RunCommands(seen));
  }

  lemma FirstRises(c: bool)
    ensures var first := if c then [Mkdirs] else []; Rising(first, 3) && Rising(first, 7)
  {
  }

  lemma CommandsRise()
    ensures Rising([RunCommands(false)], 7)
  {
  }

  lemma OneMoreCall(calls: seq<Call>, c: bool, call: Call)
    requires Rising(calls, Place(call))
    ensures Rising(calls + When(c, call), Place(call) + 1)
    ensures forall x :: x in calls + When(c, call) <==> x in calls || (c && x == call)
  {
  }

  /** The call is due when a device with a path is added; `unknown` means that nobody knows the path. */
  ghost predicate Due(o: Outcome, x: Call) {
    if o.unknown then x == RunCommands(false) else
    var node := o.hasDev && o.mkdirs == 0 && !o.quirk && !o.exists_;
    var put := if o.hasDev then o.mkdirs == 0 && (node ==> o.mknod in {0, -17}) else o.hasMetadata in {0, -2};
    var seen := if !o.hasDev then o.hasMetadata == 0
                else if o.quirk then o.hasMetadata != 0 else node && o.mknod == -17;
    match x
    case Mkdirs => o.hasDev
    case HasMetadata => !o.hasDev || (o.mkdirs == 0 && o.quirk)
    case Mknod => node
    case PutMetadata => put
    case RunCommands(b) => put && o.putMetadata == 0 && b == seen
    case _ => false
  }

  /** Exactly the calls that are due are made, each once and in one order. */
  lemma AddCallsAre(o: Outcome)
    ensures Rising(AddCalls(o), 7)
    ensures forall x :: x in AddCalls(o) <==> Due(o, x)
  {
    hide Calls, Rising;
    var first := if o.hasDev then [Mkdirs] else [];
    FirstRises(o.hasDev);
    if o.unknown {
      assert Rising(AddCalls(o), 7) by { CommandsRise(); }
    } else if o.hasDev && o.mkdirs != 0 {
      assert AddCalls(o) == first;
    } else {
      assert AddCalls(o) == first + MakeCalls(o);
      CallsAre(first, o.quirk || !o.hasDev, o.hasDev && !o.quirk && !o.exists_,
               Made(o), Made(o) && o.putMetadata == 0, Seen(o));
    }
  }

  class Shared {
    var config: nat
    var acts: nat
    ghost var freedConfigs: multiset<nat>
    ghost var freedActs: multiset<nat>
    var locked: bool
    ghost var calls: seq<Call>      // what was called so far

    method ReloadLock()
      requires !locked
      modifies this`locked, this`calls
      ensures locked && calls == old(calls) + [Lock]
    {
      locked, calls := true, calls + [Lock];
    }

    method ReloadUnlock()
      requires locked
      modifies this`locked, this`calls
      ensures !locked && calls == old(calls) + [Unlock]
    {
      locked, calls := false, calls + [Unlock];
    }

    /** Loads configuration and actions of generation `gen` and installs them, or leaves the shared state alone. */
    method VdevReload(o: Load, gen: nat) returns (rc: int, ghost fate: Fate)
      requires !locked
      modifies this
      ensures rc == if !o.alloc || (o.init == 0 && !o.path) then -ENOMEM else if o.init != 0 then o.init
                    else if o.args != 0 then o.args else if o.file != 0 then o.file else o.actions
      ensures fate == if !o.alloc then NotMade else if o.init != 0 || (o.path && o.args != 0) then Lost
                      else if rc != 0 then Freed else Kept
      ensures fate != Kept ==> config == old(config) && acts == old(acts) && calls == old(calls) && !locked
      ensures fate != Kept ==> freedActs == old(freedActs)
      ensures fate == Kept ==> config == gen && acts == gen && calls == old(calls) + [Lock, Unlock] && !locked
      ensures fate == Kept ==> freedActs == old(freedActs) + multiset{old(acts)}
      ensures freedConfigs == old(freedConfigs) +
        if fate == Kept then multiset{old(config)} else if fate == Freed then multiset{gen} else multiset{}
    {
      if !o.alloc {
        return -ENOMEM, NotMade;
      }
      if o.init != 0 {
        return o.init, Lost;
      }
      if !o.path {
        freedConfigs := freedConfigs + multiset{gen};
        return -ENOMEM, Freed;
      }
      if o.args != 0 {
        return o.args, Lost;
      }
      if o.file != 0 {
        freedConfigs := freedConfigs + multiset{gen};
        return o.file, Freed;
      }
      if o.actions != 0 {
        freedConfigs := freedConfigs + multiset{gen};
        return o.actions, Freed;
      }
      ReloadLock();
      var oldConfig := config;
      config := gen;
      var oldActs := acts;
      acts := gen;
      ReloadUnlock();
      freedConfigs := freedConfigs + multiset{oldConfig};
      freedActs := freedActs + multiset{oldActs};
      rc, fate := 0, Kept;
    }

    /** A call that uses the shared configuration or actions, or works on the device. */
    method Use(call: Call)
      requires locked
      modifies this`calls
      ensures calls == old(calls) + [call]
    {
      calls := calls + [call];
    }

    /** Releases the lock and then the request. */
    method Finish()
      requires locked
      modifies this`locked, this`calls
      ensures !locked && calls == old(calls) + [Unlock, FreeRequest]
    {
      ReloadUnlock();
      calls := calls + [FreeRequest];
    }

    /** The path that the actions or the request give; false when there is no memory for it. */
    method Rename(o: Outcome) returns (rc: int, named: bool)
      requires locked
      modifies this`calls
      ensures rc == o.createPath
      ensures named == (o.renamed || (o.hasPath && o.dupWorks))
      ensures calls == old(calls) + [CreatePath]
    {
      Use(CreatePath);
      rc := o.createPath;
      named := o.renamed || (o.hasPath && o.dupWorks);
    }

    /**
      Makes the device file, unless another program does, or looks for metadata if there
      is none to make; `seen` says whether the device counts as processed before.
      */
    method MakeNode(o: Outcome) returns (rc: int, seen: bool)
      requires locked && (o.hasDev ==> o.mkdirs == 0)
      modifies this`calls
      ensures calls == old(calls) + When(o.quirk || !o.hasDev, HasMetadata)
                                  + When(o.hasDev && !o.quirk && !o.exists_, Mknod)
      ensures rc == if o.hasDev then if o.quirk || o.exists_ || o.mknod == -17 then 0 else o.mknod
                    else if o.hasMetadata == -2 then 0 else o.hasMetadata
      ensures seen == if o.hasDev then if o.quirk then o.hasMetadata != 0 else !o.exists_ && o.mknod == -17
                      else o.hasMetadata == 0
    {
      rc, seen := 0, false;
      if o.hasDev {
        if o.quirk {
          Use(HasMetadata);
          if o.hasMetadata != 0 {
            seen := true;
          }
        } else {
          if !o.exists_ {
            Use(Mknod);
            rc := o.mknod;
          }
          if rc == -EEXIST {
            rc, seen := 0, true;
          }
        }
      } else {
        Use(HasMetadata);
        rc := o.hasMetadata;
        if rc != 0 {
          if rc == -ENOENT { rc := 0; }
        } else {
          seen := true;
        }
      }
    }

    /** Device file and metadata, behind the directories. */
    method MakeAndPut(o: Outcome) returns (rc: int, seen: bool)
      requires locked && (o.hasDev ==> o.mkdirs == 0)
      modifies this`calls
      ensures calls + When(rc == 0, RunCommands(seen)) == old(calls) + MakeCalls(o)
    {
      rc, seen := MakeNode(o);
      if rc == 0 {
        Use(PutMetadata);
        rc := o.putMetadata;
      }
    }

    /** Directories, device file, metadata: the part of adding a device whose path is known. */
    method AddKnown(o: Outcome) returns (rc: int, seen: bool)
      requires locked && !o.unknown
      modifies this`calls
      ensures calls + When(rc == 0, RunCommands(seen)) == old(calls) + AddCalls(o)
      ensures o.hasDev && o.mkdirs != 0 ==> rc == o.mkdirs
    {
      hide MakeCalls;
      if o.hasDev {
        Use(Mkdirs);
        if o.mkdirs != 0 {
          return o.mkdirs, false;
        }
      }
      rc, seen := MakeAndPut(o);
    }

    method AddNamed(o: Outcome) returns (r: int)
      requires locked
      modifies this`calls
      ensures r == if !o.unknown && o.hasDev then o.mkdirs else 0
      ensures calls == old(calls) + AddCalls(o)
    {
      var rc, seen := 0, false;
      if !o.unknown {
        rc, seen := AddKnown(o);
        hide AddCalls;
        if o.hasDev && o.mkdirs != 0 {
          return rc;
        }
      }
      if rc == 0 {
        Use(RunCommands(seen));
        rc := o.runCommands;
      }
      r := 0;
    }

    method DeviceAdd(o: Outcome) returns (r: int)
      requires !locked
      modifies this
      ensures !locked
      ensures r == if o.createPath != 0 then o.createPath
                   else if !o.renamed && o.hasPath && !o.dupWorks then -12
                   else if (o.renamed || o.hasPath) && !o.unknown && o.hasDev then o.mkdirs
                   else 0
      ensures calls == old(calls) + [Lock, CreatePath] + (if Named(o) then AddCalls(o) else [])
                       + [Unlock, FreeRequest]
    {
      hide AddCalls;
      ReloadLock();
      var rc, named := Rename(o);
      if rc != 0 {
        Finish();
        return rc;
      }
      if !o.renamed {
        if !named && o.hasPath {
          Finish();
          return -ENOMEM;
        }
      }
      r := 0;
      if named {
        r := AddNamed(o);
      }
      Finish();
    }

    /**
      The commands come first. Without memory for the name the request goes on; without a name at
      all it is refused.
      */
    method DeviceRemove(o: Outcome) returns (r: int)
      requires !locked
      modifies this
      ensures !locked
      ensures r == if o.createPath != 0 then o.createPath else if !o.renamed && !o.hasPath then -12 else 0
      ensures
        var file := Named(o) && !o.unknown && o.hasDev && !o.quirk;
        calls == old(calls) + [Lock, CreatePath]
          + When(Named(o), RunCommands(true))
          + When(file, Unlink) + When(file, Rmdirs)
          + When(Named(o) && !o.unknown, RemoveMetadata)
          + [Unlock, FreeRequest]
    {
      ReloadLock();
      var rc, named := Rename(o);
      if rc != 0 {
        Finish();
        return rc;
      }
      if !o.renamed {
        if !named && !o.hasPath {
          Finish();
          return -ENOMEM;
        }
      }
      if named {
        Use(RunCommands(true));
        rc := o.runCommands;
        if rc != 0 { rc := 0; }
        if !o.unknown {
          if o.hasDev && !o.quirk {
            Use(Unlink);
            Use(Rmdirs);
          }
          Use(RemoveMetadata);
          rc := o.removeMetadata;
          if rc != 0 { rc := 0; }
        }
      }
      Finish();
      return rc;
    }

    /** The commands are run exactly if the look for metadata fails: its result 0 means that there is some. */
    method DeviceChange(o: Outcome) returns (r: int)
      requires !locked
      modifies this
      ensures !locked
      ensures r == if o.createPath != 0 then o.createPath
                   else if !o.renamed && o.hasPath && !o.dupWorks then -12 else 0
      ensures calls == old(calls) + [Lock, CreatePath]
          + When(Named(o), HasMetadata)
          + When(Named(o) && o.hasMetadata != 0, RunCommands(true))
          + [Unlock, FreeRequest]
    {
      ReloadLock();
      var rc, named := Rename(o);
      if rc != 0 {
        Finish();
        return rc;
      }
      if !o.renamed {
        if !named && o.hasPath {
          Finish();
          return -ENOMEM;
        }
      }
      if named {
        Use(HasMetadata);
        if o.hasMetadata != 0 {
          Use(RunCommands(true));
          rc := o.runCommands;
        }
      }
      Finish();
      return 0;
    }
  }
}

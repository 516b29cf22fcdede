/** The hook library under any interleaving of threads: system calls going through the entry point, nested calls
    from inside hooks, registrations of a hook object and installations of a hook. */
module HookProtocol {
  import opened Bytes
  import opened HookApi
  import Dispatch

  // ---------------------------------------------------------------------
  // Threads
  // ---------------------------------------------------------------------

  /** What a thread does next in the library. The entry point counts the call, tests and sets the flag, loads the
      hook, runs it and clears the flag; a call that finds the flag set goes straight to the kernel (`Bypass`).
      The trait dispatcher counts, locks, looks for the object, dispatches or falls back, and unlocks. The last
      four belong to `register_syscall_hooks`. Issuing a raw system call, and its return, are one step. */
  datatype Pc =
    | CountEntry | TestFlag | Bypass | LoadHook
    | RunDefault | RunLibrary
    | CountTrait | Lock | FindObject | DispatchCall | Fallback | Unlock
    | ClearFlag
    | RegLock | RegStore | RegUnlock | RegPublish

  /** A thread's re-entry flag and its calls into the library, innermost first; `gone` once it has ended. The
      counts say how often this thread was counted by the entry point, ran a hook, was bypassed, and was counted
      by the dispatcher. */
  datatype Thread = Thread(
    flag: bool, stack: seq<Pc>, gone: bool,
    counted: nat, ran: nat, bypassed: nat, traitRuns: nat)

  const IDLE: Thread := Thread(false, [], false, 0, 0, 0, 0)

  /** What the threads share: hook pointer, hook object, mutex, the two counters, and how often the dispatcher
      found no object. */
  datatype Shared = Shared(
    hook: HookPtr, registered: bool, owner: Option<nat>,
    entries: nat, traitCalls: nat, fallbacks: nat)

  datatype Sys = Sys(sh: Shared, threads: seq<Thread>)

  function IdleThreads(n: nat): (ts: seq<Thread>)
    ensures |ts| == n && forall i :: 0 <= i < n ==> ts[i] == IDLE
  {
    if n == 0 then [] else [IDLE] + IdleThreads(n - 1)
  }

  function Initial(n: nat): Sys {
    Sys(Shared(DefaultHook, false, None, 0, 0, 0), IdleThreads(n))
  }

  // ---------------------------------------------------------------------
  // Steps
  // ---------------------------------------------------------------------

  /** `Enter`: a system call arrives, from the program or from code running inside a hook. `Advance`: the
      innermost call makes its next step. `Exit`: the raw system call it is about to issue ends the thread.
      `Register` and `Install` are `register_syscall_hooks` and `__hook_init`, outside any hook. */
  datatype Act = Enter | Advance | Exit | Register | Install(h: HookPtr)

  datatype Moved = Moved(sh: Shared, th: Thread)

  /** Between the setting and the clearing of the flag. */
  predicate InHook(pc: Pc) {
    pc in {LoadHook, RunDefault, RunLibrary, CountTrait, Lock, FindObject, DispatchCall, Fallback, Unlock, ClearFlag}
  }

  predicate InTraitHook(pc: Pc) {
    pc in {CountTrait, Lock, FindObject, DispatchCall, Fallback, Unlock}
  }

  predicate Registering(pc: Pc) {
    pc in {RegLock, RegStore, RegUnlock, RegPublish}
  }

  predicate IssuesRaw(pc: Pc) {
    pc in {Bypass, RunDefault, RunLibrary, DispatchCall, Fallback}
  }

  predicate Waits(pc: Pc) {
    pc == Lock || pc == RegLock
  }

  predicate Holding(pc: Pc) {
    pc in {FindObject, DispatchCall, Fallback, Unlock, RegStore, RegUnlock}
  }

  function Go(th: Thread, pc: Pc): Thread
    requires th.stack != []
  {
    th.(stack := [pc] + th.stack[1..])
  }

  function Leave(th: Thread): Thread
    requires th.stack != []
  {
    th.(stack := th.stack[1..])
  }

  /** One step of thread `t`; `None`: not possible now. */
  function Move(sh: Shared, t: nat, th: Thread, a: Act): Option<Moved> {
    if th.gone then None else
    match a
    case Enter =>
      if th.stack == [] || InHook(th.stack[0]) then Some(Moved(sh, th.(stack := [CountEntry] + th.stack))) else None
    case Register =>
      if th.stack == [] then Some(Moved(sh, th.(stack := [RegLock]))) else None
    case Install(h) =>
      if th.stack == [] then Some(Moved(sh.(hook := h), th)) else None
    case Exit =>
      if th.stack != [] && IssuesRaw(th.stack[0]) then Some(Moved(sh, th.(gone := true))) else None
    case Advance =>
      if th.stack == [] then None else AdvanceFrom(sh, t, th)
  }

  function AdvanceFrom(sh: Shared, t: nat, th: Thread): Option<Moved>
    requires th.stack != []
  {
    match th.stack[0]
    case CountEntry => Some(Moved(sh.(entries := sh.entries + 1), Go(th, TestFlag).(counted := th.counted + 1)))
    case TestFlag =>
      Some(Moved(sh, if th.flag then Go(th, Bypass) else Go(th, LoadHook).(flag := true)))
    case Bypass => Some(Moved(sh, Leave(th).(bypassed := th.bypassed + 1)))
    case LoadHook =>
      var next := match sh.hook case DefaultHook => RunDefault case LibraryHook => RunLibrary case TraitHook => CountTrait;
      Some(Moved(sh, Go(th, next).(ran := th.ran + 1)))
    case RunDefault => Some(Moved(sh, Go(th, ClearFlag)))
    case RunLibrary => Some(Moved(sh, Go(th, ClearFlag)))
    case CountTrait =>
      Some(Moved(sh.(traitCalls := sh.traitCalls + 1), Go(th, Lock).(traitRuns := th.traitRuns + 1)))
    case Lock => if sh.owner == None then Some(Moved(sh.(owner := Some(t)), Go(th, FindObject))) else None
    case FindObject => Some(Moved(sh, Go(th, if sh.registered then DispatchCall else Fallback)))
    case DispatchCall => Some(Moved(sh, Go(th, Unlock)))
    case Fallback => Some(Moved(sh.(fallbacks := sh.fallbacks + 1), Go(th, Unlock)))
    case Unlock => Some(Moved(sh.(owner := None), Go(th, ClearFlag)))
    case ClearFlag => Some(Moved(sh, Leave(th).(flag := false)))
    case RegLock => if sh.owner == None then Some(Moved(sh.(owner := Some(t)), Go(th, RegStore))) else None
    case RegStore => Some(Moved(sh.(registered := true), Go(th, RegUnlock)))
    case RegUnlock => Some(Moved(sh.(owner := None), Go(th, RegPublish)))
    case RegPublish => Some(Moved(sh.(hook := TraitHook), Leave(th)))
  }

  datatype Turn = Turn(t: nat, a: Act)

  function Step(s: Sys, x: Turn): Option<Sys> {
    if x.t >= |s.threads| then None
    else match Move(s.sh, x.t, s.threads[x.t], x.a)
         case Some(m) => Some(Sys(m.sh, s.threads[x.t := m.th]))
         case None => None
  }

  /** A schedule: which thread does what, in order. */
  function Play(s: Sys, xs: seq<Turn>): Option<Sys>
    decreases |xs|
  {
    if xs == [] then Some(s)
    else match Step(s, xs[0])
         case Some(u) => Play(u, xs[1..])
         case None => None
  }

  lemma {:induction false} PlayAppend(s: Sys, xs: seq<Turn>, ys: seq<Turn>)
    requires Play(s, xs).Some?
    ensures Play(s, xs + ys) == Play(Play(s, xs).value, ys)
    decreases |xs|
  {
    hide Step;
    if xs == [] {
      assert xs + ys == ys;
    } else {
      PlayAppend(Step(s, xs[0]).value, xs[1..], ys);
      assert (xs + ys)[1..] == xs[1..] + ys;
    }
  }

  // ---------------------------------------------------------------------
  // The invariant
  // ---------------------------------------------------------------------

  /** The shapes a thread's calls can have. Outermost is a call of the program or a registration; a call from
      inside a hook is counted, finds the flag set and is bypassed, so nesting ends there. */
  predicate Shape(th: Thread) {
    if th.stack == [] then !th.flag
    else if |th.stack| == 1 then th.stack[0] != Bypass && (th.flag <==> InHook(th.stack[0]))
    else |th.stack| == 2 && th.flag && InHook(th.stack[1]) && th.stack[0] in {CountEntry, TestFlag, Bypass}
  }

  /** The outermost call of the thread has the mutex. */
  predicate Holds(th: Thread) {
    th.stack != [] && Holding(th.stack[|th.stack| - 1])
  }

  /** Counted, but not yet seen to run a hook or to be bypassed. */
  function Undecided(th: Thread): nat {
    if th.stack != [] && th.stack[0] in {TestFlag, LoadHook, Bypass} then 1 + Below(th) else Below(th)
  }

  /** A hook that is loading when a call arrives from inside it. */
  function Below(th: Thread): nat {
    if |th.stack| >= 2 && th.stack[1] == LoadHook then 1 else 0
  }

  predicate ThreadOk(th: Thread) {
    Shape(th) && th.counted == th.ran + th.bypassed + Undecided(th) && th.traitRuns + Uncounted(th) <= th.ran
  }

  /** A hook that ran the dispatcher and is not counted there yet. */
  function Uncounted(th: Thread): nat {
    if th.stack != [] && th.stack[|th.stack| - 1] == CountTrait then 1 else 0
  }

  function Sum(f: Thread -> nat, ts: seq<Thread>): nat {
    if ts == [] then 0 else f(ts[0]) + Sum(f, ts[1..])
  }

  const COUNTED := (th: Thread) => th.counted
  const RAN := (th: Thread) => th.ran
  const BYPASSED := (th: Thread) => th.bypassed
  const UNDECIDED := (th: Thread) => Undecided(th)
  const TRAIT_RUNS := (th: Thread) => th.traitRuns

  ghost predicate OwnerOk(s: Sys) {
    && (s.sh.owner.Some? ==> s.sh.owner.value < |s.threads|)
    && forall t: nat {:trigger s.threads[t]} :: t < |s.threads| ==> (s.sh.owner == Some(t) <==> Holds(s.threads[t]))
  }

  ghost predicate Inv(s: Sys) {
    && (forall t {:trigger s.threads[t]} :: 0 <= t < |s.threads| ==> ThreadOk(s.threads[t]))
    && OwnerOk(s)
    && s.sh.entries == Sum(COUNTED, s.threads)
    && s.sh.traitCalls == Sum(TRAIT_RUNS, s.threads)
  }

  lemma {:induction false} SumUpdate(f: Thread -> nat, ts: seq<Thread>, i: nat, th: Thread)
    requires i < |ts|
    ensures Sum(f, ts[i := th]) == Sum(f, ts) - f(ts[i]) + f(th)
  {
    if i == 0 {
      assert ts[0 := th][1..] == ts[1..];
    } else {
      SumUpdate(f, ts[1..], i - 1, th);
      assert ts[i := th][1..] == ts[1..][i - 1 := th];
    }
  }

  lemma {:induction false} SumZero(f: Thread -> nat, n: nat)
    requires f(IDLE) == 0
    ensures Sum(f, IdleThreads(n)) == 0
  {
    if n > 0 {
      SumZero(f, n - 1);
    }
  }

  /** What one step does to the moving thread, the counters and the mutex. */
  ghost predicate Keeps(sh: Shared, t: nat, th: Thread, m: Moved) {
    && ThreadOk(m.th)
    && (m.sh.owner == Some(t) <==> Holds(m.th))
    && (m.sh.owner == sh.owner ||
        (sh.owner == None && m.sh.owner == Some(t)) || (sh.owner == Some(t) && m.sh.owner == None))
    && m.sh.entries - sh.entries == m.th.counted - th.counted
    && m.sh.traitCalls - sh.traitCalls == m.th.traitRuns - th.traitRuns
  }

  lemma MoveKeeps(sh: Shared, t: nat, th: Thread, a: Act)
    requires ThreadOk(th) && (sh.owner == Some(t) <==> Holds(th)) && Move(sh, t, th, a).Some?
    ensures Keeps(sh, t, th, Move(sh, t, th, a).value)
  {
    if a == Advance {
      hide Move, Keeps, AdvanceFrom;
      assert Move(sh, t, th, a) == AdvanceFrom(sh, t, th) by { AdvanceIs(sh, t, th); }
      if |th.stack| == 2 {
        AdvanceNested(sh, t, th);
      } else if Registering(th.stack[0]) {
        AdvanceRegistration(sh, t, th);
      } else if InTraitHook(th.stack[0]) {
        AdvanceTrait(sh, t, th);
      } else {
        AdvancePlain(sh, t, th);
      }
    }
  }

  lemma AdvanceIs(sh: Shared, t: nat, th: Thread)
    requires Move(sh, t, th, Advance).Some?
    ensures th.stack != [] && Move(sh, t, th, Advance) == AdvanceFrom(sh, t, th)
  {
  }

  lemma AdvanceNested(sh: Shared, t: nat, th: Thread)
    requires ThreadOk(th) && (sh.owner == Some(t) <==> Holds(th)) && |th.stack| == 2 && AdvanceFrom(sh, t, th).Some?
    ensures Keeps(sh, t, th, AdvanceFrom(sh, t, th).value)
  {
  }

  lemma AdvanceRegistration(sh: Shared, t: nat, th: Thread)
    requires ThreadOk(th) && (sh.owner == Some(t) <==> Holds(th)) && |th.stack| == 1 && AdvanceFrom(sh, t, th).Some?
    requires Registering(th.stack[0])
    ensures Keeps(sh, t, th, AdvanceFrom(sh, t, th).value)
  {
  }

  lemma AdvanceTrait(sh: Shared, t: nat, th: Thread)
    requires ThreadOk(th) && (sh.owner == Some(t) <==> Holds(th)) && |th.stack| == 1 && AdvanceFrom(sh, t, th).Some?
    requires InTraitHook(th.stack[0])
    ensures Keeps(sh, t, th, AdvanceFrom(sh, t, th).value)
  {
  }

  lemma AdvancePlain(sh: Shared, t: nat, th: Thread)
    requires ThreadOk(th) && (sh.owner == Some(t) <==> Holds(th)) && |th.stack| == 1 && AdvanceFrom(sh, t, th).Some?
    requires !Registering(th.stack[0]) && !InTraitHook(th.stack[0])
    ensures Keeps(sh, t, th, AdvanceFrom(sh, t, th).value)
  {
  }

  lemma StepKeepsInv(s: Sys, x: Turn)
    requires Inv(s) && Step(s, x).Some?
    ensures Inv(Step(s, x).value)
  {
    hide Move, ThreadOk, Holds;
    var th := s.threads[x.t];
    MoveKeeps(s.sh, x.t, th, x.a);
    var m := Move(s.sh, x.t, th, x.a).value;
    SumUpdate(COUNTED, s.threads, x.t, m.th);
    SumUpdate(TRAIT_RUNS, s.threads, x.t, m.th);
  }

  lemma {:induction false} PlayKeepsInv(s: Sys, xs: seq<Turn>)
    requires Inv(s) && Play(s, xs).Some?
    ensures Inv(Play(s, xs).value) && |Play(s, xs).value.threads| == |s.threads|
    decreases |xs|
  {
    hide Inv;
    if xs != [] {
      StepKeepsInv(s, xs[0]);
      StepThreads(s, xs[0]);
      hide Step;
      PlayKeepsInv(Step(s, xs[0]).value, xs[1..]);
    }
  }

  lemma StepThreads(s: Sys, x: Turn)
    requires Step(s, x).Some?
    ensures |Step(s, x).value.threads| == |s.threads|
  {
    hide Move;
  }

  lemma InitialInv(n: nat)
    ensures Inv(Initial(n))
  {
    hide Sum, IdleThreads, ThreadOk, Holds;
    SumZero(COUNTED, n);
    SumZero(TRAIT_RUNS, n);
    IdleOk();
  }

  lemma IdleOk()
    ensures ThreadOk(IDLE) && !Holds(IDLE)
  {
  }

  // ---------------------------------------------------------------------
  // Safety in every reachable state
  // ---------------------------------------------------------------------

  /** The outermost call of the thread is at one of these points. */
  predicate Outermost(th: Thread, pcs: set<Pc>) {
    th.stack != [] && th.stack[|th.stack| - 1] in pcs
  }

  /** Whatever the interleaving: a thread is between setting and clearing the flag exactly when its flag is set;
      inside the dispatcher it is set; the mutex holder is the one thread past the lock; a thread waiting for the
      mutex does not hold it; and a call from inside a hook is only ever counted, checked and bypassed. */
  ghost predicate ThreadSafe(s: Sys, t: nat)
    requires t < |s.threads|
  {
    var th := s.threads[t];
    var pastLock := {FindObject, DispatchCall, Fallback, Unlock, RegStore, RegUnlock};
    && (th.flag <==> Outermost(th, {LoadHook, RunDefault, RunLibrary, CountTrait, Lock, FindObject, DispatchCall,
                                    Fallback, Unlock, ClearFlag}))
    && (Outermost(th, {CountTrait, Lock, FindObject, DispatchCall, Fallback, Unlock}) ==> th.flag)
    && (s.sh.owner == Some(t) <==> Outermost(th, pastLock))
    && (Outermost(th, pastLock) ==>
          forall u: nat {:trigger s.threads[u]} :: u < |s.threads| && u != t ==> !Outermost(s.threads[u], pastLock))
    && (Outermost(th, {Lock, RegLock}) ==> s.sh.owner != Some(t))
    && |th.stack| <= 2 && (|th.stack| == 2 ==> th.stack[0] in {CountEntry, TestFlag, Bypass})
  }

  lemma ReachableSafe(n: nat, xs: seq<Turn>, t: nat)
    requires Play(Initial(n), xs).Some? && t < n
    ensures t < |Play(Initial(n), xs).value.threads| && ThreadSafe(Play(Initial(n), xs).value, t)
  {
    InitialInv(n);
    PlayKeepsInv(Initial(n), xs);
    InvIsSafe(Play(Initial(n), xs).value, t);
  }

  lemma InvIsSafe(s: Sys, t: nat)
    requires Inv(s) && t < |s.threads|
    ensures ThreadSafe(s, t)
  {
    hide Sum, Undecided, Uncounted;
    assert ThreadOk(s.threads[t]);
    assert forall u: nat :: u < |s.threads| ==> (s.sh.owner == Some(u) <==> Holds(s.threads[u]));
  }

  /** The entry counter is the sum, over the threads, of hooks run, calls bypassed and calls under way; at most
      two per thread are under way. The dispatcher's counter never exceeds the hooks run. */
  lemma ReachableCounts(n: nat, xs: seq<Turn>)
    requires Play(Initial(n), xs).Some?
    ensures var s := Play(Initial(n), xs).value;
            && s.sh.entries == Sum(RAN, s.threads) + Sum(BYPASSED, s.threads) + Sum(UNDECIDED, s.threads)
            && Sum(UNDECIDED, s.threads) <= 2 * n
            && s.sh.traitCalls <= Sum(RAN, s.threads)
  {
    InitialInv(n);
    PlayKeepsInv(Initial(n), xs);
    hide Play;
    SumParts(Play(Initial(n), xs).value.threads);
  }

  lemma {:induction false} SumParts(ts: seq<Thread>)
    requires forall t {:trigger ts[t]} :: 0 <= t < |ts| ==> ThreadOk(ts[t])
    ensures Sum(COUNTED, ts) == Sum(RAN, ts) + Sum(BYPASSED, ts) + Sum(UNDECIDED, ts)
    ensures Sum(UNDECIDED, ts) <= 2 * |ts|
    ensures Sum(TRAIT_RUNS, ts) <= Sum(RAN, ts)
  {
    if ts != [] {
      assert ThreadOk(ts[0]);
      assert forall t :: 0 <= t < |ts| - 1 ==> ts[1..][t] == ts[t + 1];
      SumParts(ts[1..]);
    }
  }

  // ---------------------------------------------------------------------
  // Progress
  // ---------------------------------------------------------------------

  /** No thread ended while it had the mutex. */
  ghost predicate OwnerAlive(s: Sys) {
    s.sh.owner.Some? && s.sh.owner.value < |s.threads| ==> !s.threads[s.sh.owner.value].gone
  }

  predicate Pending(th: Thread) {
    !th.gone && th.stack != []
  }

  /** A thread with a call under way can move, or it waits for the mutex, which another thread holds. */
  lemma BlockedOnlyByHolder(s: Sys, t: nat)
    requires Inv(s) && t < |s.threads| && Pending(s.threads[t])
    ensures Step(s, Turn(t, Advance)).Some? ||
            (Waits(s.threads[t].stack[0]) && s.sh.owner.Some? && s.sh.owner.value != t && Holds(s.threads[s.sh.owner.value]))
  {
    assert ThreadOk(s.threads[t]);
    assert s.sh.owner == Some(t) <==> Holds(s.threads[t]);
    if s.sh.owner.Some? {
      assert s.sh.owner == Some(s.sh.owner.value);
      assert Holds(s.threads[s.sh.owner.value]);
    }
  }

  /** The holder of the mutex never waits, so as long as it has not ended some thread can move. */
  lemma SomeThreadMoves(s: Sys, t: nat) returns (u: nat)
    requires Inv(s) && OwnerAlive(s) && t < |s.threads| && Pending(s.threads[t])
    ensures u < |s.threads| && Step(s, Turn(u, Advance)).Some?
  {
    BlockedOnlyByHolder(s, t);
    u := t;
    if Step(s, Turn(t, Advance)).None? {
      u := s.sh.owner.value;
      assert ThreadOk(s.threads[u]);
      BlockedOnlyByHolder(s, u);
    }
  }

  function PcRank(pc: Pc): nat {
    match pc
    case CountEntry => 10
    case TestFlag => 9
    case LoadHook => 8
    case CountTrait => 7
    case Lock => 6
    case FindObject => 5
    case DispatchCall => 4
    case Fallback => 4
    case Unlock => 3
    case RunDefault => 2
    case RunLibrary => 2
    case ClearFlag => 1
    case Bypass => 1
    case RegLock => 4
    case RegStore => 3
    case RegUnlock => 2
    case RegPublish => 1
  }

  function StackRank(st: seq<Pc>): nat {
    if st == [] then 0 else PcRank(st[0]) + StackRank(st[1..])
  }

  const RANK := (th: Thread) => StackRank(th.stack)

  ghost predicate OnlyAdvances(xs: seq<Turn>) {
    forall i {:trigger xs[i]} :: 0 <= i < |xs| ==> xs[i].a == Advance
  }

  lemma AdvanceRanks(s: Sys, t: nat)
    requires Step(s, Turn(t, Advance)).Some?
    ensures Sum(RANK, Step(s, Turn(t, Advance)).value.threads) < Sum(RANK, s.threads)
  {
    hide Sum, AdvanceFrom;
    var m := Move(s.sh, t, s.threads[t], Advance).value;
    SumUpdate(RANK, s.threads, t, m.th);
    FromRanks(s.sh, t, s.threads[t]);
  }

  ghost predicate RankFalls(th: Thread, m: Moved) {
    StackRank(m.th.stack) < StackRank(th.stack)
  }

  lemma FromRanks(sh: Shared, t: nat, th: Thread)
    requires th.stack != [] && AdvanceFrom(sh, t, th).Some?
    ensures RankFalls(th, AdvanceFrom(sh, t, th).value)
  {
    hide RankFalls, AdvanceFrom;
    if Registering(th.stack[0]) || InTraitHook(th.stack[0]) {
      LockedRanks(sh, t, th);
    } else {
      PlainRanks(sh, t, th);
    }
  }

  lemma LockedRanks(sh: Shared, t: nat, th: Thread)
    requires th.stack != [] && (Registering(th.stack[0]) || InTraitHook(th.stack[0])) && AdvanceFrom(sh, t, th).Some?
    ensures RankFalls(th, AdvanceFrom(sh, t, th).value)
  {
  }

  lemma PlainRanks(sh: Shared, t: nat, th: Thread)
    requires th.stack != [] && !Registering(th.stack[0]) && !InTraitHook(th.stack[0]) && AdvanceFrom(sh, t, th).Some?
    ensures RankFalls(th, AdvanceFrom(sh, t, th).value)
  {
  }

  /** Calls under way take a bounded number of steps, whatever the schedule. */
  lemma {:induction false} BoundedWork(s: Sys, xs: seq<Turn>)
    requires OnlyAdvances(xs) && Play(s, xs).Some?
    ensures |xs| + Sum(RANK, Play(s, xs).value.threads) <= Sum(RANK, s.threads)
    decreases |xs|
  {
    hide Step, Sum;
    if xs != [] {
      assert xs[0] == Turn(xs[0].t, Advance);
      AdvanceRanks(s, xs[0].t);
      assert forall i :: 0 <= i < |xs| - 1 ==> xs[1..][i] == xs[i + 1];
      BoundedWork(Step(s, xs[0]).value, xs[1..]);
    }
  }

  lemma {:induction false} NoExits(s: Sys, xs: seq<Turn>)
    requires OnlyAdvances(xs) && Play(s, xs).Some?
    ensures NoHoldingExit(s, xs)
    decreases |xs|
  {
    hide Step;
    if xs != [] {
      assert xs[0].a == Advance;
      assert forall i :: 0 <= i < |xs| - 1 ==> xs[1..][i] == xs[i + 1];
      NoExits(Step(s, xs[0]).value, xs[1..]);
    }
  }

  /** All calls return: in every reachable state in which no thread ended with the mutex, a schedule that lets the
      calls under way go on is bounded, and where it can go on no further no live thread has a call under way. */
  lemma CallsReturn(n: nat, before: seq<Turn>, xs: seq<Turn>)
    requires Play(Initial(n), before).Some? && OwnerAlive(Play(Initial(n), before).value)
    requires OnlyAdvances(xs) && Play(Play(Initial(n), before).value, xs).Some?
    ensures var s := Play(Initial(n), before).value;
            var u := Play(s, xs).value;
            && |xs| <= Sum(RANK, s.threads)
            && ((forall t: nat :: Step(u, Turn(t, Advance)).None?) ==>
                  forall t: nat :: t < |u.threads| ==> !Pending(u.threads[t]))
  {
    var s := Play(Initial(n), before).value;
    InitialInv(n);
    PlayKeepsInv(Initial(n), before);
    PlayKeepsInv(s, xs);
    BoundedWork(s, xs);
    AliveExactly(s, xs);
    NoExits(s, xs);
    hide Play, Inv, OwnerAlive, Step, OnlyAdvances;
    var u := Play(s, xs).value;
    forall t: nat | t < |u.threads| && Pending(u.threads[t])
      ensures exists v: nat :: Step(u, Turn(v, Advance)).Some?
    {
      var v := SomeThreadMoves(u, t);
      assert Step(u, Turn(v, Advance)).Some?;
    }
  }

  // ---------------------------------------------------------------------
  // A thread that ends inside the dispatcher
  // ---------------------------------------------------------------------

  ghost predicate OwnerGone(s: Sys, o: nat) {
    s.sh.owner == Some(o) && o < |s.threads| && s.threads[o].gone
  }

  lemma GoneStep(s: Sys, x: Turn, o: nat)
    requires Inv(s) && OwnerGone(s, o) && Step(s, x).Some?
    ensures OwnerGone(Step(s, x).value, o)
  {
    hide Sum, ThreadOk, Holds, AdvanceFrom;
    var th := s.threads[x.t];
    assert ThreadOk(th) && (s.sh.owner == Some(x.t) <==> Holds(th));
    MoveKeeps(s.sh, x.t, th, x.a);
  }

  lemma {:induction false} GoneKept(s: Sys, xs: seq<Turn>, o: nat)
    requires Inv(s) && OwnerGone(s, o) && Play(s, xs).Some?
    ensures OwnerGone(Play(s, xs).value, o)
    decreases |xs|
  {
    hide Step, Inv, OwnerGone;
    if xs != [] {
      StepKeepsInv(s, xs[0]);
      GoneStep(s, xs[0], o);
      GoneKept(Step(s, xs[0]).value, xs[1..], o);
    }
  }

  /** A thread ends while it has the mutex. */
  predicate HoldingExit(s: Sys, x: Turn) {
    x.a == Exit && x.t < |s.threads| && Holds(s.threads[x.t])
  }

  ghost predicate NoHoldingExit(s: Sys, xs: seq<Turn>)
    requires Play(s, xs).Some?
    decreases |xs|
  {
    xs != [] ==> !HoldingExit(s, xs[0]) && NoHoldingExit(Step(s, xs[0]).value, xs[1..])
  }

  lemma StepAlive(s: Sys, x: Turn)
    requires Inv(s) && OwnerAlive(s) && Step(s, x).Some?
    ensures !HoldingExit(s, x) ==> OwnerAlive(Step(s, x).value)
    ensures HoldingExit(s, x) ==> OwnerGone(Step(s, x).value, x.t)
  {
    hide Sum, ThreadOk, Holds, AdvanceFrom;
    var th := s.threads[x.t];
    assert ThreadOk(th) && (s.sh.owner == Some(x.t) <==> Holds(th));
    MoveKeeps(s.sh, x.t, th, x.a);
    MoveGone(s.sh, x.t, th, x.a);
  }

  lemma MoveGone(sh: Shared, t: nat, th: Thread, a: Act)
    requires Move(sh, t, th, a).Some?
    ensures !th.gone && (Move(sh, t, th, a).value.th.gone <==> a == Exit)
    ensures a == Exit ==> Move(sh, t, th, a).value.sh == sh
  {
  }

  /** After any run the mutex is free or its holder alive exactly when no thread ended, in that run, while it had
      the mutex: that is, when every raw system call issued under the mutex returned. */
  lemma {:induction false} AliveExactly(s: Sys, xs: seq<Turn>)
    requires Inv(s) && OwnerAlive(s) && Play(s, xs).Some?
    ensures OwnerAlive(Play(s, xs).value) <==> NoHoldingExit(s, xs)
    decreases |xs|
  {
    hide Step, Inv, OwnerAlive, OwnerGone, HoldingExit;
    if xs != [] {
      var u := Step(s, xs[0]).value;
      StepKeepsInv(s, xs[0]);
      StepAlive(s, xs[0]);
      if HoldingExit(s, xs[0]) {
        GoneKept(u, xs[1..], xs[0].t);
        GoneMeans(Play(s, xs).value, xs[0].t);
      } else {
        AliveExactly(u, xs[1..]);
      }
    }
  }

  lemma GoneMeans(s: Sys, o: nat)
    requires OwnerGone(s, o)
    ensures !OwnerAlive(s)
  {
  }

  predicate WaitsBelow(th: Thread, pc: Pc) {
    th.stack != [] && th.stack[|th.stack| - 1] == pc && Waits(pc)
  }

  /** A thread that ends while it has the mutex keeps it for good: whatever happens later, the mutex is never
      free again, and a call that waits for it never gets on. */
  lemma {:induction false} LockedForGood(s: Sys, xs: seq<Turn>, o: nat, t: nat, pc: Pc)
    requires Inv(s) && OwnerGone(s, o) && Play(s, xs).Some?
    requires t < |s.threads| && WaitsBelow(s.threads[t], pc)
    ensures OwnerGone(Play(s, xs).value, o)
    ensures t < |Play(s, xs).value.threads| && WaitsBelow(Play(s, xs).value.threads[t], pc)
    decreases |xs|
  {
    hide Step, Inv, OwnerGone, WaitsBelow;
    if xs != [] {
      var u := Step(s, xs[0]).value;
      StepKeepsInv(s, xs[0]);
      GoneStep(s, xs[0], o);
      WaitingStep(s, xs[0], o, t, pc);
      LockedForGood(u, xs[1..], o, t, pc);
    }
  }

  lemma WaitingStep(s: Sys, x: Turn, o: nat, t: nat, pc: Pc)
    requires Inv(s) && OwnerGone(s, o) && Step(s, x).Some?
    requires t < |s.threads| && WaitsBelow(s.threads[t], pc)
    ensures t < |Step(s, x).value.threads| && WaitsBelow(Step(s, x).value.threads[t], pc)
  {
    hide Sum;
    assert ThreadOk(s.threads[x.t]);
  }

  // ---------------------------------------------------------------------
  // One thread on its own
  // ---------------------------------------------------------------------

  function Alone(sh: Shared, t: nat, th: Thread, acts: seq<Act>): Option<Moved>
    decreases |acts|
  {
    if acts == [] then Some(Moved(sh, th))
    else match Move(sh, t, th, acts[0])
         case Some(m) => Alone(m.sh, t, m.th, acts[1..])
         case None => None
  }

  function Turns(t: nat, acts: seq<Act>): (xs: seq<Turn>)
    ensures |xs| == |acts| && forall i :: 0 <= i < |acts| ==> xs[i] == Turn(t, acts[i])
  {
    seq(|acts|, i requires 0 <= i < |acts| => Turn(t, acts[i]))
  }

  lemma {:induction false} AlonePlays(s: Sys, t: nat, acts: seq<Act>)
    requires t < |s.threads| && Alone(s.sh, t, s.threads[t], acts).Some?
    ensures var m := Alone(s.sh, t, s.threads[t], acts).value;
            Play(s, Turns(t, acts)) == Some(Sys(m.sh, s.threads[t := m.th]))
    decreases |acts|
  {
    hide Move;
    if acts == [] {
      assert s.threads[t := s.threads[t]] == s.threads;
    } else {
      var m := Move(s.sh, t, s.threads[t], acts[0]).value;
      var u := Sys(m.sh, s.threads[t := m.th]);
      AlonePlays(u, t, acts[1..]);
      var n := Alone(m.sh, t, m.th, acts[1..]).value;
      assert Turns(t, acts)[1..] == Turns(t, acts[1..]);
      assert u.threads[t := n.th] == s.threads[t := n.th];
    }
  }

  lemma {:induction false} AloneAppend(sh: Shared, t: nat, th: Thread, a: seq<Act>, b: seq<Act>)
    requires Alone(sh, t, th, a).Some?
    ensures var m := Alone(sh, t, th, a).value;
            Alone(sh, t, th, a + b) == Alone(m.sh, t, m.th, b)
    decreases |a|
  {
    hide Move;
    if a == [] {
      assert a + b == b;
    } else {
      var m := Move(sh, t, th, a[0]).value;
      AloneAppend(m.sh, t, m.th, a[1..], b);
      assert (a + b)[1..] == a[1..] + b;
    }
  }

  /** One more action of the same thread. */
  lemma Then(sh: Shared, t: nat, th: Thread, acts: seq<Act>, m: Moved, a: Act) returns (next: Moved)
    requires Alone(sh, t, th, acts) == Some(m) && Move(m.sh, t, m.th, a).Some?
    ensures Move(m.sh, t, m.th, a) == Some(next) && Alone(sh, t, th, acts + [a]) == Some(next)
  {
    hide Move;
    next := Move(m.sh, t, m.th, a).value;
    AloneAppend(sh, t, th, acts, [a]);
    assert [a][1..] == [];
    assert Alone(next.sh, t, next.th, []) == Some(next);
  }

  function Advances(n: nat): (acts: seq<Act>)
    ensures |acts| == n && forall i :: 0 <= i < n ==> acts[i] == Advance
  {
    seq(n, i => Advance)
  }

  /** Three steps in a row, when each is possible. */
  lemma ThreeMore(sh: Shared, t: nat, th: Thread, m1: Moved, m2: Moved, m3: Moved)
    requires Move(sh, t, th, Advance) == Some(m1) && Move(m1.sh, t, m1.th, Advance) == Some(m2)
    requires Move(m2.sh, t, m2.th, Advance) == Some(m3)
    ensures Alone(sh, t, th, Advances(2)) == Some(m2) && Alone(sh, t, th, Advances(3)) == Some(m3)
  {
    hide Move;
    assert Advances(3)[1..] == Advances(2) && Advances(2)[1..] == Advances(1) && Advances(1)[1..] == [];
    assert Alone(m2.sh, t, m2.th, Advances(1)) == Some(m3) by { assert Alone(m3.sh, t, m3.th, []) == Some(m3); }
    assert Alone(m1.sh, t, m1.th, Advances(1)) == Some(m2) by { assert Alone(m2.sh, t, m2.th, []) == Some(m2); }
    assert Alone(m1.sh, t, m1.th, Advances(2)) == Some(m3);
  }

  /** `Enter` and three steps. */
  lemma EnterAndThree(sh: Shared, t: nat, th: Thread, e: Moved, m: Moved)
    requires Move(sh, t, th, Enter) == Some(e) && Alone(e.sh, t, e.th, Advances(3)) == Some(m)
    ensures Alone(sh, t, th, ENTRY) == Some(m)
  {
    hide Move;
    assert ENTRY[1..] == Advances(3);
  }

  /** A call up to the point where its hook runs, or a whole call from inside a hook. */
  const ENTRY: seq<Act> := [Enter] + Advances(3)

  function HookPc(h: HookPtr): Pc {
    match h case DefaultHook => RunDefault case LibraryHook => RunLibrary case TraitHook => CountTrait
  }

  lemma TopOf(th: Thread, pc: Pc, rest: seq<Pc>, next: Pc)
    requires th.stack == [pc] + rest
    ensures Go(th, next) == th.(stack := [next] + rest) && Leave(th) == th.(stack := rest)
    ensures [next] + [] == [next] && th.stack != [] && th.stack[0] == pc
  {
    assert th.stack[1..] == rest;
  }

  lemma SoloEntry(sh: Shared, t: nat, th: Thread)
    requires !th.gone && th.stack == [] && !th.flag
    ensures Alone(sh, t, th, ENTRY) ==
            Some(Moved(sh.(entries := sh.entries + 1),
                       th.(flag := true, stack := [HookPc(sh.hook)], counted := th.counted + 1, ran := th.ran + 1)))
  {
    var e := Moved(sh, th.(stack := [CountEntry]));
    var m1 := Moved(sh.(entries := sh.entries + 1), th.(stack := [TestFlag], counted := th.counted + 1));
    var m2 := Moved(m1.sh, m1.th.(stack := [LoadHook], flag := true));
    var m3 := Moved(m1.sh, m2.th.(stack := [HookPc(sh.hook)], ran := th.ran + 1));
    TopOf(e.th, CountEntry, [], TestFlag);
    TopOf(m1.th, TestFlag, [], LoadHook);
    TopOf(m2.th, LoadHook, [], HookPc(sh.hook));
    ThreeMore(e.sh, t, e.th, m1, m2, m3);
    assert [CountEntry] + th.stack == [CountEntry];
    EnterAndThree(sh, t, th, e, m3);
  }

  lemma SoloNested(sh: Shared, t: nat, th: Thread)
    requires !th.gone && |th.stack| == 1 && InHook(th.stack[0]) && th.flag
    ensures Alone(sh, t, th, ENTRY) ==
            Some(Moved(sh.(entries := sh.entries + 1), th.(counted := th.counted + 1, bypassed := th.bypassed + 1)))
  {
    var e := Moved(sh, th.(stack := [CountEntry] + th.stack));
    var m1 := Moved(sh.(entries := sh.entries + 1), th.(stack := [TestFlag] + th.stack, counted := th.counted + 1));
    var m2 := Moved(m1.sh, m1.th.(stack := [Bypass] + th.stack));
    var m3 := Moved(m1.sh, m1.th.(stack := th.stack, bypassed := th.bypassed + 1));
    TopOf(e.th, CountEntry, th.stack, TestFlag);
    TopOf(m1.th, TestFlag, th.stack, Bypass);
    TopOf(m2.th, Bypass, th.stack, Bypass);
    ThreeMore(e.sh, t, e.th, m1, m2, m3);
    EnterAndThree(sh, t, th, e, m3);
  }

  function NestedActs(n: nat): seq<Act> {
    if n == 0 then [] else ENTRY + NestedActs(n - 1)
  }

  lemma {:induction false} SoloNestedAll(sh: Shared, t: nat, th: Thread, n: nat)
    requires !th.gone && |th.stack| == 1 && InHook(th.stack[0]) && th.flag
    ensures Alone(sh, t, th, NestedActs(n)) ==
            Some(Moved(sh.(entries := sh.entries + n), th.(counted := th.counted + n, bypassed := th.bypassed + n)))
    decreases n
  {
    if n > 0 {
      SoloNested(sh, t, th);
      var m := Alone(sh, t, th, ENTRY).value;
      SoloNestedAll(m.sh, t, m.th, n - 1);
      hide Alone;
      AloneAppend(sh, t, th, ENTRY, NestedActs(n - 1));
    }
  }

  lemma SoloLock(sh: Shared, t: nat, th: Thread)
    requires !th.gone && th.stack == [CountTrait] && sh.owner == None
    ensures Alone(sh, t, th, Advances(3)) ==
            Some(Moved(sh.(traitCalls := sh.traitCalls + 1, owner := Some(t)),
                       th.(stack := [if sh.registered then DispatchCall else Fallback], traitRuns := th.traitRuns + 1)))
  {
    var m1 := Moved(sh.(traitCalls := sh.traitCalls + 1), th.(stack := [Lock], traitRuns := th.traitRuns + 1));
    var m2 := Moved(m1.sh.(owner := Some(t)), m1.th.(stack := [FindObject]));
    var m3 := Moved(m2.sh, m2.th.(stack := [if sh.registered then DispatchCall else Fallback]));
    hide Move;
    LockSteps(sh, t, th, m1, m2);
    ThreeMore(sh, t, th, m1, m2, m3);
  }

  lemma LockSteps(sh: Shared, t: nat, th: Thread, m1: Moved, m2: Moved)
    requires !th.gone && th.stack == [CountTrait] && sh.owner == None
    requires m1 == Moved(sh.(traitCalls := sh.traitCalls + 1), th.(stack := [Lock], traitRuns := th.traitRuns + 1))
    requires m2 == Moved(m1.sh.(owner := Some(t)), m1.th.(stack := [FindObject]))
    ensures Move(sh, t, th, Advance) == Some(m1) && Move(m1.sh, t, m1.th, Advance) == Some(m2)
    ensures Move(m2.sh, t, m2.th, Advance) ==
            Some(Moved(m2.sh, m2.th.(stack := [if sh.registered then DispatchCall else Fallback])))
  {
    TopOf(th, CountTrait, [], Lock);
    TopOf(m1.th, Lock, [], FindObject);
    TopOf(m2.th, FindObject, [], if sh.registered then DispatchCall else Fallback);
  }

  lemma SoloUnlock(sh: Shared, t: nat, th: Thread)
    requires !th.gone && (th.stack == [DispatchCall] || th.stack == [Fallback]) && sh.owner == Some(t)
    ensures Alone(sh, t, th, Advances(3)) ==
            Some(Moved(sh.(owner := None, fallbacks := sh.fallbacks + if th.stack == [Fallback] then 1 else 0),
                       th.(stack := [], flag := false)))
  {
    var m1 := Moved(sh.(fallbacks := sh.fallbacks + if th.stack == [Fallback] then 1 else 0), th.(stack := [Unlock]));
    var m2 := Moved(m1.sh.(owner := None), th.(stack := [ClearFlag]));
    var m3 := Moved(m2.sh, th.(stack := [], flag := false));
    TopOf(th, th.stack[0], [], Unlock);
    TopOf(m1.th, Unlock, [], ClearFlag);
    TopOf(m2.th, ClearFlag, [], ClearFlag);
    ThreeMore(sh, t, th, m1, m2, m3);
  }

  lemma SoloPlain(sh: Shared, t: nat, th: Thread)
    requires !th.gone && (th.stack == [RunDefault] || th.stack == [RunLibrary])
    ensures Alone(sh, t, th, Advances(2)) == Some(Moved(sh, th.(stack := [], flag := false)))
  {
    var m1 := Moved(sh, th.(stack := [ClearFlag]));
    var m2 := Moved(sh, th.(stack := [], flag := false));
    hide AdvanceFrom;
    assert Move(sh, t, th, Advance) == Some(m1) by { PlainSteps(sh, t, th); }
    assert Move(sh, t, m1.th, Advance) == Some(m2) by { PlainSteps(sh, t, th); }
    TwoMore(sh, t, th, m1, m2);
  }

  lemma PlainSteps(sh: Shared, t: nat, th: Thread)
    requires !th.gone && (th.stack == [RunDefault] || th.stack == [RunLibrary])
    ensures Move(sh, t, th, Advance) == Some(Moved(sh, th.(stack := [ClearFlag])))
    ensures Move(sh, t, th.(stack := [ClearFlag]), Advance) == Some(Moved(sh, th.(stack := [], flag := false)))
  {
    TopOf(th, th.stack[0], [], ClearFlag);
    TopOf(th.(stack := [ClearFlag]), ClearFlag, [], ClearFlag);
  }

  lemma TwoMore(sh: Shared, t: nat, th: Thread, m1: Moved, m2: Moved)
    requires Move(sh, t, th, Advance) == Some(m1) && Move(m1.sh, t, m1.th, Advance) == Some(m2)
    ensures Alone(sh, t, th, Advances(2)) == Some(m2)
  {
    hide Move;
    assert Advances(2)[1..] == Advances(1) && Advances(1)[1..] == [];
    assert Alone(m1.sh, t, m1.th, Advances(1)) == Some(m2) by { assert Alone(m2.sh, t, m2.th, []) == Some(m2); }
  }

  /** The steps of a call with `n` direct nested calls. */
  function CallActs(h: HookPtr, registered: bool, n: nat): seq<Act> {
    match h
    case DefaultHook => ENTRY + Advances(2)
    case LibraryHook => ENTRY + NestedActs(n) + Advances(2)
    case TraitHook =>
      if registered then ENTRY + Advances(3) + NestedActs(n) + Advances(3) else ENTRY + Advances(3) + Advances(3)
  }

  /** A thread's state as the sequential account of the library has it. */
  ghost predicate Shows(sh: Shared, t: nat, th: Thread, st: State) {
    && sh.hook == st.hook && sh.registered == st.registered
    && (sh.owner == Some(t) <==> st.locked)
    && th.flag == st.inHook
    && sh.entries == st.entries && sh.traitCalls == st.traitCalls
  }

  /** The step machine agrees with the sequential account: a thread that runs undisturbed takes a call tree from
      outside any hook to the state `Entry` computes, running one hook and bypassing each direct nested call. */
  lemma SoloCall(kernel: Dispatch.Kernel, sh: Shared, t: nat, th: Thread, st: State, c: Call)
    requires Shows(sh, t, th, st) && !th.gone && th.stack == [] && !st.inHook && !st.locked && sh.owner == None
    requires Entry(kernel, st, c).reply.Returned?
    ensures var r := Alone(sh, t, th, CallActs(sh.hook, sh.registered, |c.nested|));
            && r.Some? && Shows(r.value.sh, t, r.value.th, Entry(kernel, st, c).st)
            && r.value.th.stack == [] && r.value.sh.owner == None
            && r.value.th.ran == th.ran + 1
            && r.value.th.bypassed == th.bypassed + |Executed(st, c)| - 1
  {
    hide Alone, Entry, Advances;
    EntryFromOutside(kernel, st, c);
    SoloEntry(sh, t, th);
    var m := Alone(sh, t, th, ENTRY).value;
    if sh.hook == TraitHook {
      SoloTrait(sh, t, th, m, |c.nested|);
    } else {
      SoloOther(sh, t, th, m, |c.nested|);
    }
  }

  /** Where an undisturbed call leaves the shared state and its thread. */
  ghost predicate SoloEnd(sh: Shared, th: Thread, inner: nat, r: Option<Moved>) {
    r.Some? &&
    var m := r.value;
    && m.sh.hook == sh.hook && m.sh.registered == sh.registered && m.sh.owner == None
    && m.sh.entries == sh.entries + 1 + inner
    && m.sh.traitCalls == sh.traitCalls + (if sh.hook == TraitHook then 1 else 0)
    && m.th.stack == [] && !m.th.flag && m.th.ran == th.ran + 1 && m.th.bypassed == th.bypassed + inner
  }

  lemma SoloTrait(sh: Shared, t: nat, th: Thread, m: Moved, n: nat)
    requires !th.gone && sh.hook == TraitHook && sh.owner == None && Alone(sh, t, th, ENTRY) == Some(m)
    requires m == Moved(sh.(entries := sh.entries + 1),
                        th.(flag := true, stack := [CountTrait], counted := th.counted + 1, ran := th.ran + 1))
    ensures SoloEnd(sh, th, if sh.registered then n else 0, Alone(sh, t, th, CallActs(TraitHook, sh.registered, n)))
  {
    hide Alone, NestedActs, Advances;
    SoloLock(m.sh, t, m.th);
    var l := Alone(m.sh, t, m.th, Advances(3)).value;
    AloneAppend(sh, t, th, ENTRY, Advances(3));
    if sh.registered {
      SoloNestedAll(l.sh, t, l.th, n);
      AloneAppend(sh, t, th, ENTRY + Advances(3), NestedActs(n));
      var d := Alone(l.sh, t, l.th, NestedActs(n)).value;
      SoloUnlock(d.sh, t, d.th);
      AloneAppend(sh, t, th, ENTRY + Advances(3) + NestedActs(n), Advances(3));
    } else {
      SoloUnlock(l.sh, t, l.th);
      AloneAppend(sh, t, th, ENTRY + Advances(3), Advances(3));
    }
  }

  lemma SoloOther(sh: Shared, t: nat, th: Thread, m: Moved, n: nat)
    requires !th.gone && sh.hook != TraitHook && sh.owner == None && Alone(sh, t, th, ENTRY) == Some(m)
    requires m == Moved(sh.(entries := sh.entries + 1),
                        th.(flag := true, stack := [HookPc(sh.hook)], counted := th.counted + 1, ran := th.ran + 1))
    ensures SoloEnd(sh, th, if sh.hook == LibraryHook then n else 0, Alone(sh, t, th, CallActs(sh.hook, sh.registered, n)))
  {
    hide Alone, NestedActs, Advances;
    if sh.hook == LibraryHook {
      SoloNestedAll(m.sh, t, m.th, n);
      AloneAppend(sh, t, th, ENTRY, NestedActs(n));
      var d := Alone(m.sh, t, m.th, NestedActs(n)).value;
      SoloPlain(d.sh, t, d.th);
      AloneAppend(sh, t, th, ENTRY + NestedActs(n), Advances(2));
    } else {
      SoloPlain(m.sh, t, m.th);
      AloneAppend(sh, t, th, ENTRY, Advances(2));
    }
  }

  /** A thread that ends in the dispatcher: a system call `exit` dispatched to the registered object. */
  lemma ExitInDispatch(sh: Shared, t: nat, th: Thread) returns (acts: seq<Act>)
    requires !th.gone && th.stack == [] && !th.flag && sh.owner == None && sh.hook == TraitHook && sh.registered
    ensures var r := Alone(sh, t, th, acts);
            r.Some? && r.value.th.gone && r.value.sh.owner == Some(t)
  {
    hide Alone, Advances;
    SoloEntry(sh, t, th);
    var m := Alone(sh, t, th, ENTRY).value;
    SoloLock(m.sh, t, m.th);
    AloneAppend(sh, t, th, ENTRY, Advances(3));
    var l := Alone(m.sh, t, m.th, Advances(3)).value;
    var _ := Then(sh, t, th, ENTRY + Advances(3), l, Exit);
    acts := ENTRY + Advances(3) + [Exit];
  }

  /** `register_syscall_hooks` on its own: the object is stored, the dispatcher published, the mutex free again. */
  lemma SoloRegister(sh: Shared, t: nat, th: Thread)
    requires !th.gone && th.stack == [] && sh.owner == None
    ensures Alone(sh, t, th, [Register] + Advances(4)) == Some(Moved(sh.(hook := TraitHook, registered := true), th))
  {
    var r := Moved(sh, th.(stack := [RegLock]));
    var m1 := Moved(sh.(owner := Some(t)), th.(stack := [RegStore]));
    var m2 := Moved(m1.sh.(registered := true), th.(stack := [RegUnlock]));
    var m3 := Moved(m2.sh.(owner := None), th.(stack := [RegPublish]));
    hide Move;
    RegisterSteps(sh, t, th, r, m1, m2, m3);
    ThreeMore(r.sh, t, r.th, m1, m2, m3);
    var last := Then(r.sh, t, r.th, Advances(3), m3, Advance);
    assert Advances(3) + [Advance] == Advances(4);
    assert ([Register] + Advances(4))[1..] == Advances(4);
  }

  lemma RegisterSteps(sh: Shared, t: nat, th: Thread, r: Moved, m1: Moved, m2: Moved, m3: Moved)
    requires !th.gone && th.stack == [] && sh.owner == None
    requires r == Moved(sh, th.(stack := [RegLock]))
    requires m1 == Moved(sh.(owner := Some(t)), th.(stack := [RegStore]))
    requires m2 == Moved(m1.sh.(registered := true), th.(stack := [RegUnlock]))
    requires m3 == Moved(m2.sh.(owner := None), th.(stack := [RegPublish]))
    ensures Move(sh, t, th, Register) == Some(r) && Move(r.sh, t, r.th, Advance) == Some(m1)
    ensures Move(m1.sh, t, m1.th, Advance) == Some(m2) && Move(m2.sh, t, m2.th, Advance) == Some(m3)
    ensures Move(m3.sh, t, m3.th, Advance) == Some(Moved(sh.(hook := TraitHook, registered := true), th))
  {
    StoreSteps(sh, t, th, r, m1, m2);
    TopOf(m2.th, RegUnlock, [], RegPublish);
    TopOf(m3.th, RegPublish, [], RegPublish);
  }

  lemma StoreSteps(sh: Shared, t: nat, th: Thread, r: Moved, m1: Moved, m2: Moved)
    requires !th.gone && th.stack == [] && sh.owner == None
    requires r == Moved(sh, th.(stack := [RegLock]))
    requires m1 == Moved(sh.(owner := Some(t)), th.(stack := [RegStore]))
    requires m2 == Moved(m1.sh.(registered := true), th.(stack := [RegUnlock]))
    ensures Move(r.sh, t, r.th, Advance) == Some(m1) && Move(m1.sh, t, m1.th, Advance) == Some(m2)
  {
    TopOf(r.th, RegLock, [], RegStore);
    TopOf(m1.th, RegStore, [], RegUnlock);
  }

  /** The next step of the innermost call is at this point. */
  predicate Makes(s: Sys, x: Turn, pc: Pc) {
    x.a == Advance && x.t < |s.threads| && s.threads[x.t].stack != [] && s.threads[x.t].stack[0] == pc
  }

  /** In any state, under any interleaving: the last step of a registration publishes the dispatcher, an installation
      publishes what it is given, and no other step touches the hook pointer. An object, once stored, stays, and only
      a registration stores one. */
  lemma StepPublishes(s: Sys, x: Turn)
    requires Step(s, x).Some?
    ensures Step(s, x).value.sh.hook ==
            if Makes(s, x, RegPublish) then TraitHook else if x.a.Install? then x.a.h else s.sh.hook
    ensures Step(s, x).value.sh.registered <==> s.sh.registered || Makes(s, x, RegStore)
  {
  }

  /** A call runs the hook that is published at the moment it loads the pointer. */
  lemma StepLoads(s: Sys, x: Turn)
    requires Makes(s, x, LoadHook) && Step(s, x).Some?
    ensures var st := Step(s, x).value.threads[x.t].stack;
            && st != []
            && (s.sh.hook == DefaultHook ==> st[0] == RunDefault)
            && (s.sh.hook == LibraryHook ==> st[0] == RunLibrary)
            && (s.sh.hook == TraitHook ==> st[0] == CountTrait)
  {
  }

  /** The hook pointer as the publications of a run leave it. */
  ghost function LastPublished(s: Sys, xs: seq<Turn>): HookPtr
    requires Play(s, xs).Some?
    decreases |xs|
  {
    if xs == [] then s.sh.hook
    else
      var x := xs[|xs| - 1];
      PlayInit(s, xs);
      var u := Play(s, xs[..|xs| - 1]).value;
      if Makes(u, x, RegPublish) then TraitHook
      else if x.a.Install? then x.a.h
      else LastPublished(s, xs[..|xs| - 1])
  }

  lemma {:induction false} PlayInit(s: Sys, xs: seq<Turn>)
    requires Play(s, xs).Some? && xs != []
    ensures var init := xs[..|xs| - 1];
            Play(s, init).Some? && Step(Play(s, init).value, xs[|xs| - 1]) == Play(s, xs)
    decreases |xs|
  {
    hide Step;
    var init := xs[..|xs| - 1];
    if |xs| == 1 {
      assert init == [] && xs[1..] == [];
    } else {
      PlayInit(Step(s, xs[0]).value, xs[1..]);
      assert init[1..] == xs[1..][..|xs[1..]| - 1];
    }
  }

  /** After any run the hook pointer holds what was last published: by a registration, the dispatcher; by an
      installation, the hook given. */
  lemma {:induction false} HookIsLastPublished(s: Sys, xs: seq<Turn>)
    requires Play(s, xs).Some?
    ensures Play(s, xs).value.sh.hook == LastPublished(s, xs)
    decreases |xs|
  {
    if xs != [] {
      hide Step, Makes;
      PlayInit(s, xs);
      HookIsLastPublished(s, xs[..|xs| - 1]);
      StepPublishes(Play(s, xs[..|xs| - 1]).value, xs[|xs| - 1]);
    }
  }

  // ---------------------------------------------------------------------
  // Publication order
  // ---------------------------------------------------------------------

  /** The dispatcher is published only with an object present. */
  predicate Published(s: Sys) {
    s.sh.hook == TraitHook ==> s.sh.registered
  }

  predicate NeedsObject(pc: Pc) {
    pc in {CountTrait, Lock, FindObject, DispatchCall, Unlock, RegUnlock, RegPublish}
  }

  /** Whoever is on the way through the dispatcher, or about to publish it, will find an object. */
  ghost predicate PubInv(s: Sys) {
    && Published(s)
    && forall t, k {:trigger s.threads[t].stack[k]} :: 0 <= t < |s.threads| && 0 <= k < |s.threads[t].stack| ==>
         s.threads[t].stack[k] != Fallback && (NeedsObject(s.threads[t].stack[k]) ==> s.sh.registered)
  }

  /** `__hook_init` installs the trait dispatcher by hand. */
  predicate EarlyInstall(s: Sys, x: Turn) {
    x.a == Install(TraitHook) && !s.sh.registered
  }

  ghost predicate NoEarlyInstall(s: Sys, xs: seq<Turn>)
    requires Play(s, xs).Some?
    decreases |xs|
  {
    xs != [] ==> !EarlyInstall(s, xs[0]) && NoEarlyInstall(Step(s, xs[0]).value, xs[1..])
  }

  ghost predicate AlwaysPublished(s: Sys, xs: seq<Turn>)
    requires Play(s, xs).Some?
    decreases |xs|
  {
    Published(s) && (xs != [] ==> AlwaysPublished(Step(s, xs[0]).value, xs[1..]))
  }

  lemma StepPublished(s: Sys, x: Turn)
    requires PubInv(s) && Step(s, x).Some?
    ensures !EarlyInstall(s, x) ==> PubInv(Step(s, x).value) && Step(s, x).value.sh.fallbacks == s.sh.fallbacks
    ensures EarlyInstall(s, x) ==> !Published(Step(s, x).value)
  {
    var th := s.threads[x.t];
    var u := Step(s, x).value;
    assert th.stack != [] ==> th.stack[0] != Fallback && (NeedsObject(th.stack[0]) ==> s.sh.registered);
    if !EarlyInstall(s, x) {
      MovePublished(s.sh, x.t, th, x.a);
      hide Move;
      forall t, k | 0 <= t < |u.threads| && 0 <= k < |u.threads[t].stack|
        ensures u.threads[t].stack[k] != Fallback && (NeedsObject(u.threads[t].stack[k]) ==> u.sh.registered)
      {
        if t != x.t {
          assert u.threads[t].stack[k] == s.threads[t].stack[k];
        }
      }
    }
  }

  ghost predicate StackPublished(st: seq<Pc>, present: bool) {
    forall k {:trigger st[k]} :: 0 <= k < |st| ==> st[k] != Fallback && (NeedsObject(st[k]) ==> present)
  }

  lemma MovePublished(sh: Shared, t: nat, th: Thread, a: Act)
    requires StackPublished(th.stack, sh.registered) && (sh.hook == TraitHook ==> sh.registered) && Move(sh, t, th, a).Some?
    requires a == Install(TraitHook) ==> sh.registered
    ensures MovedPublished(sh, Move(sh, t, th, a).value)
  {
    if a == Advance {
      hide Move, AdvanceFrom, StackPublished;
      AdvanceIs(sh, t, th);
      if Registering(th.stack[0]) || InTraitHook(th.stack[0]) {
        LockedPublished(sh, t, th);
      } else {
        PlainPublished(sh, t, th);
      }
    }
  }

  lemma LockedPublished(sh: Shared, t: nat, th: Thread)
    requires th.stack != [] && StackPublished(th.stack, sh.registered) && AdvanceFrom(sh, t, th).Some?
    requires sh.hook == TraitHook ==> sh.registered
    requires Registering(th.stack[0]) || InTraitHook(th.stack[0])
    ensures MovedPublished(sh, AdvanceFrom(sh, t, th).value)
  {
    assert th.stack[0] != Fallback && (NeedsObject(th.stack[0]) ==> sh.registered);
  }

  lemma PlainPublished(sh: Shared, t: nat, th: Thread)
    requires th.stack != [] && StackPublished(th.stack, sh.registered) && AdvanceFrom(sh, t, th).Some?
    requires sh.hook == TraitHook ==> sh.registered
    requires !Registering(th.stack[0]) && !InTraitHook(th.stack[0])
    ensures MovedPublished(sh, AdvanceFrom(sh, t, th).value)
  {
  }

  ghost predicate MovedPublished(sh: Shared, m: Moved) {
    && StackPublished(m.th.stack, m.sh.registered)
    && (m.sh.hook == TraitHook ==> m.sh.registered)
    && (sh.registered ==> m.sh.registered)
    && m.sh.fallbacks == sh.fallbacks
  }

  /** In every state of every run the published dispatcher has an object, exactly when nobody installed the
      dispatcher by `__hook_init` before an object was registered. In such runs no call takes the dispatcher's
      fallback. */
  lemma {:induction false} PublicationOrder(s: Sys, xs: seq<Turn>)
    requires PubInv(s) && Play(s, xs).Some?
    ensures AlwaysPublished(s, xs) <==> NoEarlyInstall(s, xs)
    ensures NoEarlyInstall(s, xs) ==> Play(s, xs).value.sh.fallbacks == s.sh.fallbacks
    decreases |xs|
  {
    hide Step, EarlyInstall, PubInv;
    PubInvMeans(s);
    if xs != [] {
      StepPublished(s, xs[0]);
      if !EarlyInstall(s, xs[0]) {
        PublicationOrder(Step(s, xs[0]).value, xs[1..]);
      }
    }
  }

  lemma PubInvMeans(s: Sys)
    requires PubInv(s)
    ensures Published(s)
  {
  }

  lemma InitialPublished(n: nat)
    ensures PubInv(Initial(n))
  {
  }

  /** From the start, with any number of threads. */
  lemma PublishedFromStart(n: nat, xs: seq<Turn>)
    requires Play(Initial(n), xs).Some?
    ensures AlwaysPublished(Initial(n), xs) <==> NoEarlyInstall(Initial(n), xs)
    ensures NoEarlyInstall(Initial(n), xs) ==> Play(Initial(n), xs).value.sh.fallbacks == 0
  {
    hide Step, PubInv, Published, EarlyInstall, AlwaysPublished, NoEarlyInstall, Play;
    InitialPublished(n);
    PublicationOrder(Initial(n), xs);
  }

  /** A dispatcher installed too early sends calls to the fallback. */
  lemma EarlyInstallFallsBack(sh: Shared, t: nat, th: Thread)
    requires !th.gone && th.stack == [] && !th.flag && sh.owner == None && sh.hook == TraitHook && !sh.registered
    ensures var r := Alone(sh, t, th, ENTRY + Advances(3) + Advances(3));
            r.Some? && r.value.sh.fallbacks == sh.fallbacks + 1
  {
    hide Alone, Advances;
    SoloEntry(sh, t, th);
    var m := Alone(sh, t, th, ENTRY).value;
    SoloLock(m.sh, t, m.th);
    AloneAppend(sh, t, th, ENTRY, Advances(3));
    var l := Alone(m.sh, t, m.th, Advances(3)).value;
    SoloUnlock(l.sh, t, l.th);
    AloneAppend(sh, t, th, ENTRY + Advances(3), Advances(3));
  }
}

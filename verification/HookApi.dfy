/** The hook library as one thread sees it: the installed hook, the registered hook object behind its mutex,
    the re-entry flag and the call counters. */
module HookApi {
  import opened Bytes
  import opened Dispatch

  /** What the hook pointer holds: the built-in fallback, the trait dispatcher, or a function from a hook
      library that ends by issuing the raw call. */
  datatype HookPtr = DefaultHook | TraitHook | LibraryHook

  /** A system call reaching the entry point, with the system calls the installed hook would issue while
      handling it (the hook's own code goes through the same entry point). */
  datatype Call = Call(regs: SyscallRegs, nested: seq<Call>)

  /** `Ran`: the installed hook was invoked. `Bypassed`: the call arrived inside a hook and went to the kernel. */
  datatype Action = Ran(regs: SyscallRegs) | Bypassed(regs: SyscallRegs)

  datatype State = State(
    hook: HookPtr,
    registered: bool,
    locked: bool,
    inHook: bool,
    entries: nat,
    traitCalls: nat,
    kernelLog: seq<SyscallRegs>,
    actions: seq<Action>)

  datatype Outcome = Outcome(st: State, reply: Reply)

  // ---------------------------------------------------------------------
  // Specification
  // ---------------------------------------------------------------------

  function Raw(kernel: Kernel, st: State, r: SyscallRegs): Outcome {
    var i := RawSyscall(kernel, st.kernelLog, r);
    Outcome(st.(kernelLog := i.log), i.reply)
  }

  function Entry(kernel: Kernel, st: State, c: Call): Outcome
    decreases c, 1
  {
    var st := st.(entries := st.entries + 1);
    if st.inHook then
      Raw(kernel, st.(actions := st.actions + [Bypassed(c.regs)]), c.regs)
    else
      var o := RunHook(kernel, st.(inHook := true, actions := st.actions + [Ran(c.regs)]), c);
      if o.reply.NoReturn? then o else Outcome(o.st.(inHook := false), o.reply)
  }

  function RunHook(kernel: Kernel, st: State, c: Call): Outcome
    decreases c, 0
  {
    match st.hook
    case DefaultHook => Raw(kernel, st, c.regs)
    case LibraryHook => Raw(kernel, Nested(kernel, st, c.nested), c.regs)
    case TraitHook =>
      var st := st.(traitCalls := st.traitCalls + 1, locked := true);
      if st.registered then
        var inner := Nested(kernel, st, c.nested);
        var i := DispatchDefaults(kernel, inner.kernelLog, c.regs);
        Outcome(inner.(kernelLog := i.log, locked := i.reply.NoReturn?), i.reply)
      else
        var o := Raw(kernel, st, c.regs);
        Outcome(o.st.(locked := false), o.reply)
  }

  function Nested(kernel: Kernel, st: State, cs: seq<Call>): State
    decreases cs
  {
    if cs == [] then st else Nested(kernel, Entry(kernel, st, cs[0]).st, cs[1..])
  }

  /** The register block a call sends to the kernel, and the conversion of the kernel's answer. */
  datatype Plan = Plan(issued: SyscallRegs, ret: Option<RetType>)

  function Issued(st: State, r: SyscallRegs): SyscallRegs {
    if !st.inHook && st.hook == TraitHook && st.registered then DispatchedRegs(r) else r
  }

  function Decide(st: State, r: SyscallRegs): Plan {
    Plan(
      Issued(st, r),
      if !st.inHook && st.hook == TraitHook && st.registered && Typed(r).Some?
      then Some(ReturnType(Typed(r).value))
      else None)
  }

  // ---------------------------------------------------------------------
  // The library itself
  // ---------------------------------------------------------------------

  class HookRuntime {
    var hook: HookPtr
    var registered: bool
    var locked: bool
    var inHook: bool
    var entries: nat
    var traitCalls: nat
    var kernelLog: seq<SyscallRegs>
    var actions: seq<Action>

    constructor ()
      ensures Snapshot() == State(DefaultHook, false, false, false, 0, 0, [], []) && Valid()
    {
      hook, registered, locked, inHook := DefaultHook, false, false, false;
      entries, traitCalls, kernelLog, actions := 0, 0, [], [];
    }

    function Snapshot(): State
      reads this
    {
      State(hook, registered, locked, inHook, entries, traitCalls, kernelLog, actions)
    }

    /** The thread holds the mutex of the hook object only inside a hook. */
    ghost predicate Valid()
      reads this
    {
      locked ==> inHook
    }

    method RawSyscall(kernel: Kernel, r: SyscallRegs) returns (reply: Reply)
      modifies this`kernelLog
      ensures Outcome(Snapshot(), reply) == Raw(kernel, old(Snapshot()), r)
    {
      reply := Returned(kernel(kernelLog, r));
      kernelLog := kernelLog + [r];
    }

    method HookEntry(kernel: Kernel, c: Call) returns (reply: Reply)
      requires Valid()
      modifies this
      ensures Outcome(Snapshot(), reply) == Entry(kernel, old(Snapshot()), c)
      ensures Valid()
      decreases c, 2
    {
      entries := entries + 1;
      if inHook {
        actions := actions + [Bypassed(c.regs)];
        reply := RawSyscall(kernel, c.regs);
        return;
      }
      inHook := true;
      actions := actions + [Ran(c.regs)];
      if hook == DefaultHook {
        reply := RawSyscall(kernel, c.regs);
      } else if hook == LibraryHook {
        NestedKeepsThread(kernel, Snapshot(), c.nested);
        IssueNested(kernel, c.nested);
        reply := RawSyscall(kernel, c.regs);
      } else {
        reply := TraitBasedHook(kernel, c);
      }
      if reply.Returned? {
        inHook := false;
      }
    }

    /** The mutex is taken, never waited for: a thread that gets here does not hold it. */
    method TraitBasedHook(kernel: Kernel, c: Call) returns (reply: Reply)
      requires inHook && !locked && hook == TraitHook
      modifies this
      ensures Outcome(Snapshot(), reply) == RunHook(kernel, old(Snapshot()), c)
      ensures inHook && (reply.Returned? ==> !locked)
      decreases c, 1
    {
      traitCalls := traitCalls + 1;
      locked := true;
      if registered {
        NestedKeepsThread(kernel, Snapshot(), c.nested);
        IssueNested(kernel, c.nested);
        var i := DispatchDefaults(kernel, kernelLog, c.regs);
        kernelLog := i.log;
        reply := i.reply;
      } else {
        reply := RawSyscall(kernel, c.regs);
      }
      locked := reply.NoReturn?;
    }

    method IssueNested(kernel: Kernel, cs: seq<Call>)
      requires inHook
      modifies this
      ensures Snapshot() == Nested(kernel, old(Snapshot()), cs)
      ensures inHook
      decreases cs
    {
      var i := 0;
      NestedKeepsThread(kernel, Snapshot(), cs);
      while i < |cs|
        invariant 0 <= i <= |cs| && inHook
        invariant Nested(kernel, Snapshot(), cs[i..]) == Nested(kernel, old(Snapshot()), cs)
      {
        EntryInHook(kernel, Snapshot(), cs[i]);
        assert cs[i..][1..] == cs[i + 1..];
        var _ := HookEntry(kernel, cs[i]);
        i := i + 1;
      }
    }

    method HookInit(h: HookPtr)
      modifies this`hook
      ensures Snapshot() == old(Snapshot()).(hook := h)
    {
      hook := h;
    }

    /** The object is stored under the mutex, and only then is the dispatcher published. */
    method RegisterSyscallHooks()
      requires !locked
      modifies this
      ensures Snapshot() == old(Snapshot()).(hook := TraitHook, registered := true)
    {
      locked := true;
      registered := true;
      locked := false;
      HookInit(TraitHook);
    }
  }

  // ---------------------------------------------------------------------
  // Properties of every tree of nested calls
  // ---------------------------------------------------------------------

  /** Inside a hook a call is one kernel call with the caller's registers, whatever it would have nested. */
  lemma EntryInHook(kernel: Kernel, st: State, c: Call)
    requires st.inHook
    ensures Entry(kernel, st, c) ==
            Outcome(
              st.(entries := st.entries + 1,
                  actions := st.actions + [Bypassed(c.regs)],
                  kernelLog := st.kernelLog + [c.regs]),
              Returned(kernel(st.kernelLog, c.regs)))
  {
  }

  function RegsOf(cs: seq<Call>): (rs: seq<SyscallRegs>)
    ensures |rs| == |cs|
  {
    if cs == [] then [] else [cs[0].regs] + RegsOf(cs[1..])
  }

  function BypassedAll(rs: seq<SyscallRegs>): (s: seq<Action>)
    ensures |s| == |rs|
  {
    if rs == [] then [] else [Bypassed(rs[0])] + BypassedAll(rs[1..])
  }

  /** Calls issued by a running hook all go straight to the kernel, in order; nothing else of the thread's
      state changes. */
  lemma {:induction false} NestedKeepsThread(kernel: Kernel, st: State, cs: seq<Call>)
    requires st.inHook
    ensures Nested(kernel, st, cs) ==
            st.(entries := st.entries + |cs|,
                actions := st.actions + BypassedAll(RegsOf(cs)),
                kernelLog := st.kernelLog + RegsOf(cs))
    decreases cs
  {
    if cs == [] {
      assert st.actions + [] == st.actions && st.kernelLog + [] == st.kernelLog;
    } else {
      EntryInHook(kernel, st, cs[0]);
      hide Entry;
      var next := Entry(kernel, st, cs[0]).st;
      assert Nested(kernel, st, cs) == Nested(kernel, next, cs[1..]);
      hide Nested;
      NestedKeepsThread(kernel, next, cs[1..]);
      BypassedCons(cs);
      hide RegsOf, BypassedAll;
      Assoc(st.actions, [Bypassed(cs[0].regs)], BypassedAll(RegsOf(cs[1..])));
      Assoc(st.kernelLog, [cs[0].regs], RegsOf(cs[1..]));
    }
  }

  lemma BypassedCons(cs: seq<Call>)
    requires cs != []
    ensures RegsOf(cs) == [cs[0].regs] + RegsOf(cs[1..])
    ensures BypassedAll(RegsOf(cs)) == [Bypassed(cs[0].regs)] + BypassedAll(RegsOf(cs[1..]))
  {
    assert RegsOf(cs)[1..] == RegsOf(cs[1..]);
  }

  /** The calls of a tree that are executed: the root, and the direct children when the hook issues any. */
  function Executed(st: State, c: Call): seq<Call> {
    if st.inHook || st.hook == DefaultHook || (st.hook == TraitHook && !st.registered) then [c] else [c] + c.nested
  }

  function Count(s: seq<Action>, ran: bool): nat {
    if s == [] then 0 else (if s[0].Ran? == ran then 1 else 0) + Count(s[1..], ran)
  }

  lemma {:induction false} CountAppend(s: seq<Action>, t: seq<Action>, ran: bool)
    ensures Count(s + t, ran) == Count(s, ran) + Count(t, ran)
  {
    if s == [] {
      assert s + t == t;
    } else {
      CountAppend(s[1..], t, ran);
      assert (s + t)[1..] == s[1..] + t;
    }
  }

  lemma {:induction false} CountBypassed(rs: seq<SyscallRegs>)
    ensures Count(BypassedAll(rs), true) == 0 && Count(BypassedAll(rs), false) == |rs|
  {
    if rs != [] {
      CountBypassed(rs[1..]);
      assert BypassedAll(rs)[1..] == BypassedAll(rs[1..]);
    }
  }

  /** Running the hook: its nested calls, then its own kernel call. */
  function RunEffect(st: State, r: SyscallRegs, inner: seq<SyscallRegs>, issued: SyscallRegs, stays: bool): State {
    st.(entries := st.entries + |inner|,
        traitCalls := if st.hook == TraitHook then st.traitCalls + 1 else st.traitCalls,
        locked := stays,
        actions := st.actions + BypassedAll(inner),
        kernelLog := st.kernelLog + inner + [issued])
  }

  lemma TraitRunEffect(kernel: Kernel, st: State, c: Call)
    requires st.inHook && !st.locked && st.hook == TraitHook && st.registered
    ensures var o := RunHook(kernel, st, c);
            && o.st == RunEffect(st, c.regs, RegsOf(c.nested), DispatchedRegs(c.regs), o.reply.NoReturn?)
            && o.reply == Answer(Decide(st.(inHook := false), c.regs),
                                 kernel(st.kernelLog + RegsOf(c.nested), DispatchedRegs(c.regs)))
  {
    var st2 := st.(traitCalls := st.traitCalls + 1, locked := true);
    NestedKeepsThread(kernel, st2, c.nested);
    DispatchLog(kernel, st.kernelLog + RegsOf(c.nested), c.regs);
  }

  lemma OtherRunEffect(kernel: Kernel, st: State, c: Call)
    requires st.inHook && !st.locked && !(st.hook == TraitHook && st.registered)
    ensures var o := RunHook(kernel, st, c);
            var inner := Executed(st.(inHook := false), c)[1..];
            && o.st == RunEffect(st, c.regs, RegsOf(inner), c.regs, false)
            && o.reply == Returned(kernel(st.kernelLog + RegsOf(inner), c.regs))
  {
    var inner := Executed(st.(inHook := false), c)[1..];
    NestedKeepsThread(kernel, st, c.nested);
    assert inner == [] || inner == c.nested;
    if inner == [] {
      assert st.actions + BypassedAll(RegsOf(inner)) == st.actions;
      assert st.kernelLog + RegsOf(inner) == st.kernelLog;
    }
  }

  /** What a tree of calls from outside any hook does: the installed hook runs once, at the root; every nested
      call is bypassed; the flag and the mutex are as before once the call returns; the entry counter grows by
      the number of calls executed, which are hook runs and bypasses; the kernel sees the nested calls in order
      and then `issued` on behalf of the root; and the caller gets the kernel's answer to that last call, through the
      return type of the method it was dispatched to, if any. */
  ghost predicate OutsideEffect(kernel: Kernel, st: State, c: Call, issued: SyscallRegs) {
    var o := Entry(kernel, st, c);
    var inner := if st.hook == LibraryHook || (st.hook == TraitHook && st.registered) then c.nested else [];
    && Executed(st, c) == [c] + inner
    && o.st.actions == st.actions + [Ran(c.regs)] + BypassedAll(RegsOf(inner))
    && o.st.entries == st.entries + |Executed(st, c)|
    && o.st.traitCalls == st.traitCalls + (if st.hook == TraitHook then 1 else 0)
    && (o.reply.Returned? ==> !o.st.inHook && !o.st.locked)
    && o.st.hook == st.hook && o.st.registered == st.registered
    && o.st.kernelLog == st.kernelLog + RegsOf(inner) + [issued]
    && o.reply == Answer(Decide(st, c.regs), kernel(st.kernelLog + RegsOf(inner), issued))
    && (!(st.hook == TraitHook && st.registered) ==>
          issued == c.regs && o.reply == Returned(kernel(st.kernelLog + RegsOf(inner), c.regs)))
  }

  lemma TraitEntry(kernel: Kernel, st: State, c: Call)
    requires !st.inHook && !st.locked && st.hook == TraitHook && st.registered
    ensures OutsideEffect(kernel, st, c, DispatchedRegs(c.regs))
  {
    TraitRunEffect(kernel, st.(entries := st.entries + 1, inHook := true, actions := st.actions + [Ran(c.regs)]), c);
  }

  lemma OtherEntry(kernel: Kernel, st: State, c: Call)
    requires !st.inHook && !st.locked && !(st.hook == TraitHook && st.registered)
    ensures OutsideEffect(kernel, st, c, c.regs)
  {
    var st1 := st.(entries := st.entries + 1, inHook := true, actions := st.actions + [Ran(c.regs)]);
    OtherRunEffect(kernel, st1, c);
    assert Executed(st1.(inHook := false), c) == Executed(st, c);
  }

  lemma EntryFromOutside(kernel: Kernel, st: State, c: Call)
    requires !st.inHook && !st.locked
    ensures OutsideEffect(kernel, st, c, Issued(st, c.regs))
  {
    if st.hook == TraitHook && st.registered {
      TraitEntry(kernel, st, c);
    } else {
      OtherEntry(kernel, st, c);
    }
  }

  /** Over any sequence of calls a thread makes, entries are hook runs plus bypasses, the hook runs once for
      each top-level call, and the flag is clear between calls. */
  lemma {:induction false} ThreadHistory(kernel: Kernel, st: State, cs: seq<Call>)
    requires !st.inHook && !st.locked
    requires forall c :: c in cs ==> c.regs.rax != 60 && c.regs.rax != 231
    ensures var f := Nested(kernel, st, cs);
            && !f.inHook && !f.locked
            && st.entries <= f.entries
            && f.entries - st.entries == |f.actions| - |st.actions|
            && Count(f.actions, true) == Count(st.actions, true) + |cs|
            && Count(f.actions, false) - Count(st.actions, false) == f.entries - st.entries - |cs|
    decreases cs
  {
    if cs != [] {
      var c := cs[0];
      assert c in cs;
      var o := Entry(kernel, st, c);
      EntryFromOutside(kernel, st, c);
      EntryReturns(kernel, st, c);
      var inner := Executed(st, c)[1..];
      var added := [Ran(c.regs)] + BypassedAll(RegsOf(inner));
      assert o.st.actions == st.actions + added;
      CountAppend(st.actions, added, true);
      CountAppend(st.actions, added, false);
      CountBypassed(RegsOf(inner));
      assert added[1..] == BypassedAll(RegsOf(inner));
      assert forall d :: d in cs[1..] ==> d in cs;
      ThreadHistory(kernel, o.st, cs[1..]);
    }
  }

  lemma EntryReturns(kernel: Kernel, st: State, c: Call)
    requires c.regs.rax != 60 && c.regs.rax != 231
    ensures Entry(kernel, st, c).reply.Returned?
  {
    match Typed(c.regs)
    case Some(t) => SameNumber(c.regs);
    case None =>
  }

  // ---------------------------------------------------------------------
  // One call, no nesting: what it asks of the kernel
  // ---------------------------------------------------------------------

  function Answer(p: Plan, v: u64): Reply {
    match p.ret
    case Some(t) => Convert(t, v)
    case None => Returned(v)
  }

  /** The state after the call apart from what the kernel does. */
  function After(st: State, r: SyscallRegs): State {
    var traitRun := !st.inHook && st.hook == TraitHook;
    st.(entries := st.entries + 1,
        traitCalls := if traitRun then st.traitCalls + 1 else st.traitCalls,
        actions := st.actions + [if st.inHook then Bypassed(r) else Ran(r)],
        kernelLog := st.kernelLog + [Issued(st, r)])
  }

  lemma EntryFollowsPlan(kernel: Kernel, st: State, r: SyscallRegs)
    requires !st.locked
    ensures var o := Entry(kernel, st, Call(r, []));
            var p := Decide(st, r);
            && o.reply == Answer(p, kernel(st.kernelLog, p.issued))
            && (o.reply.Returned? ==> o.st == After(st, r))
  {
    if !st.inHook && st.hook != DefaultHook {
      var st1 := st.(entries := st.entries + 1, inHook := true, actions := st.actions + [Ran(r)]);
      assert Nested(kernel, st1, []) == st1;
      var st2 := st1.(traitCalls := st.traitCalls + 1, locked := true);
      assert Nested(kernel, st2, []) == st2;
    }
  }

  /** With the fallback hook, or the dispatcher over default methods, the kernel learns from a call what it
      would have learnt from the caller's registers. */
  lemma IssuedKeepsView(st: State, r: SyscallRegs)
    ensures KernelView(Issued(st, r)) == KernelView(r)
  {
    if Typed(r).Some? {
      DefaultKeepsView(r);
    }
  }

  lemma PlanAnswer(st: State, r: SyscallRegs, v: u64)
    requires Decide(st, r).ret.Some? ==> ResultFits(r.rax, v)
    ensures Answer(Decide(st, r), v) == Returned(v)
  {
    if Decide(st, r).ret.Some? {
      FitsIsRoundTrip(r, v);
    }
  }
}

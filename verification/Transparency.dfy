/** From start-up to execution: the program in the memory that start-up leaves behind makes the system calls the
    original program makes. */
module Transparency {
  import opened Bytes
  import opened Decoding
  import opened Maps
  import opened Rewriting
  import opened RewriterLaws
  import opened Init
  import opened Trampoline
  import Machine
  import Cpu
  import Stub
  import Sim = Simulation
  import HookApi

  // ---------------------------------------------------------------------
  // The patched sites of a start-up
  // ---------------------------------------------------------------------

  /** A start-up that got through: the preconditions of the rewriting run, the exclusion of the low addresses, and
      regions that do not overlap, as the kernel lists them. */
  ghost predicate Started(su: Setup, w: World, hookAddr: u64, steps: seq<Step>) {
    && Sound(su) && su.pageSize <= LOW_END && ExcludesLow(su.cfg)
    && AllUsable(su, TrampolineWorld(w, su.pageSize, hookAddr).mem, steps)
    && Disjoint(steps)
    && hookAddr >= Stub.STUB_END
  }

  /** Any start-up configuration of the loader qualifies. */
  lemma BootStarts(dec: Decoder, under: Under, pageSize: nat, boot: Boot, w: World, hookAddr: u64)
    requires Contract(dec) && 0 < pageSize <= LOW_END && hookAddr >= Stub.STUB_END
    requires AllUsable(BootSetup(dec, under, pageSize, boot), TrampolineWorld(w, pageSize, hookAddr).mem, BootSteps(boot))
    requires Disjoint(BootSteps(boot))
    ensures Started(BootSetup(dec, under, pageSize, boot), w, hookAddr, BootSteps(boot))
    ensures ExcludesRaw(BootSetup(dec, under, pageSize, boot).cfg, boot.rawSyscall)
  {
    hide Contract, AllUsable, TrampolineWorld, Disjoint, BootSteps;
    BootConfigExcludes(boot.loaderPath, boot.rawSyscall, boot.exclude);
  }

  /** Memory when the rewriting run begins. */
  ghost function Before(su: Setup, w: World, hookAddr: u64): Mem
    requires su.pageSize > 0
  {
    TrampolineWorld(w, su.pageSize, hookAddr).mem
  }

  ghost function SitesOf(su: Setup, w: World, hookAddr: u64, steps: seq<Step>): set<int>
    requires Started(su, w, hookAddr, steps)
  {
    set p | p in Before(su, w, hookAddr).Keys && SiteAt(su, Before(su, w, hookAddr), steps, p)
  }

  lemma SiteIsMapped(su: Setup, mem: Mem, steps: seq<Step>, p: int)
    requires Sound(su) && AllUsable(su, mem, steps) && SiteAt(su, mem, steps, p)
    ensures p in mem
  {
    hide Contract, PlainAt, Excluded, NoOverflow;
    var i :| 0 <= i < |steps| && SiteOf(su, mem, steps[i].region, steps[i].ans, p);
    assert Usable(su, mem, steps[i].region);
    SiteInside(su, mem, steps[i].region, steps[i].ans, p);
  }

  lemma SitesOfIs(su: Setup, w: World, hookAddr: u64, steps: seq<Step>, p: int)
    requires Started(su, w, hookAddr, steps)
    ensures p in SitesOf(su, w, hookAddr, steps) <==> SiteAt(su, Before(su, w, hookAddr), steps, p)
  {
    hide Contract, SiteAt, AllUsable, TrampolineWorld, Disjoint;
    if SiteAt(su, Before(su, w, hookAddr), steps, p) {
      SiteIsMapped(su, Before(su, w, hookAddr), steps, p);
    }
  }

  // ---------------------------------------------------------------------
  // The started program
  // ---------------------------------------------------------------------

  lemma StartedSites(su: Setup, w: World, hookAddr: u64, steps: seq<Step>)
    requires Started(su, w, hookAddr, steps)
    ensures Sim.SitesOk(SitesOf(su, w, hookAddr, steps), w.mem)
  {
    hide Contract, AllUsable, SiteAt, SitesOf, TrampolineWorld, ExcludesLow;
    var mem := Before(su, w, hookAddr);
    var sites := SitesOf(su, w, hookAddr, steps);
    forall p | p in sites
      ensures p >= LOW_END && Rd(w.mem, p) == 0x0f && Rd(w.mem, p + 1) in {0x05, 0x34} && p + 1 !in sites
    {
      SitesOfIs(su, w, hookAddr, steps, p);
      SitesOfIs(su, w, hookAddr, steps, p + 1);
      SitesAreHigh(su, mem, steps, p);
      SitesApart(su, mem, steps, p);
      StartupMemory(su, w, hookAddr, steps, p);
      StartupMemory(su, w, hookAddr, steps, p + 1);
    }
  }

  lemma StartedMemory(su: Setup, w: World, hookAddr: u64, steps: seq<Step>)
    requires Started(su, w, hookAddr, steps)
    ensures Sim.MemRelated(SitesOf(su, w, hookAddr, steps), {}, w.mem, StartedWorld(su, w, hookAddr, steps).mem)
  {
    hide Contract, AllUsable, SiteAt, SitesOf, TrampolineWorld, ExcludesLow, Sim.SitesOk, StartedWorld, Disjoint;
    StartedSites(su, w, hookAddr, steps);
    var m := StartedWorld(su, w, hookAddr, steps).mem;
    forall a | a >= LOW_END
      ensures Rd(m, a) == Sim.ByteOf(SitesOf(su, w, hookAddr, steps), w.mem, a)
    {
      SitesOfIs(su, w, hookAddr, steps, a);
      SitesOfIs(su, w, hookAddr, steps, a - 1);
      StartupMemory(su, w, hookAddr, steps, a);
    }
  }

  lemma StartedTrampoline(env: Cpu.Env, su: Setup, w: World, steps: seq<Step>)
    requires Started(su, w, env.hookAddr, steps)
    ensures Stub.Loaded(env, StartedWorld(su, w, env.hookAddr, steps).mem)
  {
    hide Contract, AllUsable, SiteAt, TrampolineWorld, ExcludesLow, StartedWorld, TrampolineCode, Disjoint;
    var m := StartedWorld(su, w, env.hookAddr, steps).mem;
    var code := TrampolineCode(env.hookAddr);
    CodeSize(env.hookAddr);
    forall i | 0 <= i < |code|
      ensures Rd(m, i) == code[i]
    {
      StartupMemory(su, w, env.hookAddr, steps, i);
    }
    assert ReadN(m, 0, |code|) == code;
  }

  /** The program as it runs after start-up, next to the original. */
  ghost function StartedProgram(su: Setup, w: World, steps: seq<Step>, env: Cpu.Env, s: Cpu.Cpu): Cpu.Cpu
    requires Started(su, w, env.hookAddr, steps)
  {
    s.(mem := StartedWorld(su, w, env.hookAddr, steps).mem)
  }

  /** Start-up establishes the relation of the simulation: the two programs start related, with nothing tainted. */
  lemma StartedRelated(env: Cpu.Env, su: Setup, w: World, steps: seq<Step>, mode: HookApi.HookPtr, s: Cpu.Cpu)
    requires Started(su, w, env.hookAddr, steps) && s.mem == w.mem && Sim.Ready(mode, s.hook)
    ensures Sim.Related(env, SitesOf(su, w, env.hookAddr, steps), mode, Sim.CLEAN, s, StartedProgram(su, w, steps, env, s))
  {
    hide Contract, AllUsable, SiteAt, SitesOf, TrampolineWorld, ExcludesLow, StartedWorld, Started;
    hide Stub.Loaded, Sim.MemRelated;
    StartedTrampoline(env, su, w, steps);
    StartedMemory(su, w, env.hookAddr, steps);
  }

  /** The whole-system result. Start-up maps the trampoline and rewrites the listed regions; from then on, for any
      number of steps the original program takes safely, the rewritten program reaches a related state having made
      exactly the same kernel calls, and at no moment in between has it made any other. */
  lemma TransparentStart(env: Cpu.Env, su: Setup, w: World, steps: seq<Step>, mode: HookApi.HookPtr, n: nat, s: Cpu.Cpu)
    returns (m: nat)
    requires Started(su, w, env.hookAddr, steps) && s.mem == w.mem && Sim.Ready(mode, s.hook)
    requires Sim.SafeRun(env, SitesOf(su, w, env.hookAddr, steps), mode, n, Sim.CLEAN, s)
    requires mode == HookApi.TraitHook ==> Sim.HonoursPrototypes(env)
    ensures var t := StartedProgram(su, w, steps, env, s);
            var sites := SitesOf(su, w, env.hookAddr, steps);
            && m >= n && Cpu.Run(env, n, s).Some? && Cpu.Run(env, m, t).Some?
            && Sim.Related(env, sites, mode, Sim.FinalTaint(env, sites, n, Sim.CLEAN, s),
                           Cpu.Run(env, n, s).value, Cpu.Run(env, m, t).value)
            && Cpu.Run(env, m, t).value.hook.entries == s.hook.entries + Sim.SiteCalls(env, sites, n, s)
            && forall j: nat :: j <= m ==>
                 Cpu.Run(env, j, t).Some? && Cpu.Run(env, j, t).value.trace <= Cpu.Run(env, n, s).value.trace
  {
    hide Started, SitesOf, StartedWorld, Sim.Related, Sim.SafeRun, Sim.FinalTaint, Sim.SiteCalls, Cpu.Run;
    var t := StartedProgram(su, w, steps, env, s);
    var sites := SitesOf(su, w, env.hookAddr, steps);
    StartedRelated(env, su, w, steps, mode, s);
    m := Sim.Simulation(env, sites, mode, n, Sim.CLEAN, s, t);
    Sim.NoOtherCalls(env, sites, mode, Sim.FinalTaint(env, sites, n, Sim.CLEAN, s), n, m, s, t);
  }

  // ---------------------------------------------------------------------
  // The program the loader starts
  // ---------------------------------------------------------------------

  /** The hook that is published when start-up is over. */
  function PublishedHook(boot: Boot): HookApi.HookPtr {
    match boot.library case Some(Some(h)) => h case _ => HookApi.DefaultHook
  }

  /** The sites of the listing. */
  ghost function BootSites(dec: Decoder, under: Under, pageSize: nat, boot: Boot, mem: Mem): set<int>
    requires Contract(dec)
  {
    set p | p in mem.Keys && ListedSite(dec, under, pageSize, boot, mem, p)
  }

  lemma ListedIsMapped(dec: Decoder, under: Under, pageSize: nat, boot: Boot, mem: Mem, p: int)
    requires Contract(dec) && pageSize > 0 && ListingUsable(under, pageSize, boot, mem)
    requires ListedSite(dec, under, pageSize, boot, mem, p)
    ensures p in mem
  {
    hide Contract, Boundary, MustRewrite, NoOverflow, LineRegion;
  }

  lemma BootSitesAre(dec: Decoder, under: Under, pageSize: nat, boot: Boot, w: World, hookAddr: u64)
    requires Contract(dec) && 0 < pageSize <= LOW_END && ListingUsable(under, pageSize, boot, w.mem)
    requires Started(BootSetup(dec, under, pageSize, boot), w, hookAddr, BootSteps(boot))
    ensures SitesOf(BootSetup(dec, under, pageSize, boot), w, hookAddr, BootSteps(boot)) ==
            BootSites(dec, under, pageSize, boot, w.mem)
  {
    hide Contract, ListingUsable, Started, SitesOf, TrampolineWorld, SiteAt, ListedSite;
    var su := BootSetup(dec, under, pageSize, boot);
    forall p
      ensures p in SitesOf(su, w, hookAddr, BootSteps(boot)) <==> p in BootSites(dec, under, pageSize, boot, w.mem)
    {
      SitesOfIs(su, w, hookAddr, BootSteps(boot), p);
      SitesAreListed(dec, under, pageSize, boot, w, hookAddr, p);
      if ListedSite(dec, under, pageSize, boot, w.mem, p) {
        ListedIsMapped(dec, under, pageSize, boot, w.mem, p);
      }
    }
  }

  /** The main result for the loader itself, told from what it finds: the memory listing, the exclusions, the kernel's
      answers and the hook library. The sites are those of the listing (`Init.ListedSite`), each of which start-up
      turns into `ff d0`; the hook is the one it publishes. */
  lemma TransparentBoot(env: Cpu.Env, dec: Decoder, under: Under, pageSize: nat, boot: Boot, w: World, n: nat, s: Cpu.Cpu)
    returns (m: nat)
    requires Contract(dec) && 0 < pageSize <= LOW_END && env.hookAddr >= Stub.STUB_END
    requires ListingUsable(under, pageSize, boot, w.mem) && ListingDisjoint(boot.listing)
    requires s.mem == w.mem && Sim.Ready(PublishedHook(boot), s.hook)
    requires Sim.SafeRun(env, BootSites(dec, under, pageSize, boot, w.mem), PublishedHook(boot), n, Sim.CLEAN, s)
    requires PublishedHook(boot) == HookApi.TraitHook ==> Sim.HonoursPrototypes(env)
    ensures var t := s.(mem := BootWorld(dec, under, pageSize, boot, w, env.hookAddr).mem);
            var sites := BootSites(dec, under, pageSize, boot, w.mem);
            && m >= n && Cpu.Run(env, n, s).Some? && Cpu.Run(env, m, t).Some?
            && Sim.Related(env, sites, PublishedHook(boot), Sim.FinalTaint(env, sites, n, Sim.CLEAN, s),
                           Cpu.Run(env, n, s).value, Cpu.Run(env, m, t).value)
            && Cpu.Run(env, m, t).value.hook.entries == s.hook.entries + Sim.SiteCalls(env, sites, n, s)
            && Cpu.Run(env, m, t).value.trace == Cpu.Run(env, n, s).value.trace
            && forall j: nat :: j <= m ==>
                 Cpu.Run(env, j, t).Some? && Cpu.Run(env, j, t).value.trace <= Cpu.Run(env, n, s).value.trace
  {
    hide Contract, ListingUsable, ListingDisjoint, Started, SitesOf, BootSites, StartedWorld, Sim.Related, Sim.SafeRun;
    hide Sim.FinalTaint, Sim.SiteCalls, Cpu.Run, TrampolineWorld, AllUsable, BootSteps, Disjoint;
    var su := BootSetup(dec, under, pageSize, boot);
    BootUsable(dec, under, pageSize, boot, w, env.hookAddr);
    ListedDisjoint(boot);
    BootStarts(dec, under, pageSize, boot, w, env.hookAddr);
    BootSitesAre(dec, under, pageSize, boot, w, env.hookAddr);
    m := TransparentStart(env, su, w, BootSteps(boot), PublishedHook(boot), n, s);
    var sites := BootSites(dec, under, pageSize, boot, w.mem);
    var t := StartedProgram(su, w, BootSteps(boot), env, s);
    Sim.SameTrace(env, sites, PublishedHook(boot), Sim.FinalTaint(env, sites, n, Sim.CLEAN, s),
                  Cpu.Run(env, n, s).value, Cpu.Run(env, m, t).value);
  }

  // ---------------------------------------------------------------------
  // Where execution is safe
  // ---------------------------------------------------------------------

  /** A boundary of the sweep is never the second byte of a site. */
  lemma {:induction false} BoundaryNotInside(dec: Decoder, c: seq<byte>, at: nat, o: nat)
    requires Contract(dec) && Boundary(dec, c, o)
    ensures !PlainAt(Sites(dec, c, at), at + o - 1)
    decreases |c|
  {
    HeadLength(dec, c);
    var n := dec(c).len;
    SystemHeadLength(dec, c);
    hide Contract, PlainAt, Sites;
    PlainAtHead(dec, c, at, at + o - 1);
    if o > 0 {
      BoundaryNotInside(dec, c[n..], at + n, o - n);
    }
  }

  lemma SystemHeadLength(dec: Decoder, c: seq<byte>)
    requires Contract(dec) && c != []
    ensures PlainHead(dec, c) ==> dec(c).len == 2
  {
  }

  /** Execution stands on an instruction boundary of the sweep over listed region i, whose bytes are those the
      rewriter saw, and the instruction ends inside the region. */
  ghost predicate OnBoundary(su: Setup, mem: Mem, steps: seq<Step>, i: nat, s: Cpu.Cpu)
    requires Sound(su) && AllUsable(su, mem, steps)
  {
    && i < |steps| && Considered(su, steps[i].region)
    && var r := steps[i].region;
       && r.start <= s.rip && s.rip + Cpu.Fetch(s).len <= r.end
       && (forall a :: r.start <= a < r.end ==> Rd(s.mem, a) == Rd(mem, a))
       && Usable(su, mem, r)
       && Boundary(su.dec, CodeOf(mem, r), s.rip - r.start)
  }

  /** What the processor fetches on a boundary is what the sweep decoded there. */
  lemma FetchOnBoundary(su: Setup, mem: Mem, steps: seq<Step>, i: nat, s: Cpu.Cpu)
    requires Sound(su) && AllUsable(su, mem, steps) && su.dec == CpuDecoder
    requires OnBoundary(su, mem, steps, i, s) && Cpu.Fetch(s).instr != Machine.Bad
    ensures var c := CodeOf(mem, steps[i].region);
            var o := s.rip - steps[i].region.start;
            && 0 <= o < |c| && Machine.Decode(c[o..]) == Cpu.Fetch(s) && Cpu.Fetch(s).len >= 1
  {
    hide Contract, Machine.Decode, Considered, UsableIfConsidered;
    var r := steps[i].region;
    var c := CodeOf(mem, r);
    var o := s.rip - r.start;
    BoundaryInsn(su.dec, c, 0, o, 0);
    var b := ReadN(s.mem, s.rip, 15);
    Machine.DecodeLength(b);
    var d := c[o..];
    forall k | 0 <= k < Cpu.Fetch(s).len
      ensures b[k] == d[k]
    {
      assert d[k] == c[o + k] == Rd(mem, r.start + (o + k));
      assert b[k] == Rd(s.mem, s.rip + k);
    }
    Machine.DecodeComplete(b, d);
  }

  /** On a boundary an instruction is either a whole patched system call or shares no byte with one: the condition
      the simulation puts on instruction addresses holds for every program that executes along the sweep. */
  lemma BoundaryIsSafe(su: Setup, w: World, hookAddr: u64, steps: seq<Step>, i: nat, s: Cpu.Cpu)
    requires Started(su, w, hookAddr, steps) && su.dec == CpuDecoder
    requires OnBoundary(su, Before(su, w, hookAddr), steps, i, s) && Cpu.Fetch(s).instr != Machine.Bad
    ensures var sites := SitesOf(su, w, hookAddr, steps);
            && (s.rip in sites ==> Cpu.Fetch(s).instr == Machine.Syscall || Cpu.Fetch(s).instr == Machine.Sysenter)
            && (s.rip !in sites ==> forall x :: s.rip <= x < s.rip + Cpu.Fetch(s).len ==> !Sim.Patched(sites, x))
  {
    hide Contract, Machine.Decode, AllUsable, SitesOf, TrampolineWorld, ExcludesLow, SiteAt, Disjoint, OnBoundary;
    hide Cpu.Fetch;
    var mem := Before(su, w, hookAddr);
    var sites := SitesOf(su, w, hookAddr, steps);
    FetchOnBoundary(su, mem, steps, i, s);
    forall x | s.rip - 1 <= x < s.rip + Cpu.Fetch(s).len && x in sites
      ensures x == s.rip && (Cpu.Fetch(s).instr == Machine.Syscall || Cpu.Fetch(s).instr == Machine.Sysenter)
    {
      SitesOfIs(su, w, hookAddr, steps, x);
      BoundarySite(su, mem, steps, i, s, x);
    }
  }

  lemma BoundarySite(su: Setup, mem: Mem, steps: seq<Step>, i: nat, s: Cpu.Cpu, x: int)
    requires Sound(su) && AllUsable(su, mem, steps) && Disjoint(steps) && su.dec == CpuDecoder
    requires OnBoundary(su, mem, steps, i, s) && Cpu.Fetch(s).instr != Machine.Bad
    requires s.rip - 1 <= x < s.rip + Cpu.Fetch(s).len && SiteAt(su, mem, steps, x)
    ensures x == s.rip && (Cpu.Fetch(s).instr == Machine.Syscall || Cpu.Fetch(s).instr == Machine.Sysenter)
  {
    hide Contract, Machine.Decode, PlainAt, Sites, Boundary, Cpu.Fetch, Considered, Usable, UsableIfConsidered;
    var r := steps[i].region;
    var c := CodeOf(mem, r);
    var o := s.rip - r.start;
    FetchOnBoundary(su, mem, steps, i, s);
    var j :| 0 <= j < |steps| && SiteOf(su, mem, steps[j].region, steps[j].ans, x);
    if j != i {
      OtherRegion(su, mem, steps, i, j, if x == s.rip - 1 then s.rip else x);
      assert false;
    }
    BoundaryNotInside(su.dec, c, 0, o);
    BoundaryInsn(su.dec, c, 0, o, x - r.start);
  }

  // ---------------------------------------------------------------------
  // The library's own system call instruction
  // ---------------------------------------------------------------------

  /** A `syscall` instruction in the same listed region as `raw_syscall` still goes to the kernel after start-up,
      and not into the trampoline: the hook library's own calls cannot come back to it. */
  lemma RawSyscallIsReal(env: Cpu.Env, su: Setup, w: World, steps: seq<Step>, rawSyscall: u64, i: nat, t: Cpu.Cpu)
    requires Started(su, w, env.hookAddr, steps) && ExcludesRaw(su.cfg, rawSyscall)
    requires i < |steps| && steps[i].region.start <= rawSyscall < steps[i].region.end
    requires steps[i].region.start <= t.rip && t.rip + 2 <= steps[i].region.end && t.rip + 2 < TWO64
    requires Rd(w.mem, t.rip) == 0x0f && Rd(w.mem, t.rip + 1) == 0x05 && t.rip >= LOW_END
    requires t.rip != env.hookAddr
    requires forall a :: t.rip <= a < t.rip + 2 ==> Rd(t.mem, a) == Rd(StartedWorld(su, w, env.hookAddr, steps).mem, a)
    ensures Cpu.Step(env, t).Some?
    ensures var u := Cpu.Step(env, t).value;
            && u.rip == t.rip + 2 && u.hook == t.hook
            && |u.trace| == |t.trace| + 1
            && u.regs[Machine.RAX] == Cpu.KernelReply(env, t, Cpu.Block(t.regs)).ret
  {
    hide Contract, AllUsable, SiteAt, TrampolineWorld, ExcludesLow, Pass, Disjoint, ExcludesRaw;
    hide Machine.DecodeOp, Machine.Decode, Cpu.Step;
    var m := StartedWorld(su, w, env.hookAddr, steps).mem;
    var tw := TrampolineWorld(w, su.pageSize, env.hookAddr);
    forall a | t.rip <= a < t.rip + 2
      ensures Rd(t.mem, a) == Rd(w.mem, a)
    {
      RawRegionKept(su, NO_STATS, tw, steps, rawSyscall, i, a);
      StartupMemory(su, w, env.hookAddr, steps, a);
    }
    assert ReadN(t.mem, t.rip, 2) == [0x0f, 0x05];
    assert Machine.Encode(Machine.Syscall) == [0x0f, 0x05];
    Cpu.StepEncoded(env, t, Machine.Syscall);
  }
}

/** Start-up: the trampoline is mapped and generated, the executable regions are rewritten, and only then is a
    hook loaded and published. */
module Init {
  import opened Bytes
  import opened Decoding
  import opened Maps
  import opened Rewriting
  import opened RewriterLaws
  import opened Trampoline
  import Machine
  import HookApi

  const NO_STATS: Stats := Stats(0, 0, 0, 0, 0)

  // ---------------------------------------------------------------------
  // The mandatory exclusions
  // ---------------------------------------------------------------------

  function NonEmpty(ss: seq<string>): set<string> {
    set s | s in ss && s != ""
  }

  /** Inputs of the environment: the path of the loader library if it could be determined, the address of
      `raw_syscall`, and the ZPOLINE_EXCLUDE variable. */
  function ConfigFor(loaderPath: Option<string>, rawSyscall: u64, exclude: Option<string>): Config {
    Config(
      (match loaderPath case Some(p) => {p} case None => {}) +
      (match exclude case Some(v) => NonEmpty(SplitOn(v, ':')) case None => {}),
      [(rawSyscall, rawSyscall + 4096), (0, LOW_END)],
      false)
  }

  method BuildRewriteConfig(loaderPath: Option<string>, rawSyscall: u64, exclude: Option<string>)
    returns (config: RewriteConfig)
    ensures fresh(config) && config.Value() == ConfigFor(loaderPath, rawSyscall, exclude)
  {
    config := new RewriteConfig();
    match loaderPath {
      case Some(p) => config.ExcludePath(p);
      case None =>
    }
    config.ExcludeRange(rawSyscall, rawSyscall + 4096);
    config.ExcludeRange(0, LOW_END);
    ghost var loader := config.excludePaths;
    match exclude {
      case Some(v) =>
        var paths := SplitOn(v, ':');
        for i := 0 to |paths|
          invariant fresh(config) && !config.dryRun
          invariant config.excludeRanges == [(rawSyscall, rawSyscall + 4096), (0, LOW_END)]
          invariant config.excludePaths == loader + NonEmpty(paths[..i])
        {
          assert paths[..i + 1] == paths[..i] + [paths[i]];
          if paths[i] != "" {
            config.ExcludePath(paths[i]);
          }
        }
        assert paths[..|paths|] == paths;
      case None =>
    }
  }

  // ---------------------------------------------------------------------
  // The loop over the regions
  // ---------------------------------------------------------------------

  predicate Contains(s: string, t: string) {
    exists i :: 0 <= i <= |s| && t <= s[i..]
  }

  predicate IsSpecial(region: MemoryRegion) {
    region.pathname.Some? && (Contains(region.pathname.value, "[vdso]") || Contains(region.pathname.value, "[vsyscall]"))
  }

  predicate Selects(region: MemoryRegion) {
    region.executable && !IsSpecial(region)
  }

  /** The regions handed to the rewriter, in listing order, with the kernel's answers for each. */
  function Selected(regions: seq<MemoryRegion>, answers: seq<Answers>): seq<Step>
    requires |answers| == |regions|
  {
    if regions == [] then []
    else (if Selects(regions[0]) then [Step(regions[0], answers[0])] else []) + Selected(regions[1..], answers[1..])
  }

  lemma {:induction false} SelectedSnoc(regions: seq<MemoryRegion>, answers: seq<Answers>, i: nat)
    requires |answers| == |regions| && i < |regions|
    ensures Selected(regions[..i + 1], answers[..i + 1]) ==
            Selected(regions[..i], answers[..i]) + (if Selects(regions[i]) then [Step(regions[i], answers[i])] else [])
  {
    hide Selects;
    var r, a := regions[..i + 1], answers[..i + 1];
    if i == 0 {
      assert r == [regions[0]] && a == [answers[0]] && r[1..] == [] && a[1..] == [];
    } else {
      SelectedSnoc(regions[1..], answers[1..], i - 1);
      assert r[1..] == regions[1..][..i] && a[1..] == answers[1..][..i];
      assert regions[..i][1..] == regions[1..][..i - 1] && answers[..i][1..] == answers[1..][..i - 1];
    }
  }

  /** A selected step is a listed region with its answers. */
  lemma {:induction false} SelectedFrom(regions: seq<MemoryRegion>, answers: seq<Answers>, s: Step)
    requires |answers| == |regions|
    ensures s in Selected(regions, answers) <==>
            exists i :: 0 <= i < |regions| && regions[i] == s.region && answers[i] == s.ans && Selects(regions[i])
  {
    hide Selects;
    if regions != [] {
      SelectedFrom(regions[1..], answers[1..], s);
      if s in Selected(regions[1..], answers[1..]) {
        var i :| 0 <= i < |regions[1..]| && regions[1..][i] == s.region && answers[1..][i] == s.ans && Selects(regions[1..][i]);
        assert regions[i + 1] == s.region && answers[i + 1] == s.ans;
      }
      if exists i :: 0 <= i < |regions| && regions[i] == s.region && answers[i] == s.ans && Selects(regions[i]) {
        var i :| 0 <= i < |regions| && regions[i] == s.region && answers[i] == s.ans && Selects(regions[i]);
        if i > 0 {
          assert regions[1..][i - 1] == s.region && answers[1..][i - 1] == s.ans;
        }
      }
    }
  }

  predicate At(s: string, k: nat, t: string) {
    k + |t| <= |s| && s[k..k + |t|] == t
  }

  /** The text occurs somewhere in the string. */
  ghost predicate Mentions(s: string, t: string) {
    exists k: nat :: At(s, k, t)
  }

  lemma ContainsMeans(s: string, t: string)
    ensures Contains(s, t) <==> Mentions(s, t)
  {
    if Contains(s, t) {
      var i :| 0 <= i <= |s| && t <= s[i..];
      assert s[i..][..|t|] == s[i..i + |t|];
      assert At(s, i, t);
    }
    if Mentions(s, t) {
      var k: nat :| At(s, k, t);
      assert s[k..][..|t|] == t;
      assert t <= s[k..];
    }
  }

  /** Executable, and not named after one of the kernel's own regions. */
  ghost predicate Rewritable(region: MemoryRegion) {
    && region.executable
    && (region.pathname.Some? ==>
          !Mentions(region.pathname.value, "[vdso]") && !Mentions(region.pathname.value, "[vsyscall]"))
  }

  lemma SelectsRewritable(region: MemoryRegion)
    ensures Selects(region) <==> Rewritable(region)
  {
    if region.pathname.Some? {
      ContainsMeans(region.pathname.value, "[vdso]");
      ContainsMeans(region.pathname.value, "[vsyscall]");
    }
  }

  /** The region at listing position i gets a step, in its place among the steps, if and only if it is executable and
      its path mentions neither "[vdso]" nor "[vsyscall]". */
  lemma StepOfRegion(regions: seq<MemoryRegion>, answers: seq<Answers>, i: nat)
    requires |answers| == |regions| && i < |regions|
    ensures var all := Selected(regions, answers);
            var n := |Selected(regions[..i], answers[..i])|;
            && |Selected(regions[..i + 1], answers[..i + 1])| == n + (if Rewritable(regions[i]) then 1 else 0)
            && (Rewritable(regions[i]) ==> n < |all| && all[n] == Step(regions[i], answers[i]))
  {
    hide Selects, Rewritable;
    SelectsRewritable(regions[i]);
    SelectedSnoc(regions, answers, i);
    SelectedPrefix(regions, answers, i + 1);
  }

  /** Every step is of a listed region that is executable and not special. */
  lemma StepIsListed(regions: seq<MemoryRegion>, answers: seq<Answers>, s: Step)
    requires |answers| == |regions|
    ensures s in Selected(regions, answers) <==>
            exists i :: 0 <= i < |regions| && regions[i] == s.region && answers[i] == s.ans && Rewritable(regions[i])
  {
    hide Selects, Rewritable;
    SelectedFrom(regions, answers, s);
    SelectsRewritable(s.region);
  }

  ghost predicate ListDisjoint(regions: seq<MemoryRegion>) {
    forall i, j {:trigger regions[i], regions[j]} :: 0 <= i < j < |regions| ==> DisjointFrom(regions[i], regions[j])
  }

  lemma {:induction false} SelectedDisjoint(regions: seq<MemoryRegion>, answers: seq<Answers>)
    requires |answers| == |regions| && ListDisjoint(regions)
    ensures Disjoint(Selected(regions, answers))
  {
    hide Selects, DisjointFrom;
    if regions != [] {
      assert forall i :: 0 <= i < |regions| - 1 ==> regions[1..][i] == regions[i + 1];
      SelectedDisjoint(regions[1..], answers[1..]);
      var rest := Selected(regions[1..], answers[1..]);
      var all := Selected(regions, answers);
      forall j | 0 <= j < |rest|
        ensures DisjointFrom(regions[0], rest[j].region)
      {
        assert rest[j] in rest;
        SelectedFrom(regions[1..], answers[1..], rest[j]);
        var i :| 0 <= i < |regions[1..]| && regions[1..][i] == rest[j].region;
        assert regions[i + 1] == rest[j].region;
      }
      if Selects(regions[0]) {
        assert forall k :: 0 < k < |all| ==> all[k] == rest[k - 1];
      } else {
        assert all == rest;
      }
    }
  }

  /** A region whose path mentions "[vdso]" or "[vsyscall]", or that is not executable, is in no step, and the whole
      run leaves every byte of it alone. */
  lemma SpecialUntouched(su: Setup, w: World, regions: seq<MemoryRegion>, answers: seq<Answers>, i: nat, a: int)
    requires |answers| == |regions| && i < |regions| && ListDisjoint(regions)
    requires Sound(su) && AllUsable(su, w.mem, Selected(regions, answers))
    requires !Rewritable(regions[i]) && regions[i].start <= a < regions[i].end
    ensures forall s :: s in Selected(regions, answers) ==> s.region != regions[i]
    ensures Rd(Pass(su, NO_STATS, w, Selected(regions, answers)).world.mem, a) == Rd(w.mem, a)
  {
    hide Contract, Selects, Rewritable, UsableIfConsidered, SiteOf, Pass, Selected, Disjoint;
    var steps := Selected(regions, answers);
    forall s | s in steps
      ensures s.region != regions[i]
      ensures !(s.region.start <= a < s.region.end)
    {
      StepIsListed(regions, answers, s);
      var j :| 0 <= j < |regions| && regions[j] == s.region && Rewritable(regions[j]);
      var first, second := if i < j then i else j, if i < j then j else i;
      assert DisjointFrom(regions[first], regions[second]);
    }
    SelectedDisjoint(regions, answers);
    PassPointwise(su, NO_STATS, w, steps, a);
    forall k | 0 <= k < |steps|
      ensures UsableIfConsidered(su, w.mem, steps[k].region)
      ensures !SiteOf(su, w.mem, steps[k].region, steps[k].ans, a)
      ensures !SiteOf(su, w.mem, steps[k].region, steps[k].ans, a - 1)
    {
      assert UsableIfConsidered(su, w.mem, steps[k].region);
      assert steps[k] in steps;
      OutsideRegion(su, w.mem, steps[k].region, steps[k].ans, a);
    }
  }

  lemma UsablePrefix(su: Setup, mem: Mem, steps: seq<Step>, all: seq<Step>)
    requires su.pageSize > 0 && AllUsable(su, mem, all) && steps <= all
    ensures AllUsable(su, mem, steps)
  {
    hide UsableIfConsidered;
    forall i | 0 <= i < |steps|
      ensures UsableIfConsidered(su, mem, steps[i].region)
    {
      assert steps[i] == all[i];
    }
  }

  lemma {:induction false} SelectedPrefix(regions: seq<MemoryRegion>, answers: seq<Answers>, i: nat)
    requires |answers| == |regions| && i <= |regions|
    ensures Selected(regions[..i], answers[..i]) <= Selected(regions, answers)
    decreases |regions| - i
  {
    if i == |regions| {
      assert regions[..i] == regions && answers[..i] == answers;
    } else {
      SelectedPrefix(regions, answers, i + 1);
      SelectedSnoc(regions, answers, i);
    }
  }


  /** An error in one region does not stop the others. */
  method RewriteSyscalls(space: Space, dec: Decoder, under: Under, config: RewriteConfig,
                         regions: seq<MemoryRegion>, answers: seq<Answers>) returns (stats: Stats)
    requires |answers| == |regions|
    requires Sound(Setup(dec, under, space.pageSize, config.Value()))
    requires AllUsable(Setup(dec, under, space.pageSize, config.Value()), space.mem, Selected(regions, answers))
    modifies space`mem, space`prot
    ensures var p := Pass(Setup(dec, under, space.pageSize, config.Value()), NO_STATS, old(space.Value()),
                          Selected(regions, answers));
            stats == p.stats && space.Value() == p.world
  {
    hide Contract, RegionOutcome, UsableIfConsidered, AllUsable, Selects, Pass;
    ghost var su := Setup(dec, under, space.pageSize, config.Value());
    ghost var all := Selected(regions, answers);
    var rewriter := new Rewriter(dec, under, config);
    ghost var done: seq<Step> := [];
    assert regions[..0] == [] && answers[..0] == [];
    EmptyPass(su, NO_STATS, space.Value());
    for i := 0 to |regions|
      invariant rewriter.dec == dec && rewriter.under == under && rewriter.config == config && fresh(rewriter)
      invariant config.Value() == su.cfg
      invariant done == Selected(regions[..i], answers[..i])
      invariant AllUsable(su, old(space.mem), done)
      invariant PassReached(su, old(space.Value()), done, rewriter.stats, space.Value())
    {
      SelectedSnoc(regions, answers, i);
      SelectedPrefix(regions, answers, i + 1);
      if regions[i].executable {
        if !IsSpecial(regions[i]) {
          ghost var last := Step(regions[i], answers[i]);
          assert Selects(regions[i]) by { SelectsMeans(regions[i]); }
          UsablePrefix(su, old(space.mem), done + [last], all);
          PassSnoc(su, NO_STATS, old(space.Value()), done, last);
          var _ := rewriter.RewriteRegion(space, regions[i], answers[i]);
          done := done + [last];
        } else {
          assert !Selects(regions[i]) by { SelectsMeans(regions[i]); }
        }
      } else {
        assert !Selects(regions[i]) by { SelectsMeans(regions[i]); }
      }
    }
    assert regions[..|regions|] == regions && answers[..|regions|] == answers;
    stats := rewriter.stats;
  }

  lemma SelectsMeans(region: MemoryRegion)
    ensures Selects(region) == (region.executable && !IsSpecial(region))
  {
  }

  ghost predicate PassReached(su: Setup, w: World, steps: seq<Step>, stats: Stats, now: World)
    requires Sound(su) && AllUsable(su, w.mem, steps)
  {
    var p := Pass(su, NO_STATS, w, steps);
    p.stats == stats && p.world == now
  }

  lemma EmptyPass(su: Setup, stats: Stats, w: World)
    requires Sound(su)
    ensures AllUsable(su, w.mem, []) && Pass(su, stats, w, []) == PassResult(stats, w, [])
  {
  }

  // ---------------------------------------------------------------------
  // The trampoline mapping
  // ---------------------------------------------------------------------

  /** Bytes the mapping at address 0 occupies: the requested size, rounded up to pages. */
  function MappedSize(pageSize: nat): nat
    requires pageSize > 0
  {
    AlignedSize(0, TRAMPOLINE_SIZE, pageSize)
  }

  function TrampolineImage(hookAddr: u64): seq<byte> {
    var code := TrampolineCode(hookAddr);
    if |code| <= TRAMPOLINE_SIZE then code + ZeroBytes(TRAMPOLINE_SIZE - |code|) else code
  }

  function PageCount(size: nat, pageSize: nat): nat
    requires pageSize > 0
  {
    size / pageSize
  }

  function TrampolineWorld(w: World, pageSize: nat, hookAddr: u64): World
    requires pageSize > 0
  {
    var size := MappedSize(pageSize);
    World(WriteN(WriteN(w.mem, 0, ZeroBytes(size)), 0, TrampolineImage(hookAddr)),
          SetPages(w.prot, 0, PageCount(size, pageSize), Prot(true, true, true)))
  }

  lemma CodeSize(hookAddr: u64)
    ensures |TrampolineCode(hookAddr)| == MAX_SYSCALL_NR + STUB_SIZE
  {
    hide Machine.Assemble, StubProgram, StubBytes;
    StubIsProgram(hookAddr);
  }

  method SetupTrampoline(space: Space, hookAddr: u64, mmapSucceeds: bool) returns (ok: bool)
    requires space.pageSize > 0
    modifies space`mem, space`prot
    ensures ok == mmapSucceeds
    ensures space.Value() == if ok then TrampolineWorld(old(space.Value()), space.pageSize, hookAddr) else old(space.Value())
  {
    hide TrampolineCode, WriteN, SetPages, AlignedSize;
    if !mmapSucceeds {
      return false;
    }
    ZeroPage(space.pageSize);
    space.MapZero(0, MappedSize(space.pageSize), Prot(true, true, true));
    var slice := new byte[TRAMPOLINE_SIZE](i => 0);
    GenerateTrampolineCode(slice, hookAddr);
    CodeSize(hookAddr);
    assert slice[..] == TrampolineImage(hookAddr);
    space.mem := WriteN(space.mem, 0, slice[..]);
    return true;
  }

  lemma ZeroPage(pageSize: nat)
    requires pageSize > 0
    ensures 0 / pageSize == 0
  {
  }

  // ---------------------------------------------------------------------
  // zpoline_init
  // ---------------------------------------------------------------------

  /** What start-up finds: whether the mapping at 0 succeeds, the lines of the memory listing (`None`: a read
      error), the kernel's answer to the permission changes of each listed region, the inputs of the exclusions,
      and the hook library: none, one that failed to load, or its hook. */
  datatype Boot = Boot(
    mmapSucceeds: bool,
    listing: seq<Option<string>>,
    answers: nat -> Answers,
    loaderPath: Option<string>,
    rawSyscall: u64,
    exclude: Option<string>,
    library: Option<Option<HookApi.HookPtr>>)

  function ListedRegions(listing: seq<Option<string>>): seq<MemoryRegion> {
    Parsed(seq(|listing|, i requires 0 <= i < |listing| => match listing[i] case Some(l) => l case None => ""))
  }

  function BootSteps(boot: Boot): seq<Step> {
    var regions := ListedRegions(boot.listing);
    Selected(regions, seq(|regions|, i requires 0 <= i < |regions| => boot.answers(i)))
  }

  function BootSetup(dec: Decoder, under: Under, pageSize: nat, boot: Boot): Setup {
    Setup(dec, under, pageSize, ConfigFor(boot.loaderPath, boot.rawSyscall, boot.exclude))
  }

  /** The address space after a start-up that got through. */
  ghost function StartedWorld(su: Setup, w: World, hookAddr: u64, steps: seq<Step>): World
    requires Sound(su) && AllUsable(su, TrampolineWorld(w, su.pageSize, hookAddr).mem, steps)
  {
    Pass(su, NO_STATS, TrampolineWorld(w, su.pageSize, hookAddr), steps).world
  }

  lemma SameListing(listing: seq<Option<string>>)
    requires None !in listing
    ensures ListedRegions(listing) ==
            Parsed(seq(|listing|, i requires 0 <= i < |listing| && listing[i].Some? => listing[i].value))
  {
    assert seq(|listing|, i requires 0 <= i < |listing| => match listing[i] case Some(l) => l case None => "") ==
           seq(|listing|, i requires 0 <= i < |listing| && listing[i].Some? => listing[i].value);
  }

  // ---------------------------------------------------------------------
  // What start-up leaves in memory
  // ---------------------------------------------------------------------

  /** The configuration excludes the low addresses. */
  ghost predicate ExcludesLow(cfg: Config) {
    (0, LOW_END) in cfg.excludeRanges
  }

  lemma ConsideredIsHigh(su: Setup, region: MemoryRegion)
    requires ExcludesLow(su.cfg) && Considered(su, region)
    ensures region.start >= LOW_END || region.end == 0
  {
    var i :| 0 <= i < |su.cfg.excludeRanges| && su.cfg.excludeRanges[i] == (0, LOW_END);
    assert !Overlaps(su.cfg.excludeRanges[i], region);
  }

  lemma SitesAreHigh(su: Setup, mem: Mem, steps: seq<Step>, p: int)
    requires Sound(su) && AllUsable(su, mem, steps) && ExcludesLow(su.cfg)
    ensures SiteAt(su, mem, steps, p) ==> p >= LOW_END && Rd(mem, p) == 0x0f && Rd(mem, p + 1) in {0x05, 0x34}
  {
    hide Contract, UsableIfConsidered, SiteOf, ExcludesLow;
    if SiteAt(su, mem, steps, p) {
      var i :| 0 <= i < |steps| && SiteOf(su, mem, steps[i].region, steps[i].ans, p);
      assert UsableIfConsidered(su, mem, steps[i].region);
      SiteInside(su, mem, steps[i].region, steps[i].ans, p);
      SiteConsidered(su, mem, steps[i].region, steps[i].ans, p);
      ConsideredIsHigh(su, steps[i].region);
    }
  }

  lemma SiteConsidered(su: Setup, mem: Mem, region: MemoryRegion, ans: Answers, p: int)
    requires Sound(su) && UsableIfConsidered(su, mem, region) && SiteOf(su, mem, region, ans, p)
    ensures Considered(su, region) && ans.first
  {
  }

  lemma MappedIsLow(pageSize: nat)
    requires 0 < pageSize <= LOW_END
    ensures TRAMPOLINE_SIZE <= MappedSize(pageSize) <= LOW_END
  {
    var sum := TRAMPOLINE_SIZE + pageSize - 1;
    DivBounds(0, pageSize);
    DivBounds(sum, pageSize);
    assert AlignedStart(0, pageSize) == 0 by { ZeroPage(pageSize); }
    assert Wrap64(sum) == sum;
    if pageSize > 8192 {
      SmallMapping(pageSize);
    }
  }

  lemma SmallMapping(pageSize: nat)
    requires 8192 < pageSize
    ensures ((TRAMPOLINE_SIZE + pageSize - 1) / pageSize) * pageSize == pageSize
  {
    var q := (TRAMPOLINE_SIZE + pageSize - 1) / pageSize;
    DivBounds(TRAMPOLINE_SIZE + pageSize - 1, pageSize);
    if q >= 2 {
      MulMonotone(2, q, pageSize);
    }
    if q <= 0 {
      MulMonotone(q, 0, pageSize);
    }
  }

  /** After start-up, below 64 KiB stand the trampoline's bytes as generated; above, the final memory is the
      patched form of the initial memory. In particular rewriting never touches the trampoline. */
  lemma StartupMemory(su: Setup, w: World, hookAddr: u64, steps: seq<Step>, a: int)
    requires Sound(su) && su.pageSize <= LOW_END && ExcludesLow(su.cfg)
    requires AllUsable(su, TrampolineWorld(w, su.pageSize, hookAddr).mem, steps) && Disjoint(steps)
    ensures var t := TrampolineWorld(w, su.pageSize, hookAddr).mem;
            var m := StartedWorld(su, w, hookAddr, steps).mem;
            && (a < LOW_END ==> Rd(m, a) == Rd(t, a))
            && (0 <= a < MAX_SYSCALL_NR + STUB_SIZE ==>
                  |TrampolineCode(hookAddr)| > a && Rd(m, a) == TrampolineCode(hookAddr)[a])
            && (a >= LOW_END ==> Rd(t, a) == Rd(w.mem, a) && Rd(m, a) == FinalByte(su, t, steps, a))
  {
    hide Contract, AllUsable, Pass, TrampolineCode, SiteAt, ExcludesLow, WriteN, SetPages, MappedSize;
    CodeSize(hookAddr);
    MappedIsLow(su.pageSize);
    PassPointwise(su, NO_STATS, TrampolineWorld(w, su.pageSize, hookAddr), steps, a);
    SitesAreHigh(su, TrampolineWorld(w, su.pageSize, hookAddr).mem, steps, a);
    SitesAreHigh(su, TrampolineWorld(w, su.pageSize, hookAddr).mem, steps, a - 1);
    if a == LOW_END && SiteAt(su, TrampolineWorld(w, su.pageSize, hookAddr).mem, steps, a - 1) {
      assert false;
    }
  }

  /** Sites of different regions are apart, too. */
  lemma SitesApart(su: Setup, mem: Mem, steps: seq<Step>, p: int)
    requires Sound(su) && AllUsable(su, mem, steps) && Disjoint(steps) && SiteAt(su, mem, steps, p)
    ensures !SiteAt(su, mem, steps, p + 1)
  {
    hide Contract, SiteOf, UsableIfConsidered;
    var i :| 0 <= i < |steps| && SiteOf(su, mem, steps[i].region, steps[i].ans, p);
    assert UsableIfConsidered(su, mem, steps[i].region);
    SiteInside(su, mem, steps[i].region, steps[i].ans, p);
    forall j | 0 <= j < |steps|
      ensures !SiteOf(su, mem, steps[j].region, steps[j].ans, p + 1)
    {
      if j != i {
        OtherRegion(su, mem, steps, i, j, p + 1);
      }
    }
  }

  lemma OtherRegion(su: Setup, mem: Mem, steps: seq<Step>, i: nat, j: nat, a: int)
    requires Sound(su) && AllUsable(su, mem, steps) && Disjoint(steps) && i < |steps| && j < |steps| && i != j
    requires steps[i].region.start <= a < steps[i].region.end
    ensures UsableIfConsidered(su, mem, steps[j].region)
    ensures !SiteOf(su, mem, steps[j].region, steps[j].ans, a) && !SiteOf(su, mem, steps[j].region, steps[j].ans, a - 1)
  {
    hide Contract, SiteOf, UsableIfConsidered;
    assert UsableIfConsidered(su, mem, steps[j].region);
    var first, second := if i < j then i else j, if i < j then j else i;
    assert DisjointFrom(steps[first].region, steps[second].region);
    OutsideRegion(su, mem, steps[j].region, steps[j].ans, a);
  }

  /** The exclusions that protect `raw_syscall`. */
  ghost predicate ExcludesRaw(cfg: Config, rawSyscall: u64) {
    (rawSyscall as nat, rawSyscall as nat + 4096) in cfg.excludeRanges
  }

  lemma BootConfigExcludes(loaderPath: Option<string>, rawSyscall: u64, exclude: Option<string>)
    ensures var cfg := ConfigFor(loaderPath, rawSyscall, exclude);
            ExcludesLow(cfg) && ExcludesRaw(cfg, rawSyscall) && !cfg.dryRun
  {
    var ranges := ConfigFor(loaderPath, rawSyscall, exclude).excludeRanges;
    assert ranges[0] == (rawSyscall as nat, rawSyscall as nat + 4096) && ranges[1] == (0, LOW_END);
  }

  /** The whole listed region that contains `raw_syscall` keeps every byte. */
  lemma RawRegionKept(su: Setup, stats: Stats, w: World, steps: seq<Step>, rawSyscall: u64, i: nat, a: int)
    requires Sound(su) && AllUsable(su, w.mem, steps) && Disjoint(steps) && i < |steps|
    requires ExcludesRaw(su.cfg, rawSyscall)
    requires steps[i].region.start <= rawSyscall < steps[i].region.end
    requires steps[i].region.start <= a < steps[i].region.end
    ensures Rd(Pass(su, stats, w, steps).world.mem, a) == Rd(w.mem, a)
  {
    hide Contract, Pass, AllUsable;
    var range := (rawSyscall as nat, rawSyscall as nat + 4096);
    var j :| 0 <= j < |su.cfg.excludeRanges| && su.cfg.excludeRanges[j] == range;
    assert Overlaps(su.cfg.excludeRanges[j], steps[i].region);
    assert RangeExcluded(su.cfg.excludeRanges, steps[i].region);
    RegionUntouched(su, stats, w, steps, i, a);
  }

  /** A system call instruction found at `p` in listed region i, such as the one of `raw_syscall_impl`, is still a
      system call after the pass exactly when its own region was not patched: being close to `raw_syscall` does
      not help when it lies in another region. */
  lemma RawImplKept(su: Setup, stats: Stats, w: World, steps: seq<Step>, i: nat, p: int)
    requires Sound(su) && AllUsable(su, w.mem, steps) && Disjoint(steps) && i < |steps|
    requires UsableIfConsidered(su, w.mem, steps[i].region) && Usable(su, w.mem, steps[i].region)
    requires PlainAt(Found(su, w.mem, steps[i].region), p - steps[i].region.start)
    ensures Rd(Pass(su, stats, w, steps).world.mem, p) == 0x0f <==> !Patches(su, w.mem, steps[i].region, steps[i].ans)
  {
    hide Contract, Pass, Usable, Found, Patches, SiteAt;
    var r := steps[i].region;
    PassPointwise(su, stats, w, steps, p);
    FoundInside(su, w.mem, r, p);
    if Patches(su, w.mem, r, steps[i].ans) {
      assert SiteOf(su, w.mem, r, steps[i].ans, p);
      SiteHere(su, w.mem, steps, i, p);
    } else {
      NoSiteHere(su, w.mem, steps, i, p);
    }
  }

  lemma FoundInside(su: Setup, mem: Mem, region: MemoryRegion, p: int)
    requires Sound(su) && Usable(su, mem, region)
    requires PlainAt(Found(su, mem, region), p - region.start)
    ensures region.start <= p && p + 2 <= region.end && Rd(mem, p) == 0x0f
  {
    hide Contract, Sites;
    var s := Found(su, mem, region);
    var c := CodeOf(mem, region);
    SitesWellPlaced(su.dec, c, 0);
    var k :| 0 <= k < |s| && s[k].plain && s[k].offset == p - region.start;
    assert c[s[k].offset] == Rd(mem, p);
  }

  lemma SiteHere(su: Setup, mem: Mem, steps: seq<Step>, i: nat, p: int)
    requires Sound(su) && AllUsable(su, mem, steps) && i < |steps|
    requires UsableIfConsidered(su, mem, steps[i].region) && SiteOf(su, mem, steps[i].region, steps[i].ans, p)
    ensures SiteAt(su, mem, steps, p)
  {
  }

  lemma NoSiteHere(su: Setup, mem: Mem, steps: seq<Step>, i: nat, p: int)
    requires Sound(su) && AllUsable(su, mem, steps) && Disjoint(steps) && i < |steps|
    requires UsableIfConsidered(su, mem, steps[i].region)
    requires steps[i].region.start <= p < steps[i].region.end
    requires !Patches(su, mem, steps[i].region, steps[i].ans)
    ensures !SiteAt(su, mem, steps, p) && !SiteAt(su, mem, steps, p - 1)
  {
    hide Contract, Patches, UsableIfConsidered, Found;
    forall j | 0 <= j < |steps|
      ensures !SiteOf(su, mem, steps[j].region, steps[j].ans, p)
      ensures !SiteOf(su, mem, steps[j].region, steps[j].ans, p - 1)
    {
      assert UsableIfConsidered(su, mem, steps[j].region);
      if j != i {
        var first, second := if i < j then i else j, if i < j then j else i;
        assert DisjointFrom(steps[first].region, steps[second].region);
        OutsideRegion(su, mem, steps[j].region, steps[j].ans, p);
      }
    }
  }

  // ---------------------------------------------------------------------
  // Start-up, told from the lines of the listing
  // ---------------------------------------------------------------------

  /** The region that line i of the listing describes, if it was read and describes one. */
  function LineRegion(listing: seq<Option<string>>, i: nat): Option<MemoryRegion>
    requires i < |listing|
  {
    match listing[i] case Some(line) => ParseMapsLine(line) case None => None
  }

  /** Lines before line i that describe a region. */
  function RegionsBefore(listing: seq<Option<string>>, i: nat): nat
    requires i <= |listing|
  {
    if i == 0 then 0 else RegionsBefore(listing, i - 1) + if LineRegion(listing, i - 1).Some? then 1 else 0
  }

  /** The path is one of those start-up excludes: the loader's own library or a nonempty part of the variable. */
  predicate ExcludedPath(boot: Boot, e: string) {
    boot.loaderPath == Some(e) || (boot.exclude.Some? && e != "" && e in SplitOn(boot.exclude.value, ':'))
  }

  /** A region that start-up must rewrite: executable, not one of the kernel's own, not touching the first 64 KiB
      or the 4096 bytes from `raw_syscall` on, not under an excluded path. */
  ghost predicate MustRewrite(under: Under, boot: Boot, r: MemoryRegion) {
    && r.executable
    && !(r.start < 65536 && r.end > 0)
    && !(r.start < boot.rawSyscall + 4096 && r.end > boot.rawSyscall)
    && (r.pathname.Some? ==>
          var path := r.pathname.value;
          && !Mentions(path, "[vdso]") && !Mentions(path, "[vsyscall]")
          && forall e: string {:trigger ExcludedPath(boot, e)} :: ExcludedPath(boot, e) ==> !under(path, e) && path != e)
  }

  /** What start-up takes for granted of the regions it must rewrite. */
  ghost predicate ListingUsable(under: Under, pageSize: nat, boot: Boot, mem: Mem)
    requires pageSize > 0
  {
    forall i: nat {:trigger LineRegion(boot.listing, i)} :: i < |boot.listing| ==>
      match LineRegion(boot.listing, i)
      case Some(r) =>
        MustRewrite(under, boot, r) ==>
          && r.start <= r.end && NoOverflow(r.start, r.end, pageSize)
          && forall a :: r.start <= a < r.end ==> a in mem
      case None => true
  }

  ghost predicate ListingDisjoint(listing: seq<Option<string>>) {
    forall i: nat, j: nat {:trigger LineRegion(listing, i), LineRegion(listing, j)} :: i < j < |listing| ==>
      match (LineRegion(listing, i), LineRegion(listing, j))
      case (Some(r), Some(q)) => DisjointFrom(r, q)
      case _ => true
  }

  /** Address p holds an unprefixed system call instruction, on a boundary of the sweep over the region of line i,
      which is rewritten: it must be, it does not start on the first page, and the kernel opens its pages. */
  ghost predicate LineSite(dec: Decoder, under: Under, pageSize: nat, boot: Boot, mem: Mem, i: nat, p: int)
    requires Contract(dec)
  {
    i < |boot.listing| &&
    match LineRegion(boot.listing, i)
    case Some(r) =>
      && MustRewrite(under, boot, r) && r.start >= pageSize && boot.answers(RegionsBefore(boot.listing, i)).first
      && r.start <= p < r.end
      && var c := CodeOf(mem, r);
         var o := p - r.start;
         Boundary(dec, c, o) && (dec(c[o..]).kind == Syscall || dec(c[o..]).kind == Sysenter) && c[o] == 0x0f
    case None => false
  }

  ghost predicate ListedSite(dec: Decoder, under: Under, pageSize: nat, boot: Boot, mem: Mem, p: int)
    requires Contract(dec)
  {
    exists i: nat :: LineSite(dec, under, pageSize, boot, mem, i, p)
  }

  /** The byte at `a` after start-up: ff and d0 at the sites of the listing, as before everywhere else. */
  ghost function StartedByte(dec: Decoder, under: Under, pageSize: nat, boot: Boot, mem: Mem, a: int): byte
    requires Contract(dec)
  {
    if ListedSite(dec, under, pageSize, boot, mem, a) then 0xff
    else if ListedSite(dec, under, pageSize, boot, mem, a - 1) then 0xd0
    else Rd(mem, a)
  }

  // The lines of the listing and the steps of the run

  function Lines(listing: seq<Option<string>>): (lines: seq<string>)
    ensures |lines| == |listing|
  {
    seq(|listing|, i requires 0 <= i < |listing| => match listing[i] case Some(l) => l case None => "")
  }

  lemma EmptyLine()
    ensures ParseMapsLine("") == None
  {
    assert Words("") == [];
  }

  lemma {:induction false} RegionsBeforeIs(listing: seq<Option<string>>, i: nat)
    requires i <= |listing|
    ensures |Parsed(Lines(listing)[..i])| == RegionsBefore(listing, i)
  {
    hide ParseMapsLine;
    if i > 0 {
      RegionsBeforeIs(listing, i - 1);
      var lines := Lines(listing);
      assert lines[..i] == lines[..i - 1] + [lines[i - 1]];
      ParsedSnoc(lines[..i - 1], lines[i - 1]);
      EmptyLine();
    }
  }

  lemma {:induction false} ParsedPrefix(lines: seq<string>, i: nat)
    requires i <= |lines|
    ensures Parsed(lines[..i]) <= Parsed(lines)
    decreases |lines| - i
  {
    hide ParseMapsLine, Parsed;
    if i == |lines| {
      assert lines[..i] == lines;
    } else {
      ParsedPrefix(lines, i + 1);
      assert lines[..i + 1] == lines[..i] + [lines[i]];
      ParsedSnoc(lines[..i], lines[i]);
    }
  }

  /** The region of line i is the parsed region with as many before it as there are describing lines before i. */
  lemma LineIsParsed(listing: seq<Option<string>>, i: nat)
    requires i < |listing| && LineRegion(listing, i).Some?
    ensures var k := RegionsBefore(listing, i);
            k < |ListedRegions(listing)| && ListedRegions(listing)[k] == LineRegion(listing, i).value
  {
    hide ParseMapsLine, Parsed;
    var lines := Lines(listing);
    RegionsBeforeIs(listing, i);
    ParsedPrefix(lines, i + 1);
    assert lines[..i + 1] == lines[..i] + [lines[i]];
    ParsedSnoc(lines[..i], lines[i]);
    SameLines(listing);
  }

  lemma SameLines(listing: seq<Option<string>>)
    ensures ListedRegions(listing) == Parsed(Lines(listing))
  {
    hide Parsed;
    assert Lines(listing) == seq(|listing|, i requires 0 <= i < |listing| => match listing[i] case Some(l) => l case None => "");
  }

  lemma {:induction false} ParsedFromLine(listing: seq<Option<string>>, n: nat, k: nat) returns (i: nat)
    requires n <= |listing| && k < |Parsed(Lines(listing)[..n])|
    ensures i < n && LineRegion(listing, i) == Some(Parsed(Lines(listing)[..n])[k]) && RegionsBefore(listing, i) == k
    decreases n
  {
    hide ParseMapsLine;
    var lines := Lines(listing);
    assert n > 0;
    assert lines[..n] == lines[..n - 1] + [lines[n - 1]];
    ParsedSnoc(lines[..n - 1], lines[n - 1]);
    hide Parsed;
    RegionsBeforeIs(listing, n - 1);
    EmptyLine();
    if k < |Parsed(lines[..n - 1])| {
      i := ParsedFromLine(listing, n - 1, k);
    } else {
      i := n - 1;
    }
  }

  /** Every parsed region comes from a line. */
  lemma RegionHasLine(listing: seq<Option<string>>, k: nat) returns (i: nat)
    requires k < |ListedRegions(listing)|
    ensures i < |listing| && LineRegion(listing, i) == Some(ListedRegions(listing)[k]) && RegionsBefore(listing, i) == k
  {
    hide Parsed, ParseMapsLine;
    SameLines(listing);
    assert Lines(listing)[..|listing|] == Lines(listing);
    i := ParsedFromLine(listing, |listing|, k);
  }

  /** The exclusions of start-up, spelled out. */
  lemma MustRewriteMeans(dec: Decoder, under: Under, pageSize: nat, boot: Boot, r: MemoryRegion)
    ensures MustRewrite(under, boot, r) <==>
            Rewritable(r) && Considered(BootSetup(dec, under, pageSize, boot), r)
  {
    var cfg := ConfigFor(boot.loaderPath, boot.rawSyscall, boot.exclude);
    assert forall e :: e in cfg.excludePaths <==> ExcludedPath(boot, e) by { hide SplitOn; }
    hide SplitOn, Mentions, ExcludedPath;
    assert cfg.excludeRanges[0] == (boot.rawSyscall as nat, boot.rawSyscall as nat + 4096);
    assert cfg.excludeRanges[1] == (0, 65536);
    assert RangeExcluded(cfg.excludeRanges, r) <==>
           Overlaps(cfg.excludeRanges[0], r) || Overlaps(cfg.excludeRanges[1], r);
  }

  lemma ListedDisjoint(boot: Boot)
    requires ListingDisjoint(boot.listing)
    ensures ListDisjoint(ListedRegions(boot.listing)) && Disjoint(BootSteps(boot))
  {
    hide ParseMapsLine, Parsed, ListedRegions, DisjointFrom, Selected, Disjoint;
    var regions := ListedRegions(boot.listing);
    forall i, j | 0 <= i < j < |regions|
      ensures DisjointFrom(regions[i], regions[j])
    {
      var l := RegionHasLine(boot.listing, i);
      var m := RegionHasLine(boot.listing, j);
      BeforeMonotone(boot.listing, m, l);
    }
    SelectedDisjoint(regions, seq(|regions|, i requires 0 <= i < |regions| => boot.answers(i)));
  }

  lemma {:induction false} BeforeMonotone(listing: seq<Option<string>>, i: nat, j: nat)
    requires j < |listing| && i < |listing|
    ensures i <= j ==> RegionsBefore(listing, i) <= RegionsBefore(listing, j)
    decreases j
  {
    hide LineRegion;
    if i < j {
      BeforeMonotone(listing, i, j - 1);
    }
  }

  /** The steps of start-up are the lines whose region is executable and not special. */
  lemma BootStepIs(boot: Boot, s: Step)
    ensures s in BootSteps(boot) <==>
            exists i: nat :: i < |boot.listing| && LineRegion(boot.listing, i) == Some(s.region)
                             && boot.answers(RegionsBefore(boot.listing, i)) == s.ans && Rewritable(s.region)
  {
    hide ParseMapsLine, Parsed, ListedRegions, Rewritable, Selected, LineRegion;
    var regions := ListedRegions(boot.listing);
    var answers := seq(|regions|, i requires 0 <= i < |regions| => boot.answers(i));
    StepIsListed(regions, answers, s);
    if s in BootSteps(boot) {
      var k :| 0 <= k < |regions| && regions[k] == s.region && answers[k] == s.ans && Rewritable(regions[k]);
      var i := RegionHasLine(boot.listing, k);
      assert LineRegion(boot.listing, i) == Some(s.region);
    }
    if i: nat :| i < |boot.listing| && LineRegion(boot.listing, i) == Some(s.region)
                 && boot.answers(RegionsBefore(boot.listing, i)) == s.ans && Rewritable(s.region) {
      LineIsParsed(boot.listing, i);
      var k := RegionsBefore(boot.listing, i);
      assert regions[k] == s.region && answers[k] == s.ans;
    }
  }

  lemma TrampolineKeys(w: World, pageSize: nat, hookAddr: u64)
    requires pageSize > 0
    ensures forall a :: a in w.mem ==> a in TrampolineWorld(w, pageSize, hookAddr).mem
  {
    hide TrampolineImage, MappedSize, SetPages;
  }

  lemma BootUsable(dec: Decoder, under: Under, pageSize: nat, boot: Boot, w: World, hookAddr: u64)
    requires Contract(dec) && 0 < pageSize < TWO64 && ListingUsable(under, pageSize, boot, w.mem)
    ensures Sound(BootSetup(dec, under, pageSize, boot))
    ensures AllUsable(BootSetup(dec, under, pageSize, boot), TrampolineWorld(w, pageSize, hookAddr).mem, BootSteps(boot))
  {
    hide Contract, BootSteps, LineRegion, MustRewrite, Rewritable, TrampolineWorld, NoOverflow, Considered;
    var su := BootSetup(dec, under, pageSize, boot);
    var mem := TrampolineWorld(w, pageSize, hookAddr).mem;
    var steps := BootSteps(boot);
    TrampolineKeys(w, pageSize, hookAddr);
    forall k | 0 <= k < |steps|
      ensures UsableIfConsidered(su, mem, steps[k].region)
    {
      assert steps[k] in steps;
      BootStepIs(boot, steps[k]);
      MustRewriteMeans(dec, under, pageSize, boot, steps[k].region);
    }
  }

  /** The address space after a start-up that got through. */
  ghost function BootWorld(dec: Decoder, under: Under, pageSize: nat, boot: Boot, w: World, hookAddr: u64): World
    requires Contract(dec) && 0 < pageSize < TWO64 && ListingUsable(under, pageSize, boot, w.mem)
  {
    BootUsable(dec, under, pageSize, boot, w, hookAddr);
    StartedWorld(BootSetup(dec, under, pageSize, boot), w, hookAddr, BootSteps(boot))
  }

  /** Memory once the trampoline is mapped: its code, then zeros to the end of the mapping, and above that what was
      there before. */
  lemma TrampolineBytes(w: World, pageSize: nat, hookAddr: u64, a: int)
    requires 0 < pageSize <= LOW_END
    ensures var code := TrampolineCode(hookAddr);
            && |code| == MAX_SYSCALL_NR + STUB_SIZE <= MappedSize(pageSize) <= LOW_END
            && Rd(TrampolineWorld(w, pageSize, hookAddr).mem, a) ==
               if 0 <= a < |code| then code[a] else if 0 <= a < MappedSize(pageSize) then 0 else Rd(w.mem, a)
  {
    hide TrampolineCode, MappedSize, SetPages, WriteN;
    CodeSize(hookAddr);
    MappedIsLow(pageSize);
  }

  lemma SameCode(w: World, pageSize: nat, hookAddr: u64, r: MemoryRegion)
    requires 0 < pageSize <= LOW_END && r.start <= r.end && (r.start >= LOW_END || r.end == 0)
    ensures CodeOf(TrampolineWorld(w, pageSize, hookAddr).mem, r) == CodeOf(w.mem, r)
  {
    hide TrampolineWorld, TrampolineCode, MappedSize;
    var m := TrampolineWorld(w, pageSize, hookAddr).mem;
    forall a | r.start <= a < r.end
      ensures Rd(m, a) == Rd(w.mem, a)
    {
      TrampolineBytes(w, pageSize, hookAddr, a);
    }
    var c, d := CodeOf(m, r), CodeOf(w.mem, r);
    assert forall i :: 0 <= i < |c| ==> c[i] == Rd(m, r.start + i) == d[i];
    assert CodeOf(m, r) == CodeOf(w.mem, r);
  }

  /** A patched site of a region, by the sweep's boundaries over the memory start-up found. */
  lemma SiteOfIs(su: Setup, w: World, hookAddr: u64, r: MemoryRegion, ans: Answers, p: int)
    requires Sound(su) && su.pageSize <= LOW_END && ExcludesLow(su.cfg) && !su.cfg.dryRun
    requires UsableIfConsidered(su, TrampolineWorld(w, su.pageSize, hookAddr).mem, r) && Considered(su, r)
    ensures r.start <= r.end
    ensures var c := CodeOf(w.mem, r);
            var o := p - r.start;
            SiteOf(su, TrampolineWorld(w, su.pageSize, hookAddr).mem, r, ans, p) <==>
              && r.start >= su.pageSize && ans.first && r.start <= p < r.end
              && Boundary(su.dec, c, o) && c[o] == 0x0f
              && (su.dec(c[o..]).kind == Syscall || su.dec(c[o..]).kind == Sysenter)
  {
    hide Contract, TrampolineWorld, Sites, Boundary, Excluded, NoOverflow, CodeOf, ExcludesLow;
    var m := TrampolineWorld(w, su.pageSize, hookAddr).mem;
    ConsideredIsHigh(su, r);
    SameCode(w, su.pageSize, hookAddr, r);
    FirstPage(r.start, su.pageSize);
    PlainAtExactly(su.dec, CodeOf(m, r), p - r.start);
    CodeBytes(w.mem, r);
  }

  /** The sites of the run are the sites of the listing. */
  lemma SitesAreListed(dec: Decoder, under: Under, pageSize: nat, boot: Boot, w: World, hookAddr: u64, p: int)
    requires Contract(dec) && 0 < pageSize <= LOW_END && ListingUsable(under, pageSize, boot, w.mem)
    ensures var su := BootSetup(dec, under, pageSize, boot);
            var m := TrampolineWorld(w, pageSize, hookAddr).mem;
            && Sound(su) && AllUsable(su, m, BootSteps(boot))
            && (SiteAt(su, m, BootSteps(boot), p) <==> ListedSite(dec, under, pageSize, boot, w.mem, p))
  {
    hide Contract, BootSteps, LineRegion, MustRewrite, Rewritable, TrampolineWorld, NoOverflow, Considered, SiteOf;
    hide Boundary, CodeOf, ExcludesLow, UsableIfConsidered;
    var su := BootSetup(dec, under, pageSize, boot);
    var m := TrampolineWorld(w, pageSize, hookAddr).mem;
    var steps := BootSteps(boot);
    BootUsable(dec, under, pageSize, boot, w, hookAddr);
    BootConfigExcludes(boot.loaderPath, boot.rawSyscall, boot.exclude);
    if SiteAt(su, m, steps, p) {
      var k :| 0 <= k < |steps| && SiteOf(su, m, steps[k].region, steps[k].ans, p);
      assert steps[k] in steps;
      SiteConsidered(su, m, steps[k].region, steps[k].ans, p);
      SiteOfIs(su, w, hookAddr, steps[k].region, steps[k].ans, p);
      BootStepIs(boot, steps[k]);
      MustRewriteMeans(dec, under, pageSize, boot, steps[k].region);
      var i: nat :| i < |boot.listing| && LineRegion(boot.listing, i) == Some(steps[k].region)
                    && boot.answers(RegionsBefore(boot.listing, i)) == steps[k].ans;
      assert LineSite(dec, under, pageSize, boot, w.mem, i, p);
    }
    if i: nat :| LineSite(dec, under, pageSize, boot, w.mem, i, p) {
      var r := LineRegion(boot.listing, i).value;
      var s := Step(r, boot.answers(RegionsBefore(boot.listing, i)));
      MustRewriteMeans(dec, under, pageSize, boot, r);
      BootStepIs(boot, s);
      var k :| 0 <= k < |steps| && steps[k] == s;
      assert UsableIfConsidered(su, m, steps[k].region);
      SiteOfIs(su, w, hookAddr, r, s.ans, p);
      assert SiteOf(su, m, steps[k].region, steps[k].ans, p);
    }
  }

  /** After start-up, told from the listing alone: below 64 KiB stands the trampoline; above, exactly the sites of the
      listing have become `ff d0`. */
  lemma BootRewrites(dec: Decoder, under: Under, pageSize: nat, boot: Boot, w: World, hookAddr: u64, a: int)
    requires Contract(dec) && 0 < pageSize <= LOW_END && ListingUsable(under, pageSize, boot, w.mem)
    requires ListingDisjoint(boot.listing)
    ensures var m := BootWorld(dec, under, pageSize, boot, w, hookAddr).mem;
            && (0 <= a < MAX_SYSCALL_NR + STUB_SIZE ==>
                  |TrampolineCode(hookAddr)| > a && Rd(m, a) == TrampolineCode(hookAddr)[a])
            && (a >= LOW_END ==> Rd(m, a) == StartedByte(dec, under, pageSize, boot, w.mem, a))
  {
    hide Contract, BootSteps, ListingUsable, ListingDisjoint, TrampolineWorld, TrampolineCode, SiteAt, ListedSite, StartedWorld;
    hide ExcludesLow, ConfigFor;
    BootUsable(dec, under, pageSize, boot, w, hookAddr);
    BootConfigExcludes(boot.loaderPath, boot.rawSyscall, boot.exclude);
    ListedDisjoint(boot);
    StartupMemory(BootSetup(dec, under, pageSize, boot), w, hookAddr, BootSteps(boot), a);
    SitesAreListed(dec, under, pageSize, boot, w, hookAddr, a);
    SitesAreListed(dec, under, pageSize, boot, w, hookAddr, a - 1);
  }

  /** Each site of the listing holds `ff d0` afterwards, and was `0f 05` or `0f 34`. */
  lemma ListedSiteRewritten(dec: Decoder, under: Under, pageSize: nat, boot: Boot, w: World, hookAddr: u64, p: int)
    requires Contract(dec) && 0 < pageSize <= LOW_END && ListingUsable(under, pageSize, boot, w.mem)
    requires ListingDisjoint(boot.listing) && ListedSite(dec, under, pageSize, boot, w.mem, p)
    ensures var m := BootWorld(dec, under, pageSize, boot, w, hookAddr).mem;
            && p >= LOW_END && Rd(w.mem, p) == 0x0f && Rd(w.mem, p + 1) in {0x05, 0x34}
            && Rd(m, p) == 0xff && Rd(m, p + 1) == 0xd0
  {
    hide Contract, BootSteps, ListingUsable, ListingDisjoint, TrampolineWorld, TrampolineCode, SiteAt, ListedSite, StartedWorld;
    hide ExcludesLow, ConfigFor, BootWorld, MappedSize;
    var su := BootSetup(dec, under, pageSize, boot);
    BootUsable(dec, under, pageSize, boot, w, hookAddr);
    BootConfigExcludes(boot.loaderPath, boot.rawSyscall, boot.exclude);
    SitesAreListed(dec, under, pageSize, boot, w, hookAddr, p);
    SitesAreHigh(su, TrampolineWorld(w, pageSize, hookAddr).mem, BootSteps(boot), p);
    TrampolineBytes(w, pageSize, hookAddr, p);
    TrampolineBytes(w, pageSize, hookAddr, p + 1);
    BootRewrites(dec, under, pageSize, boot, w, hookAddr, p);
    BootRewrites(dec, under, pageSize, boot, w, hookAddr, p + 1);
    ListedSitesApart(dec, under, pageSize, boot, w, hookAddr, p);
  }

  lemma ListedSitesApart(dec: Decoder, under: Under, pageSize: nat, boot: Boot, w: World, hookAddr: u64, p: int)
    requires Contract(dec) && 0 < pageSize <= LOW_END && ListingUsable(under, pageSize, boot, w.mem)
    requires ListingDisjoint(boot.listing) && ListedSite(dec, under, pageSize, boot, w.mem, p)
    ensures !ListedSite(dec, under, pageSize, boot, w.mem, p + 1)
  {
    hide Contract, BootSteps, ListingUsable, ListingDisjoint, TrampolineWorld, SiteAt, ListedSite;
    BootUsable(dec, under, pageSize, boot, w, hookAddr);
    ListedDisjoint(boot);
    SitesAreListed(dec, under, pageSize, boot, w, hookAddr, p);
    SitesAreListed(dec, under, pageSize, boot, w, hookAddr, p + 1);
    SitesApart(BootSetup(dec, under, pageSize, boot), TrampolineWorld(w, pageSize, hookAddr).mem, BootSteps(boot), p);
  }

  lemma AllRewritten(dec: Decoder, under: Under, pageSize: nat, boot: Boot, w: World, hookAddr: u64)
    requires Contract(dec) && 0 < pageSize < TWO64 && ListingUsable(under, pageSize, boot, w.mem)
    ensures pageSize <= LOW_END && ListingDisjoint(boot.listing) ==>
              forall a: int {:trigger Rd(BootWorld(dec, under, pageSize, boot, w, hookAddr).mem, a)} :: a >= LOW_END ==>
                Rd(BootWorld(dec, under, pageSize, boot, w, hookAddr).mem, a) ==
                StartedByte(dec, under, pageSize, boot, w.mem, a)
  {
    hide Contract, ListingUsable, ListingDisjoint, BootWorld, StartedByte;
    if pageSize <= LOW_END && ListingDisjoint(boot.listing) {
      forall a: int | a >= LOW_END
        ensures Rd(BootWorld(dec, under, pageSize, boot, w, hookAddr).mem, a) ==
                StartedByte(dec, under, pageSize, boot, w.mem, a)
      {
        BootRewrites(dec, under, pageSize, boot, w, hookAddr, a);
      }
    }
  }

  /** No pass touches a page below 64 KiB. */
  lemma {:induction false} LowPagesKept(su: Setup, stats: Stats, w: World, steps: seq<Step>, pg: int)
    requires Sound(su) && AllUsable(su, w.mem, steps) && ExcludesLow(su.cfg)
    requires 0 <= pg < LOW_END / su.pageSize
    ensures var q := Pass(su, stats, w, steps).world.prot;
            (pg in q <==> pg in w.prot) && (pg in q ==> q[pg] == w.prot[pg])
    decreases |steps|
  {
    hide Contract, RegionOutcome, UsableIfConsidered, ExcludesLow, AlignedSize;
    if steps != [] {
      var r, ans := steps[0].region, steps[0].ans;
      AfterFirst(su, stats, w, steps);
      PagesAfter(su, stats, w, r, ans, pg);
      LowPagesOutside(su, w, r, ans, pg);
      var o := RegionOutcome(su, stats, w, r, ans);
      LowPagesKept(su, o.stats, o.world, steps[1..], pg);
    }
  }

  lemma LowPagesOutside(su: Setup, w: World, r: MemoryRegion, ans: Answers, pg: int)
    requires Sound(su) && UsableIfConsidered(su, w.mem, r) && ExcludesLow(su.cfg) && pg < LOW_END / su.pageSize
    ensures Patches(su, w.mem, r, ans) ==> pg < AlignedStart(r.start, su.pageSize) / su.pageSize
  {
    hide Contract, ExcludesLow, Excluded, Sites, NoOverflow;
    if Patches(su, w.mem, r, ans) {
      NotEmpty(su, w.mem, r);
      ConsideredIsHigh(su, r);
      DivMonotone(LOW_END, r.start, su.pageSize);
      DivOfMultiple(r.start / su.pageSize, su.pageSize);
    }
  }

  lemma LowPage(a: int, pageSize: nat)
    requires 0 < pageSize <= LOW_END && 0 <= a < TRAMPOLINE_SIZE
    ensures 0 <= a / pageSize < LOW_END / pageSize
    ensures a / pageSize < MappedSize(pageSize) / pageSize
  {
    DivBounds(a, pageSize);
    DivBounds(LOW_END, pageSize);
    var n := (TRAMPOLINE_SIZE + pageSize - 1) / pageSize;
    DivBounds(TRAMPOLINE_SIZE + pageSize - 1, pageSize);
    assert AlignedStart(0, pageSize) == 0 by { ZeroPage(pageSize); }
    assert Wrap64(TRAMPOLINE_SIZE + pageSize - 1) == TRAMPOLINE_SIZE + pageSize - 1;
    DivOfMultiple(n, pageSize);
    DivMonotone(0, a, pageSize);
    ZeroPage(pageSize);
    if a / pageSize >= n {
      MulMonotone(n, a / pageSize, pageSize);
    }
    if a / pageSize >= LOW_END / pageSize {
      MulMonotone(LOW_END / pageSize, a / pageSize, pageSize);
      if pageSize <= 60928 {
        assert false;
      } else {
        MulMonotone(1, LOW_END / pageSize, pageSize);
      }
    }
  }

  /** The trampoline can be executed, and written and read, after start-up: the mapping opens its pages and no later
      permission change reaches them. */
  lemma TrampolineExecutable(dec: Decoder, under: Under, pageSize: nat, boot: Boot, w: World, hookAddr: u64, a: int)
    requires Contract(dec) && 0 < pageSize <= LOW_END && ListingUsable(under, pageSize, boot, w.mem)
    requires 0 <= a < TRAMPOLINE_SIZE
    ensures var q := BootWorld(dec, under, pageSize, boot, w, hookAddr).prot;
            a / pageSize in q && q[a / pageSize] == Prot(true, true, true)
  {
    hide Contract, BootSteps, ListingUsable, TrampolineCode, AllUsable, Pass, WriteN, ExcludesLow, ConfigFor, MappedSize;
    BootUsable(dec, under, pageSize, boot, w, hookAddr);
    BootConfigExcludes(boot.loaderPath, boot.rawSyscall, boot.exclude);
    LowPage(a, pageSize);
    LowPagesKept(BootSetup(dec, under, pageSize, boot), NO_STATS, TrampolineWorld(w, pageSize, hookAddr), BootSteps(boot),
                 a / pageSize);
  }

  class Loader {
    var initialized: bool
    var exited: bool

    constructor ()
      ensures !initialized && !exited
    {
      initialized, exited := false, false;
    }

    /** Runs once. The hook of the library is published only after the code has been rewritten; a failed
        mapping or listing ends the process before anything later happens. */
    method ZpolineInit(space: Space, runtime: HookApi.HookRuntime, dec: Decoder, under: Under, hookAddr: u64, boot: Boot)
      requires Contract(dec) && 0 < space.pageSize < TWO64 && ListingUsable(under, space.pageSize, boot, space.mem)
      modifies this, space`mem, space`prot, runtime`hook
      ensures initialized
      ensures old(initialized) ==>
                space.Value() == old(space.Value()) && runtime.hook == old(runtime.hook) && exited == old(exited)
      ensures !old(initialized) ==>
                && exited == (!boot.mmapSucceeds || None in boot.listing)
                && space.Value() ==
                   (if !boot.mmapSucceeds then old(space.Value())
                    else if None in boot.listing then TrampolineWorld(old(space.Value()), space.pageSize, hookAddr)
                    else BootWorld(dec, under, space.pageSize, boot, old(space.Value()), hookAddr))
                && runtime.hook ==
                   (if !exited && boot.library.Some? && boot.library.value.Some? then boot.library.value.value
                    else old(runtime.hook))
      ensures !old(initialized) && !exited && space.pageSize <= LOW_END && ListingDisjoint(boot.listing) ==>
                forall a: int {:trigger Rd(space.mem, a)} :: a >= LOW_END ==>
                  Rd(space.mem, a) == StartedByte(dec, under, space.pageSize, boot, old(space.mem), a)
    {
      hide Contract, AllUsable, Pass, TrampolineWorld, Selected, ConfigFor, Parsed;
      if initialized {
        return;
      }
      BootUsable(dec, under, space.pageSize, boot, space.Value(), hookAddr);
      AllRewritten(dec, under, space.pageSize, boot, space.Value(), hookAddr);
      initialized := true;
      exited := false;
      var mapped := SetupTrampoline(space, hookAddr, boot.mmapSucceeds);
      if !mapped {
        exited := true;
        return;
      }
      var listed := ParseMapsFile(boot.listing);
      if listed.None? {
        exited := true;
        return;
      }
      SameListing(boot.listing);
      var regions := listed.value;
      var config := BuildRewriteConfig(boot.loaderPath, boot.rawSyscall, boot.exclude);
      var answers := seq(|regions|, i requires 0 <= i < |regions| => boot.answers(i));
      var _ := RewriteSyscalls(space, dec, under, config, regions, answers);
      match boot.library {
        case Some(Some(hook)) => runtime.HookInit(hook);
        case _ =>
      }
    }
  }
}

/** The rewriter: finds the system call instructions of a region and patches them in place under a temporary
    change of page permissions, keeping statistics. */
module Rewriting {
  import opened Bytes
  import opened Decoding
  import opened Maps

  // ---------------------------------------------------------------------
  // Address space
  // ---------------------------------------------------------------------

  datatype Prot = Prot(r: bool, w: bool, x: bool)

  type Pages = map<int, Prot>

  datatype World = World(mem: Mem, prot: Pages)

  /** Pages first, ..., first + count - 1 get permissions `p`, the others keep theirs. */
  function SetPages(prot: Pages, first: int, count: nat, p: Prot): (q: Pages)
    ensures forall pg {:trigger pg in q} :: pg in q <==> pg in prot || first <= pg < first + count
    ensures forall pg {:trigger q[pg]} :: pg in q ==> q[pg] == if first <= pg < first + count then p else prot[pg]
    decreases count
  {
    if count == 0 then prot else SetPages(prot[first := p], first + 1, count - 1, p)
  }

  function ZeroBytes(n: nat): (b: seq<byte>)
    ensures |b| == n && forall i :: 0 <= i < n ==> b[i] == 0
  {
    seq<byte>(n, i => 0)
  }

  class Space {
    var mem: Mem
    var prot: Pages
    const pageSize: nat

    constructor (mem: Mem, prot: Pages, pageSize: nat)
      ensures this.mem == mem && this.prot == prot && this.pageSize == pageSize
    {
      this.mem, this.prot, this.pageSize := mem, prot, pageSize;
    }

    function Value(): World
      reads this
    {
      World(mem, prot)
    }

    ghost predicate Writable(a: int)
      reads this
    {
      pageSize > 0 && a in mem && a / pageSize in prot && prot[a / pageSize].w
    }

    /** The call succeeds or fails as the kernel decides; a failed call changes nothing. */
    method Mprotect(start: nat, size: nat, p: Prot, succeeds: bool) returns (ok: bool)
      requires pageSize > 0
      modifies this`prot
      ensures ok == succeeds
      ensures prot == if ok then SetPages(old(prot), start / pageSize, size / pageSize, p) else old(prot)
    {
      if succeeds {
        prot := SetPages(prot, start / pageSize, size / pageSize, p);
      }
      ok := succeeds;
    }

    /** A fixed anonymous mapping: zero bytes with permissions `p`, replacing whatever was there. */
    method MapZero(start: nat, size: nat, p: Prot)
      requires pageSize > 0
      modifies this`mem, this`prot
      ensures mem == WriteN(old(mem), start, ZeroBytes(size))
      ensures prot == SetPages(old(prot), start / pageSize, size / pageSize, p)
    {
      mem := WriteN(mem, start, ZeroBytes(size));
      prot := SetPages(prot, start / pageSize, size / pageSize, p);
    }

    ghost predicate AllWritable(lo: int, hi: int)
      reads this
    {
      forall a {:trigger Writable(a)} :: lo <= a < hi ==> Writable(a)
    }

    method Store(a: int, v: byte)
      requires Writable(a)
      modifies this`mem
      ensures mem == old(mem)[a := v]
    {
      mem := mem[a := v];
    }
  }

  // ---------------------------------------------------------------------
  // Page arithmetic
  // ---------------------------------------------------------------------

  function AlignedStart(start: u64, pageSize: nat): nat
    requires pageSize > 0
  {
    (start / pageSize) * pageSize
  }

  /** The sum is computed in 64 bits. */
  function AlignedSize(start: u64, end: u64, pageSize: nat): nat
    requires pageSize > 0
  {
    (Wrap64(end - AlignedStart(start, pageSize) + pageSize - 1) / pageSize) * pageSize
  }

  /** The sum behind `AlignedSize` fits into 64 bits. */
  predicate NoOverflow(start: u64, end: u64, pageSize: nat)
    requires pageSize > 0
  {
    end - AlignedStart(start, pageSize) + pageSize - 1 < TWO64
  }

  lemma DivBounds(x: int, d: nat)
    requires d > 0
    ensures (x / d) * d <= x < (x / d) * d + d
  {
  }

  lemma DivOfMultiple(k: int, d: nat)
    requires d > 0
    ensures (k * d) / d == k
  {
    DivBounds(k * d, d);
    var q := (k * d) / d;
    if q < k {
      assert (q + 1) * d <= k * d by { MulMonotone(q + 1, k, d); }
    }
    if q > k {
      assert (k + 1) * d <= q * d by { MulMonotone(k + 1, q, d); }
    }
  }

  lemma MulMonotone(a: int, b: int, d: nat)
    requires a <= b
    ensures a * d <= b * d
  {
  }

  lemma DivMonotone(x: int, y: int, d: nat)
    requires d > 0 && x <= y
    ensures x / d <= y / d
  {
    DivBounds(x, d);
    DivBounds(y, d);
    if x / d > y / d {
      MulMonotone(y / d + 1, x / d, d);
    }
  }

  predicate Aligned(x: int, pageSize: nat)
    requires pageSize > 0
  {
    x == (x / pageSize) * pageSize
  }

  ghost predicate Covers(lo: int, size: int, start: int, end: int) {
    lo <= start && end <= lo + size
  }

  /** The interval the permissions are changed on is page-aligned, and covers the region exactly when the 64-bit
      sum does not overflow. */
  lemma AlignedInterval(start: u64, end: u64, pageSize: nat)
    requires 0 < pageSize < TWO64 && start < end
    ensures var lo := AlignedStart(start, pageSize);
            var size := AlignedSize(start, end, pageSize);
            && Aligned(lo, pageSize) && Aligned(lo + size, pageSize)
            && (Covers(lo, size, start, end) <==> NoOverflow(start, end, pageSize))
  {
    var first := start / pageSize;
    var lo := AlignedStart(start, pageSize);
    var sum := end - lo + pageSize - 1;
    var n := Wrap64(sum) / pageSize;
    DivBounds(start, pageSize);
    DivBounds(Wrap64(sum), pageSize);
    DivOfMultiple(first, pageSize);
    Distribute(first, n, pageSize);
    DivOfMultiple(first + n, pageSize);
    if !NoOverflow(start, end, pageSize) {
      assert Wrap64(sum) == sum - TWO64 < pageSize;
      if n > 0 {
        MulMonotone(1, n, pageSize);
      }
    }
  }

  /** No smaller page-aligned interval covers the region. */
  lemma AlignedIntervalLeast(start: u64, end: u64, pageSize: nat, k: int, l: int)
    requires 0 < pageSize < TWO64 && start < end && NoOverflow(start, end, pageSize)
    requires k * pageSize <= start && end <= l * pageSize
    ensures k * pageSize <= AlignedStart(start, pageSize)
    ensures AlignedStart(start, pageSize) + AlignedSize(start, end, pageSize) <= l * pageSize
  {
    var first := start / pageSize;
    var sum := end - AlignedStart(start, pageSize) + pageSize - 1;
    var n := sum / pageSize;
    DivBounds(start, pageSize);
    DivBounds(sum, pageSize);
    Distribute(first, n, pageSize);
    LeastMultiple(k, first, pageSize, start);
    GreatestMultiple(first + n, l, pageSize, end);
  }

  lemma LeastMultiple(k: int, first: int, d: nat, x: int)
    requires d > 0 && k * d <= x < first * d + d
    ensures k * d <= first * d
  {
    if k > first {
      Distribute(first, 1, d);
      MulMonotone(first + 1, k, d);
    } else {
      MulMonotone(k, first, d);
    }
  }

  lemma GreatestMultiple(m: int, l: int, d: nat, x: int)
    requires d > 0 && m * d <= x + d - 1 && x <= l * d
    ensures m * d <= l * d
  {
    if m > l {
      Distribute(l, 1, d);
      MulMonotone(l + 1, m, d);
    } else {
      MulMonotone(m, l, d);
    }
  }

  lemma Distribute(a: int, b: int, d: nat)
    ensures (a + b) * d == a * d + b * d
  {
  }

  /** Every byte of the region lies on a page of the interval. */
  lemma PageInInterval(start: u64, end: u64, pageSize: nat, a: int)
    requires 0 < pageSize && start <= a < end && NoOverflow(start, end, pageSize)
    ensures var first := AlignedStart(start, pageSize) / pageSize;
            var count := AlignedSize(start, end, pageSize) / pageSize;
            first == start / pageSize && first <= a / pageSize < first + count
  {
    var first := start / pageSize;
    var lo := AlignedStart(start, pageSize);
    var sum := end - lo + pageSize - 1;
    var n := sum / pageSize;
    DivBounds(start, pageSize);
    DivBounds(sum, pageSize);
    DivBounds(a, pageSize);
    DivOfMultiple(first, pageSize);
    DivOfMultiple(n, pageSize);
    DivMonotone(start, a, pageSize);
    assert Wrap64(sum) == sum;
    if a / pageSize >= first + n {
      MulMonotone(first + n, a / pageSize, pageSize);
      Distribute(first, n, pageSize);
    }
  }

  // ---------------------------------------------------------------------
  // Configuration
  // ---------------------------------------------------------------------

  datatype Config = Config(excludePaths: set<string>, excludeRanges: seq<(nat, nat)>, dryRun: bool)

  /** `under(p, q)`: the components of path q are a prefix of those of path p. */
  type Under = (string, string) -> bool

  predicate PathExcluded(under: Under, paths: set<string>, region: MemoryRegion) {
    region.pathname.Some? && exists e :: e in paths && (under(region.pathname.value, e) || region.pathname.value == e)
  }

  predicate RangeExcluded(ranges: seq<(nat, nat)>, region: MemoryRegion) {
    exists i :: 0 <= i < |ranges| && Overlaps(ranges[i], region)
  }

  predicate Overlaps(range: (nat, nat), region: MemoryRegion) {
    region.start < range.1 && region.end > range.0
  }

  predicate Excluded(under: Under, cfg: Config, region: MemoryRegion) {
    PathExcluded(under, cfg.excludePaths, region) || RangeExcluded(cfg.excludeRanges, region)
  }

  class RewriteConfig {
    var excludePaths: set<string>
    var excludeRanges: seq<(nat, nat)>
    var dryRun: bool

    constructor ()
      ensures Value() == Config({}, [], false)
    {
      excludePaths, excludeRanges, dryRun := {}, [], false;
    }

    function Value(): Config
      reads this
    {
      Config(excludePaths, excludeRanges, dryRun)
    }

    method ExcludePath(path: string)
      modifies this`excludePaths
      ensures excludePaths == old(excludePaths) + {path}
    {
      excludePaths := excludePaths + {path};
    }

    method ExcludeRange(start: nat, end: nat)
      modifies this`excludeRanges
      ensures excludeRanges == old(excludeRanges) + [(start, end)]
    {
      excludeRanges := excludeRanges + [(start, end)];
    }

    method DryRun(enabled: bool)
      modifies this`dryRun
      ensures dryRun == enabled
    {
      dryRun := enabled;
    }

    method IsExcluded(under: Under, region: MemoryRegion) returns (b: bool)
      ensures b <==> Excluded(under, Value(), region)
      ensures var path := region.pathname;
              var byPath := path.Some? && exists e :: e in excludePaths && (under(path.value, e) || path.value == e);
              var byRange := exists i :: 0 <= i < |excludeRanges| &&
                               region.start < excludeRanges[i].1 && region.end > excludeRanges[i].0;
              b <==> byPath || byRange
    {
      match region.pathname {
        case Some(path) =>
          var rest := excludePaths;
          while rest != {}
            invariant rest <= excludePaths
            invariant forall e :: e in excludePaths && e !in rest ==> !under(path, e) && path != e
            decreases rest
          {
            var e :| e in rest;
            if under(path, e) || path == e {
              return true;
            }
            rest := rest - {e};
          }
          assert forall e :: e in excludePaths ==> !under(path, e) && path != e;
        case None =>
      }
      for i := 0 to |excludeRanges|
        invariant forall j :: 0 <= j < i ==> !Overlaps(excludeRanges[j], region)
      {
        if region.start < excludeRanges[i].1 && region.end > excludeRanges[i].0 {
          assert Overlaps(excludeRanges[i], region);
          return true;
        }
      }
      return false;
    }
  }

  // ---------------------------------------------------------------------
  // Rewriting one region: specification
  // ---------------------------------------------------------------------

  datatype Stats = Stats(scanned: nat, rewritten: nat, syscalls: nat, sysenters: nat, skipped: nat)

  datatype RewriteError = ProtectError | OtherError

  datatype Result = Ok(count: nat) | Err(error: RewriteError)

  /** What is fixed during a run: the decoder, path matching, page size and configuration. */
  datatype Setup = Setup(dec: Decoder, under: Under, pageSize: nat, cfg: Config)

  ghost predicate Sound(su: Setup) {
    Contract(su.dec) && 0 < su.pageSize < TWO64
  }

  /** The region gets past the executable and exclusion checks. */
  predicate Considered(su: Setup, region: MemoryRegion) {
    region.executable && !Excluded(su.under, su.cfg, region)
  }

  /** What the rewriter takes for granted of a region it reads: it is mapped, and its page arithmetic fits. */
  ghost predicate Usable(su: Setup, mem: Mem, region: MemoryRegion)
    requires su.pageSize > 0
  {
    && region.start <= region.end
    && (forall a :: region.start <= a < region.end ==> a in mem)
    && NoOverflow(region.start, region.end, su.pageSize)
  }

  ghost predicate UsableIfConsidered(su: Setup, mem: Mem, region: MemoryRegion)
    requires su.pageSize > 0
  {
    Considered(su, region) ==> Usable(su, mem, region)
  }

  ghost function CodeOf(mem: Mem, region: MemoryRegion): seq<byte>
    requires region.start <= region.end
  {
    ReadN(mem, region.start, region.end - region.start)
  }

  /** The system call instructions found in a region, by offset. */
  ghost function Found(su: Setup, mem: Mem, region: MemoryRegion): seq<Site>
    requires Sound(su) && region.start <= region.end
  {
    Sites(su.dec, CodeOf(mem, region), 0)
  }

  function CountKind(s: seq<Site>, k: Kind): nat {
    if s == [] then 0 else (if s[0].kind == k then 1 else 0) + CountKind(s[1..], k)
  }

  /** The counters after patching the plain sites `s`. */
  function CountedIn(stats: Stats, s: seq<Site>): Stats {
    stats.(syscalls := stats.syscalls + CountKind(s, Syscall), sysenters := stats.sysenters + CountKind(s, Sysenter))
  }

  function OriginalProt(region: MemoryRegion): Prot {
    Prot(true, region.writable, true)
  }

  function ProtectRegion(su: Setup, prot: Pages, region: MemoryRegion, p: Prot): Pages
    requires su.pageSize > 0
  {
    SetPages(prot, AlignedStart(region.start, su.pageSize) / su.pageSize,
             AlignedSize(region.start, region.end, su.pageSize) / su.pageSize, p)
  }

  /** Answers of the kernel to the two permission changes of a region. */
  datatype Answers = Answers(first: bool, restore: bool)

  datatype Outcome = Outcome(stats: Stats, world: World, result: Result)

  /** The region's bytes are rewritten: something was found, it is not a dry run, the address is not on page 0,
      and the first permission change succeeds. */
  ghost predicate Patches(su: Setup, mem: Mem, region: MemoryRegion, ans: Answers)
    requires Sound(su) && UsableIfConsidered(su, mem, region)
  {
    && Considered(su, region) && Found(su, mem, region) != [] && !su.cfg.dryRun
    && AlignedStart(region.start, su.pageSize) != 0 && ans.first
  }

  ghost function RegionOutcome(su: Setup, stats: Stats, w: World, region: MemoryRegion, ans: Answers): Outcome
    requires Sound(su) && UsableIfConsidered(su, w.mem, region)
  {
    var stats := stats.(scanned := stats.scanned + 1);
    if !region.executable then Outcome(stats, w, Ok(0))
    else if Excluded(su.under, su.cfg, region) then Outcome(stats.(skipped := stats.skipped + 1), w, Ok(0))
    else
      var found := Found(su, w.mem, region);
      var plain := Plain(found);
      if found == [] then Outcome(stats, w, Ok(0))
      else if su.cfg.dryRun then Outcome(stats.(syscalls := stats.syscalls + |found|), w, Ok(|found|))
      else if AlignedStart(region.start, su.pageSize) == 0 then Outcome(stats, w, Err(OtherError))
      else if !ans.first then Outcome(stats, w, Err(ProtectError))
      else
        var mem := WriteN(w.mem, region.start, PatchCode(su.dec, CodeOf(w.mem, region)));
        var open := ProtectRegion(su, w.prot, region, Prot(true, true, true));
        var stats := CountedIn(stats, plain);
        if !ans.restore then Outcome(stats, World(mem, open), Err(ProtectError))
        else
          Outcome(stats.(rewritten := stats.rewritten + if plain != [] then 1 else 0),
                  World(mem, ProtectRegion(su, open, region, OriginalProt(region))),
                  Ok(|plain|))
  }

  // ---------------------------------------------------------------------
  // Rewriting one region: the rewriter
  // ---------------------------------------------------------------------

  function Located(s: seq<Site>): (r: seq<(nat, Kind)>)
    ensures |r| == |s| && forall i :: 0 <= i < |s| ==> r[i] == (s[i].offset, s[i].kind)
  {
    seq(|s|, i requires 0 <= i < |s| => (s[i].offset, s[i].kind))
  }

  /** The code byte `x` once the sites `s` have been patched. */
  ghost function ByteAfter(code: seq<byte>, s: seq<Site>, x: nat): byte
    requires x < |code|
  {
    PatchedByte(code, PlainAt(s, x), PlainAt(s, x - 1), x)
  }

  /** Patching the first i sites leaves the two bytes of site i as found. */
  lemma LaterSiteAsFound(code: seq<byte>, s: seq<Site>, i: nat)
    requires WellPlaced(s, code, 0) && i < |s|
    ensures var o := s[i].offset;
            && o + 1 < |code|
            && ByteAfter(code, s[..i], o) == code[o]
            && ByteAfter(code, s[..i], o + 1) == code[o + 1]
            && (s[i].plain <==> code[o] == 0x0f)
            && (s[i].plain ==> code[o + 1] == if s[i].kind == Syscall then 0x05 else 0x34)
  {
  }

  /** Patching site i changes its two bytes, if it is a plain one, and no others. */
  lemma PatchOne(code: seq<byte>, s: seq<Site>, i: nat, x: nat)
    requires WellPlaced(s, code, 0) && i < |s| && x < |code|
    ensures ByteAfter(code, s[..i + 1], x) ==
            if s[i].plain && x == s[i].offset then 0xff
            else if s[i].plain && x == s[i].offset + 1 then 0xd0
            else ByteAfter(code, s[..i], x)
  {
    hide WellPlaced, PlainAt;
    assert s[..i + 1] == s[..i] + [s[i]];
    PlainAtAppend(s[..i], [s[i]], x);
    PlainAtAppend(s[..i], [s[i]], x - 1);
    PlainAtSingle(s[i], x);
    PlainAtSingle(s[i], x - 1);
    LaterSiteAsFound(code, s, i);
    EarlierSites(code, s, i);
  }

  lemma PlainAtSingle(x: Site, o: int)
    ensures PlainAt([x], o) <==> x.plain && x.offset == o
  {
    assert [x][0] == x;
  }

  lemma EarlierSites(code: seq<byte>, s: seq<Site>, i: nat)
    requires WellPlaced(s, code, 0) && i < |s|
    ensures forall o :: o + 1 >= s[i].offset ==> !PlainAt(s[..i], o)
  {
  }

  lemma {:induction false} PlainSnoc(s: seq<Site>, x: Site)
    ensures Plain(s + [x]) == Plain(s) + if x.plain then [x] else []
  {
    if s == [] {
      assert s + [x] == [x] && [x][1..] == [];
    } else {
      PlainSnoc(s[1..], x);
      assert (s + [x])[1..] == s[1..] + [x];
    }
  }

  lemma {:induction false} CountSnoc(s: seq<Site>, x: Site, k: Kind)
    ensures CountKind(s + [x], k) == CountKind(s, k) + if x.kind == k then 1 else 0
  {
    if s == [] {
      assert s + [x] == [x] && [x][1..] == [];
    } else {
      CountSnoc(s[1..], x, k);
      assert (s + [x])[1..] == s[1..] + [x];
    }
  }

  /** One more replacement, in the counts. */
  lemma CountsAfter(s: seq<Site>, i: nat)
    requires i < |s|
    ensures var p, q := Plain(s[..i]), Plain(s[..i + 1]);
            && |q| == |p| + (if s[i].plain then 1 else 0)
            && CountKind(q, Syscall) == CountKind(p, Syscall) + (if s[i].plain && s[i].kind == Syscall then 1 else 0)
            && CountKind(q, Sysenter) == CountKind(p, Sysenter) + (if s[i].plain && s[i].kind == Sysenter then 1 else 0)
  {
    hide Plain, CountKind;
    assert s[..i + 1] == s[..i] + [s[i]];
    PlainSnoc(s[..i], s[i]);
    CountSnoc(Plain(s[..i]), s[i], Syscall);
    CountSnoc(Plain(s[..i]), s[i], Sysenter);
    assert Plain(s[..i]) + [] == Plain(s[..i]);
  }

  lemma SitesStep(dec: Decoder, c: seq<byte>, at: nat)
    requires Contract(dec) && c != []
    ensures 1 <= dec(c).len <= |c|
    ensures Located(Sites(dec, c, at)) ==
            (if IsSystem(dec(c).kind) then [(at, dec(c).kind)] else []) + Located(Sites(dec, c[dec(c).len..], at + dec(c).len))
  {
    HeadLength(dec, c);
    hide Contract;
  }

  lemma NoLocated(dec: Decoder, at: nat)
    requires Contract(dec)
    ensures Located(Sites(dec, [], at)) == []
  {
  }

  /** The state of the patching loop after the sites `s`. */
  ghost predicate PatchedUpTo(code: seq<byte>, s: seq<Site>, before: Mem, after: Mem, start: int) {
    && after.Keys == before.Keys
    && (forall x {:trigger ByteAfter(code, s, x)} :: 0 <= x < |code| ==> Rd(after, start + x) == ByteAfter(code, s, x))
    && (forall a {:trigger Rd(after, a)} :: !(start <= a < start + |code|) ==> Rd(after, a) == Rd(before, a))
  }

  lemma NothingPatched(code: seq<byte>, s: seq<Site>, stats: Stats, space: Space, region: MemoryRegion)
    requires region.start <= region.end && code == CodeOf(space.mem, region)
    requires space.AllWritable(region.start, region.end)
    ensures PatchedUpTo(code, s[..0], space.mem, space.mem, region.start)
    ensures |Plain(s[..0])| == 0 && stats == CountedIn(stats, Plain(s[..0]))
    ensures forall a :: region.start <= a < region.end ==> a in space.mem
  {
    assert s[..0] == [];
    forall a | region.start <= a < region.end
      ensures a in space.mem
    {
      assert space.Writable(a);
    }
  }

  /** The guard of the loop holds exactly at plain sites, and the two stores advance the state by one site. */
  lemma PatchedStep(code: seq<byte>, s: seq<Site>, i: nat, before: Mem, m: Mem, start: int)
    requires WellPlaced(s, code, 0) && i < |s| && PatchedUpTo(code, s[..i], before, m, start)
    requires forall a :: start <= a < start + |code| ==> a in before
    ensures 0 <= s[i].offset && s[i].offset + 2 <= |code| && IsSystem(s[i].kind)
    ensures s[i].plain <==> Rd(m, start + s[i].offset) == 0x0f && Rd(m, start + s[i].offset + 1) in {0x05, 0x34}
    ensures PatchedUpTo(code, s[..i + 1], before,
                        if s[i].plain then m[start + s[i].offset := 0xff][start + s[i].offset + 1 := 0xd0] else m, start)
  {
    var o := s[i].offset;
    assert o + 2 <= |code| && IsSystem(s[i].kind);
    LaterSiteAsFound(code, s, i);
    assert start + o + 1 == start + (o + 1);
    hide WellPlaced, ByteAfter;
    var n := if s[i].plain then m[start + o := 0xff][start + o + 1 := 0xd0] else m;
    assert n.Keys == m.Keys;
    forall x {:trigger ByteAfter(code, s[..i + 1], x)} | 0 <= x < |code|
      ensures Rd(n, start + x) == ByteAfter(code, s[..i + 1], x)
    {
      PatchOne(code, s, i, x);
      assert Rd(m, start + x) == ByteAfter(code, s[..i], x);
    }
    forall a | !(start <= a < start + |code|)
      ensures Rd(n, a) == Rd(before, a)
    {
      assert Rd(m, a) == Rd(before, a);
    }
    assert n.Keys == before.Keys;
    assert PatchedUpTo(code, s[..i + 1], before, n, start);
  }

  class Rewriter {
    const dec: Decoder
    const under: Under
    const config: RewriteConfig
    var stats: Stats

    constructor (dec: Decoder, under: Under, config: RewriteConfig)
      ensures this.dec == dec && this.under == under && this.config == config
      ensures stats == Stats(0, 0, 0, 0, 0)
    {
      this.dec, this.under, this.config := dec, under, config;
      stats := Stats(0, 0, 0, 0, 0);
    }

    function SetupFor(space: Space): Setup
      reads config
    {
      Setup(dec, under, space.pageSize, config.Value())
    }

    method FindSyscalls(code: seq<byte>) returns (replacements: seq<(nat, Kind)>)
      requires Contract(dec)
      ensures replacements == Located(Sites(dec, code, 0))
    {
      hide Contract, Sites, Located;
      replacements := [];
      var pos := 0;
      assert code[0..] == code;
      while pos < |code|
        invariant 0 <= pos <= |code|
        invariant replacements + Located(Sites(dec, code[pos..], pos)) == Located(Sites(dec, code, 0))
        decreases |code| - pos
      {
        SitesStep(dec, code[pos..], pos);
        var insn := dec(code[pos..]);
        assert code[pos..][insn.len..] == code[pos + insn.len..];
        if insn.kind == Syscall || insn.kind == Sysenter {
          replacements := replacements + [(pos, insn.kind)];
        }
        pos := pos + insn.len;
      }
      NoLocated(dec, pos);
    }

    /** A replacement whose bytes are `0f 05` or `0f 34` becomes `ff d0`. */
    method PatchSite(space: Space, at: int, ghost lo: int, ghost hi: int) returns (patched: bool)
      requires space.AllWritable(lo, hi) && lo <= at && at + 2 <= hi
      modifies space`mem
      ensures space.AllWritable(lo, hi)
      ensures patched <==> old(Rd(space.mem, at)) == 0x0f && old(Rd(space.mem, at + 1)) in {0x05, 0x34}
      ensures space.mem == if patched then old(space.mem)[at := 0xff][at + 1 := 0xd0] else old(space.mem)
    {
      assert space.Writable(at) && space.Writable(at + 1);
      patched := space.mem[at] == 0x0f && (space.mem[at + 1] == 0x05 || space.mem[at + 1] == 0x34);
      if patched {
        space.Store(at, 0xff);
        space.Store(at + 1, 0xd0);
        forall a | lo <= a < hi
          ensures space.Writable(a)
        {
          assert old(space.Writable(a));
        }
      }
    }

    method PatchSites(space: Space, region: MemoryRegion, replacements: seq<(nat, Kind)>, ghost sites: seq<Site>)
      returns (count: nat)
      requires region.start <= region.end
      requires WellPlaced(sites, CodeOf(space.mem, region), 0) && replacements == Located(sites)
      requires space.AllWritable(region.start, region.end)
      modifies this`stats, space`mem
      ensures PatchedUpTo(old(CodeOf(space.mem, region)), sites, old(space.mem), space.mem, region.start)
      ensures count == |Plain(sites)|
      ensures stats == CountedIn(old(stats), Plain(sites))
    {
      hide WellPlaced, PatchedUpTo, Plain, CountKind, space.AllWritable;
      ghost var code := CodeOf(space.mem, region);
      count := 0;
      NothingPatched(code, sites, stats, space, region);
      for i := 0 to |replacements|
        invariant space.AllWritable(region.start, region.end)
        invariant PatchedUpTo(code, sites[..i], old(space.mem), space.mem, region.start)
        invariant count == |Plain(sites[..i])|
        invariant stats == CountedIn(old(stats), Plain(sites[..i]))
      {
        var (offset, kind) := replacements[i];
        CountsAfter(sites, i);
        PatchedStep(code, sites, i, old(space.mem), space.mem, region.start);
        var patched := PatchSite(space, region.start + offset, region.start, region.end);
        if patched {
          count := count + 1;
          if kind == Syscall {
            stats := stats.(syscalls := stats.syscalls + 1);
          } else {
            stats := stats.(sysenters := stats.sysenters + 1);
          }
        }
      }
      assert sites[..|replacements|] == sites;
    }

    method RewriteRegion(space: Space, region: MemoryRegion, ans: Answers) returns (result: Result)
      requires Sound(SetupFor(space))
      requires UsableIfConsidered(SetupFor(space), space.mem, region)
      modifies this`stats, space`mem, space`prot
      ensures Outcome(stats, space.Value(), result) ==
              RegionOutcome(SetupFor(space), old(stats), old(space.Value()), region, ans)
    {
      hide Contract, Sites, PatchCode, PatchedUpTo, SetPages, WriteN, Plain, CountKind, Excluded;
      hide AlignedSize, Located, WellPlaced;
      ghost var su := SetupFor(space);
      stats := stats.(scanned := stats.scanned + 1);
      if !region.executable {
        return Ok(0);
      }
      var excluded := config.IsExcluded(under, region);
      if excluded {
        stats := stats.(skipped := stats.skipped + 1);
        return Ok(0);
      }
      var code := ReadN(space.mem, region.start, region.end - region.start);
      var replacements := FindSyscalls(code);
      ghost var sites := Found(su, space.mem, region);
      if replacements == [] {
        return Ok(0);
      }
      if config.dryRun {
        stats := stats.(syscalls := stats.syscalls + |replacements|);
        return Ok(|replacements|);
      }
      var originalProt := Prot(true, region.writable, true);
      var alignedStart := AlignedStart(region.start, space.pageSize);
      var alignedSize := AlignedSize(region.start, region.end, space.pageSize);
      if alignedStart == 0 {
        return Err(OtherError);
      }
      var ok := space.Mprotect(alignedStart, alignedSize, Prot(true, true, true), ans.first);
      if !ok {
        return Err(ProtectError);
      }
      forall a | region.start <= a < region.end
        ensures space.Writable(a)
      {
        PageInInterval(region.start, region.end, space.pageSize, a);
      }
      SitesWellPlaced(dec, code, 0);
      var count := PatchSites(space, region, replacements, sites);
      PatchedMemory(dec, code, old(space.mem), space.mem, region.start);
      ok := space.Mprotect(alignedStart, alignedSize, originalProt, ans.restore);
      if !ok {
        return Err(ProtectError);
      }
      if count > 0 {
        stats := stats.(rewritten := stats.rewritten + 1);
      }
      return Ok(count);
    }
  }

  /** The memory the loop leaves is the old one with the region replaced by its patched form. */
  lemma PatchedMemory(dec: Decoder, code: seq<byte>, before: Mem, after: Mem, start: int)
    requires Contract(dec) && PatchedUpTo(code, Sites(dec, code, 0), before, after, start)
    requires forall a :: start <= a < start + |code| ==> a in before
    ensures after == WriteN(before, start, PatchCode(dec, code))
  {
    hide Contract, Sites, PatchCode, PlainAt, PatchedByte, WriteN;
    var want := WriteN(before, start, PatchCode(dec, code));
    forall a: int
      ensures Rd(after, a) == Rd(want, a)
      ensures a in after <==> a in want
    {
      if start <= a < start + |code| {
        PatchPointwise(dec, code, 0, a - start);
        assert Rd(after, start + (a - start)) == ByteAfter(code, Sites(dec, code, 0), a - start);
      }
      assert a in after <==> a in before;
    }
    forall a | a in after
      ensures after[a] == want[a]
    {
      assert Rd(after, a) == Rd(want, a);
    }
    assert after == want;
  }
}

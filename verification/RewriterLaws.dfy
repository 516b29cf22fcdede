/** What rewriting does to memory, permissions and statistics, for one region and for whole passes. */
module RewriterLaws {
  import opened Bytes
  import opened Decoding
  import opened Maps
  import opened Rewriting

  // ---------------------------------------------------------------------
  // One region
  // ---------------------------------------------------------------------

  /** Address `p` is the first byte of an unprefixed system call instruction that the call patches. */
  ghost predicate SiteOf(su: Setup, mem: Mem, region: MemoryRegion, ans: Answers, p: int)
    requires Sound(su) && UsableIfConsidered(su, mem, region)
  {
    Patches(su, mem, region, ans) && PlainAt(Found(su, mem, region), p - region.start)
  }

  /** Both bytes of a site lie in the region, and they are `0f 05` or `0f 34`. */
  lemma SiteInside(su: Setup, mem: Mem, region: MemoryRegion, ans: Answers, p: int)
    requires Sound(su) && UsableIfConsidered(su, mem, region) && SiteOf(su, mem, region, ans, p)
    ensures region.start <= p && p + 2 <= region.end
    ensures Rd(mem, p) == 0x0f && Rd(mem, p + 1) in {0x05, 0x34}
    ensures !SiteOf(su, mem, region, ans, p + 1)
  {
    hide Contract, Sites;
    var s := Found(su, mem, region);
    var c := CodeOf(mem, region);
    SitesWellPlaced(su.dec, c, 0);
    var k :| 0 <= k < |s| && s[k].plain && s[k].offset == p - region.start;
    assert c[s[k].offset] == Rd(mem, p) && c[s[k].offset + 1] == Rd(mem, p + 1);
  }

  /** After the call a byte differs from its original exactly when it belongs to an unprefixed system call
      instruction the sweep found in a region that is patched, and there it is `ff` or `d0`. */
  lemma RegionBytes(su: Setup, stats: Stats, w: World, region: MemoryRegion, ans: Answers, a: int)
    requires Sound(su) && UsableIfConsidered(su, w.mem, region)
    ensures var m := RegionOutcome(su, stats, w, region, ans).world.mem;
            && Rd(m, a) == (if SiteOf(su, w.mem, region, ans, a) then 0xff
                            else if SiteOf(su, w.mem, region, ans, a - 1) then 0xd0
                            else Rd(w.mem, a))
            && (Rd(m, a) != Rd(w.mem, a) <==> SiteOf(su, w.mem, region, ans, a) || SiteOf(su, w.mem, region, ans, a - 1))
            && m.Keys == w.mem.Keys
  {
    hide Contract, Sites, PatchCode, PlainAt, WriteN, SetPages, Excluded, CodeOf, NoOverflow;
    if SiteOf(su, w.mem, region, ans, a) {
      SiteInside(su, w.mem, region, ans, a);
    }
    if SiteOf(su, w.mem, region, ans, a - 1) {
      SiteInside(su, w.mem, region, ans, a - 1);
    }
    if Patches(su, w.mem, region, ans) {
      var c := CodeOf(w.mem, region);
      var m := RegionOutcome(su, stats, w, region, ans).world.mem;
      assert m == WriteN(w.mem, region.start, PatchCode(su.dec, c));
      CodeBytes(w.mem, region);
      KeysKept(w.mem, m, region, PatchCode(su.dec, c));
      if region.start <= a < region.end {
        PatchPointwise(su.dec, c, 0, a - region.start);
      }
    }
  }

  lemma CodeBytes(mem: Mem, region: MemoryRegion)
    requires region.start <= region.end
    ensures |CodeOf(mem, region)| == region.end - region.start
    ensures forall i :: 0 <= i < region.end - region.start ==> CodeOf(mem, region)[i] == Rd(mem, region.start + i)
  {
  }

  lemma KeysKept(mem: Mem, m: Mem, region: MemoryRegion, b: seq<byte>)
    requires region.start <= region.end && |b| == region.end - region.start
    requires forall a :: region.start <= a < region.end ==> a in mem
    requires m == WriteN(mem, region.start, b)
    ensures m.Keys == mem.Keys
  {
    hide WriteN;
    forall x
      ensures x in m <==> x in mem
    {
    }
  }

  /** How many bytes differ between two byte sequences. */
  function Differences(c: seq<byte>, d: seq<byte>): nat
    requires |c| == |d|
  {
    if c == [] then 0 else (if c[0] != d[0] then 1 else 0) + Differences(c[1..], d[1..])
  }

  lemma {:induction false} DifferencesAt(c: seq<byte>, d: seq<byte>, n: nat)
    requires n <= |c| == |d|
    ensures Differences(c, d) == Differences(c[..n], d[..n]) + Differences(c[n..], d[n..])
  {
    if n == 0 {
      assert c[0..] == c && d[0..] == d;
    } else {
      DifferencesAt(c[1..], d[1..], n - 1);
      assert c[1..][..n - 1] == c[..n][1..] && d[1..][..n - 1] == d[..n][1..];
      assert c[1..][n - 1..] == c[n..] && d[1..][n - 1..] == d[n..];
    }
  }

  lemma {:induction false} NoDifferences(c: seq<byte>)
    ensures Differences(c, c) == 0
  {
    if c != [] {
      NoDifferences(c[1..]);
    }
  }

  /** Each counted replacement changed exactly two bytes. */
  lemma {:induction false} TwoBytesPerSite(dec: Decoder, c: seq<byte>, at: nat)
    requires Contract(dec)
    ensures Differences(c, PatchCode(dec, c)) == 2 * |Plain(Sites(dec, c, at))|
    decreases |c|
  {
    hide Contract, PatchCode, HeadSite, Plain, Sites, Differences;
    if c == [] {
      NothingToCount(dec, at);
    } else {
      SitesUnfold(dec, c, at);
      var n := dec(c).len;
      TwoBytesPerSite(dec, c[n..], at + n);
      DifferencesSplit(dec, c);
      PlainOne(dec, c, at);
      PrefixedAppend(HeadSite(dec, c, at), Sites(dec, c[n..], at + n));
    }
  }

  lemma NothingToCount(dec: Decoder, at: nat)
    requires Contract(dec)
    ensures Sites(dec, [], at) == [] && PatchCode(dec, []) == []
    ensures Plain([]) == [] && Differences([], []) == 0
  {
  }

  lemma DifferencesSplit(dec: Decoder, c: seq<byte>)
    requires Contract(dec) && c != []
    ensures var n := dec(c).len;
            && 1 <= n <= |c|
            && Differences(c, PatchCode(dec, c)) ==
               (if PlainHead(dec, c) then 2 else 0) + Differences(c[n..], PatchCode(dec, c[n..]))
  {
    PatchHeadBytes(dec, c);
    hide Contract, PatchCode, Differences;
    var n := dec(c).len;
    DifferencesAt(c, PatchCode(dec, c), n);
  }

  lemma PlainOne(dec: Decoder, c: seq<byte>, at: nat)
    requires c != []
    ensures |Plain(HeadSite(dec, c, at))| == if PlainHead(dec, c) then 1 else 0
  {
  }

  lemma PatchHeadBytes(dec: Decoder, c: seq<byte>)
    requires Contract(dec) && c != []
    ensures var n := dec(c).len;
            var p := PatchCode(dec, c);
            && 1 <= n <= |c|
            && p[n..] == PatchCode(dec, c[n..])
            && Differences(c[..n], p[..n]) == if PlainHead(dec, c) then 2 else 0
  {
    HeadLength(dec, c);
    PatchedHead(dec, c);
    hide Contract, PatchCode, Differences;
    var n := dec(c).len;
    if PlainHead(dec, c) {
      TwoDiffer(c[..n], PatchCode(dec, c)[..n]);
    } else {
      NoDifferences(c[..n]);
    }
  }

  lemma TwoDiffer(c: seq<byte>, d: seq<byte>)
    requires |c| == |d| == 2 && c[0] != d[0] && c[1] != d[1]
    ensures Differences(c, d) == 2
  {
    assert c[1..][1..] == [] && d[1..][1..] == [];
    assert Differences(c[1..], d[1..]) == 1;
  }

  /** Of two kinds there are only two. */
  lemma {:induction false} CountsAddUp(s: seq<Site>)
    requires forall k :: 0 <= k < |s| ==> IsSystem(s[k].kind)
    ensures CountKind(s, Syscall) + CountKind(s, Sysenter) == |s|
  {
    if s != [] {
      CountsAddUp(s[1..]);
    }
  }

  lemma FoundCounts(su: Setup, mem: Mem, region: MemoryRegion)
    requires Sound(su) && region.start <= region.end
    ensures var plain := Plain(Found(su, mem, region));
            CountKind(plain, Syscall) + CountKind(plain, Sysenter) == |plain|
  {
    hide Contract, Sites;
    var s := Found(su, mem, region);
    SitesWellPlaced(su.dec, CodeOf(mem, region), 0);
    PlainAndPrefixed(s);
    var p := Plain(s);
    forall k | 0 <= k < |p|
      ensures IsSystem(p[k].kind)
    {
      assert p[k] in s;
      var j :| 0 <= j < |s| && s[j] == p[k];
      assert IsSystem(s[j].kind);
    }
    CountsAddUp(p);
  }

  // ---------------------------------------------------------------------
  // Statistics, result and permissions of one call, from the bytes it changed
  // ---------------------------------------------------------------------

  /** Offset i: the code `c` had 0f and the byte `second` there, and `d` has ff in place of the 0f. */
  predicate PairAt(c: seq<byte>, d: seq<byte>, second: byte, i: nat)
    requires i < |c| == |d|
  {
    i + 1 < |c| && c[i] == 0x0f && c[i + 1] == second && d[i] == 0xff
  }

  function Pairs(c: seq<byte>, d: seq<byte>, second: byte): nat
    requires |c| == |d|
    decreases |c|
  {
    if c == [] then 0 else (if PairAt(c, d, second, 0) then 1 else 0) + Pairs(c[1..], d[1..], second)
  }

  lemma {:induction false} PairsDrop(c: seq<byte>, d: seq<byte>, second: byte, n: nat)
    requires n <= |c| == |d|
    requires forall i {:trigger PairAt(c, d, second, i)} :: 0 <= i < n ==> !PairAt(c, d, second, i)
    ensures Pairs(c, d, second) == Pairs(c[n..], d[n..], second)
    decreases n
  {
    if n == 0 {
      assert c[0..] == c && d[0..] == d;
    } else {
      assert !PairAt(c, d, second, 0);
      forall i | 0 <= i < n - 1
        ensures !PairAt(c[1..], d[1..], second, i)
      {
        assert !PairAt(c, d, second, i + 1);
      }
      PairsDrop(c[1..], d[1..], second, n - 1);
      DropDrop(c, 1, n);
      DropDrop(d, 1, n);
    }
  }

  lemma {:induction false} NoPairs(c: seq<byte>, second: byte)
    ensures Pairs(c, c, second) == 0
  {
    if c != [] {
      NoPairs(c[1..], second);
    }
  }

  function KindOf(second: byte): Kind
    requires second == 0x05 || second == 0x34
  {
    if second == 0x05 then Syscall else Sysenter
  }

  lemma {:induction false} PairsAreSites(dec: Decoder, c: seq<byte>, at: nat, second: byte)
    requires Contract(dec) && (second == 0x05 || second == 0x34)
    ensures Pairs(c, PatchCode(dec, c), second) == CountKind(Plain(Sites(dec, c, at)), KindOf(second))
    decreases |c|
  {
    hide Contract, PatchCode, Sites, Plain, CountKind, Pairs, KindOf;
    if c == [] {
      NothingToCount(dec, at);
      EmptyCounts(KindOf(second));
      NoPairs(c, second);
    } else {
      PairsHead(dec, c, second);
      SitesCount(dec, c, at, KindOf(second));
      PairsAreSites(dec, c[dec(c).len..], at + dec(c).len, second);
    }
  }

  lemma EmptyCounts(k: Kind)
    ensures Plain([]) == [] && CountKind([], k) == 0
  {
  }

  lemma SitesCount(dec: Decoder, c: seq<byte>, at: nat, k: Kind)
    requires Contract(dec) && c != []
    ensures var n := dec(c).len;
            && 1 <= n <= |c|
            && CountKind(Plain(Sites(dec, c, at)), k) ==
               CountKind(Plain(Sites(dec, c[n..], at + n)), k) + (if PlainHead(dec, c) && dec(c).kind == k then 1 else 0)
  {
    SitesUnfold(dec, c, at);
    hide Contract, Sites, HeadSite, Plain, CountKind, PlainHead;
    var rest := Sites(dec, c[dec(c).len..], at + dec(c).len);
    PrefixedAppend(HeadSite(dec, c, at), rest);
    CountHead(dec, c, at, Plain(rest), k);
  }

  lemma PairsHead(dec: Decoder, c: seq<byte>, second: byte)
    requires Contract(dec) && c != [] && (second == 0x05 || second == 0x34)
    ensures var n := dec(c).len;
            && n <= |c|
            && Pairs(c, PatchCode(dec, c), second) ==
               Pairs(c[n..], PatchCode(dec, c[n..]), second) +
                 (if PlainHead(dec, c) && dec(c).kind == KindOf(second) then 1 else 0)
  {
    HeadLength(dec, c);
    PatchedHead(dec, c);
    hide Contract, PatchCode;
    var n := dec(c).len;
    var p := PatchCode(dec, c);
    if PlainHead(dec, c) {
      assert !PairAt(c[1..], p[1..], second, 0);
      PairsDrop(c[1..], p[1..], second, 1);
      DropDrop(c, 1, 2);
      DropDrop(p, 1, 2);
    } else {
      forall i | 0 <= i < n
        ensures !PairAt(c, p, second, i)
      {
        assert p[i] == p[..n][i] == c[..n][i];
      }
      PairsDrop(c, p, second, n);
    }
  }

  lemma CountHead(dec: Decoder, c: seq<byte>, at: nat, rest: seq<Site>, k: Kind)
    requires c != []
    ensures CountKind(Plain(HeadSite(dec, c, at)) + rest, k) ==
            CountKind(rest, k) + (if PlainHead(dec, c) && dec(c).kind == k then 1 else 0)
  {
    var h := HeadSite(dec, c, at);
    if h == [] || !h[0].plain {
      assert Plain(h) == [] && [] + rest == rest;
    } else {
      assert h == [h[0]] && Plain(h) == [h[0]];
      assert ([h[0]] + rest)[1..] == rest;
    }
  }

  ghost predicate Changed(m: Mem, n: Mem) {
    exists a {:trigger Rd(n, a)} :: Rd(n, a) != Rd(m, a)
  }

  lemma ChangedExactly(su: Setup, stats: Stats, w: World, region: MemoryRegion, ans: Answers)
    requires Sound(su) && UsableIfConsidered(su, w.mem, region) && Patches(su, w.mem, region, ans)
    ensures Changed(w.mem, RegionOutcome(su, stats, w, region, ans).world.mem) <==> Plain(Found(su, w.mem, region)) != []
  {
    hide Contract, Sites, RegionOutcome, CodeOf, Excluded, NoOverflow;
    var m := RegionOutcome(su, stats, w, region, ans).world.mem;
    var s := Found(su, w.mem, region);
    PlainAndPrefixed(s);
    if Plain(s) != [] {
      assert Plain(s)[0] in Plain(s);
      var k :| 0 <= k < |s| && s[k] == Plain(s)[0];
      var p := region.start + s[k].offset;
      assert s[k].plain && s[k].offset == p - region.start;
      assert SiteOf(su, w.mem, region, ans, p);
      RegionBytes(su, stats, w, region, ans, p);
    } else if Changed(w.mem, m) {
      var a :| Rd(m, a) != Rd(w.mem, a);
      RegionBytes(su, stats, w, region, ans, a);
    }
  }

  /** `0f second` pairs of the region that the call turned into `ff d0`. */
  ghost function Replaced(m: Mem, n: Mem, region: MemoryRegion, second: byte): nat {
    if region.start <= region.end then Pairs(CodeOf(m, region), CodeOf(n, region), second) else 0
  }

  lemma NoneReplaced(m: Mem, region: MemoryRegion, second: byte)
    ensures Replaced(m, m, region, second) == 0
  {
    if region.start <= region.end {
      NoPairs(CodeOf(m, region), second);
    }
  }

  lemma ReplacedCount(su: Setup, stats: Stats, w: World, region: MemoryRegion, ans: Answers)
    requires Sound(su) && UsableIfConsidered(su, w.mem, region) && Patches(su, w.mem, region, ans)
    ensures var m := RegionOutcome(su, stats, w, region, ans).world.mem;
            var plain := Plain(Found(su, w.mem, region));
            && Replaced(w.mem, m, region, 0x05) == CountKind(plain, Syscall)
            && Replaced(w.mem, m, region, 0x34) == CountKind(plain, Sysenter)
            && Replaced(w.mem, m, region, 0x05) + Replaced(w.mem, m, region, 0x34) == |plain|
  {
    hide Contract, Sites, PatchCode, RegionOutcome, Excluded, NoOverflow, CodeOf, Plain, CountKind, Pairs;
    PatchedCode(su, stats, w, region, ans);
    PairsAreSites(su.dec, CodeOf(w.mem, region), 0, 0x05);
    PairsAreSites(su.dec, CodeOf(w.mem, region), 0, 0x34);
    FoundCounts(su, w.mem, region);
  }

  /** Every counter and the result of a call that is not a dry run, told from the memory before and after: each
      `0f 05` turned into `ff d0` counts as a system call, each `0f 34` as a sysenter. */
  lemma RegionReport(su: Setup, stats: Stats, w: World, region: MemoryRegion, ans: Answers)
    requires Sound(su) && UsableIfConsidered(su, w.mem, region) && !su.cfg.dryRun
    ensures var o := RegionOutcome(su, stats, w, region, ans);
            var syscalls, sysenters := Replaced(w.mem, o.world.mem, region, 0x05), Replaced(w.mem, o.world.mem, region, 0x34);
            && o.stats.scanned == stats.scanned + 1
            && o.stats.syscalls == stats.syscalls + syscalls
            && o.stats.sysenters == stats.sysenters + sysenters
            && o.stats.skipped == stats.skipped + (if region.executable && Excluded(su.under, su.cfg, region) then 1 else 0)
            && o.stats.rewritten == stats.rewritten + (if Changed(w.mem, o.world.mem) && ans.restore then 1 else 0)
            && (Changed(w.mem, o.world.mem) <==> syscalls + sysenters > 0)
            && o.result ==
               (if !Considered(su, region) || Found(su, w.mem, region) == [] then Ok(0)
                else if region.start < su.pageSize then Err(OtherError)
                else if !ans.first || !ans.restore then Err(ProtectError)
                else Ok(syscalls + sysenters))
  {
    hide Contract, Sites, PatchCode, WriteN, SetPages, Excluded, NoOverflow, Plain, CountKind, CodeOf, Replaced, Changed;
    FirstPage(region.start, su.pageSize);
    if Patches(su, w.mem, region, ans) {
      ReplacedCount(su, stats, w, region, ans);
      ChangedExactly(su, stats, w, region, ans);
      assert Plain(Found(su, w.mem, region)) != [] <==> |Plain(Found(su, w.mem, region))| > 0;
    } else {
      assert RegionOutcome(su, stats, w, region, ans).world.mem == w.mem;
      NoneReplaced(w.mem, region, 0x05);
      NoneReplaced(w.mem, region, 0x34);
      assert !Changed(w.mem, w.mem) by { Unchanged(w.mem); }
    }
  }

  /** The same for a dry run: memory and permissions untouched, everything found booked under the system calls. */
  lemma DryRunReport(su: Setup, stats: Stats, w: World, region: MemoryRegion, ans: Answers)
    requires Sound(su) && UsableIfConsidered(su, w.mem, region) && su.cfg.dryRun
    ensures var o := RegionOutcome(su, stats, w, region, ans);
            var n := if Considered(su, region) then |Found(su, w.mem, region)| else 0;
            && o.world == w && o.result == Ok(n)
            && o.stats.scanned == stats.scanned + 1
            && o.stats.syscalls == stats.syscalls + n && o.stats.sysenters == stats.sysenters
            && o.stats.skipped == stats.skipped + (if region.executable && Excluded(su.under, su.cfg, region) then 1 else 0)
            && o.stats.rewritten == stats.rewritten
  {
    hide Contract, Sites, PatchCode, WriteN, SetPages, Excluded, NoOverflow, Plain, CountKind, CodeOf;
  }

  lemma Unchanged(m: Mem)
    ensures !Changed(m, m)
  {
  }

  lemma FirstPage(start: u64, pageSize: nat)
    requires pageSize > 0
    ensures AlignedStart(start, pageSize) == 0 <==> start < pageSize
  {
    DivBounds(start, pageSize);
    if start >= pageSize {
      DivMonotone(pageSize, start, pageSize);
      DivOfMultiple(1, pageSize);
      MulMonotone(1, start / pageSize, pageSize);
    } else if start / pageSize > 0 {
      MulMonotone(1, start / pageSize, pageSize);
    } else if start / pageSize < 0 {
      MulMonotone(start / pageSize, -1, pageSize);
    }
  }

  /** Every page after a call: those of the region's interval are readable and executable, writable if the region
      is listed so or the restoring call failed; without a patch, and outside the interval, nothing changes. */
  lemma PagesAfter(su: Setup, stats: Stats, w: World, region: MemoryRegion, ans: Answers, pg: int)
    requires Sound(su) && UsableIfConsidered(su, w.mem, region)
    ensures var q := RegionOutcome(su, stats, w, region, ans).world.prot;
            var first := AlignedStart(region.start, su.pageSize) / su.pageSize;
            var count := AlignedSize(region.start, region.end, su.pageSize) / su.pageSize;
            if Patches(su, w.mem, region, ans) && first <= pg < first + count
            then pg in q && q[pg] == Prot(true, region.writable || !ans.restore, true)
            else (pg in q <==> pg in w.prot) && (pg in q ==> q[pg] == w.prot[pg])
  {
    hide Contract, Sites, PatchCode, WriteN, Excluded, SetPages, Plain, AlignedStart, AlignedSize, NoOverflow, Found;
  }

  // ---------------------------------------------------------------------
  // Twice the same region, and dry runs
  // ---------------------------------------------------------------------

  lemma PatchedCode(su: Setup, stats: Stats, w: World, region: MemoryRegion, ans: Answers)
    requires Sound(su) && UsableIfConsidered(su, w.mem, region) && Patches(su, w.mem, region, ans)
    ensures var m := RegionOutcome(su, stats, w, region, ans).world.mem;
            && CodeOf(m, region) == PatchCode(su.dec, CodeOf(w.mem, region))
            && Usable(su, m, region)
            && Found(su, m, region) == Prefixed(Found(su, w.mem, region))
            && Plain(Found(su, m, region)) == []
            && WriteN(m, region.start, PatchCode(su.dec, CodeOf(m, region))) == m
  {
    hide Contract, Sites, PatchCode, WriteN, SetPages, Excluded, NoOverflow, Prefixed, Plain;
    var c := CodeOf(w.mem, region);
    var p := PatchCode(su.dec, c);
    var m := RegionOutcome(su, stats, w, region, ans).world.mem;
    assert m == WriteN(w.mem, region.start, p);
    KeysKept(w.mem, m, region, p);
    assert CodeOf(m, region) == p;
    PatchedSites(su.dec, c, 0);
    PatchIdempotent(su.dec, c);
    NoneIsPlain(Found(su, m, region));
    var again := WriteN(m, region.start, p);
    KeysKept(m, again, region, p);
    forall a | a in m
      ensures again[a] == m[a]
    {
      assert Rd(again, a) == Rd(m, a);
    }
  }

  lemma {:induction false} NoneIsPlain(s: seq<Site>)
    requires forall x :: x in s ==> !x.plain
    ensures Plain(s) == []
  {
    if s != [] {
      assert s[0] in s;
      NoneIsPlain(s[1..]);
    }
  }

  /** A second call on a region that was rewritten without error changes no byte, replaces nothing, counts no
      rewritten region, and returns 0 when its permission changes succeed. */
  lemma SecondPass(su: Setup, stats: Stats, w: World, region: MemoryRegion, ans: Answers, again: Answers)
    requires Sound(su) && UsableIfConsidered(su, w.mem, region) && !su.cfg.dryRun
    requires RegionOutcome(su, stats, w, region, ans).result.Ok?
    ensures var o := RegionOutcome(su, stats, w, region, ans);
            && UsableIfConsidered(su, o.world.mem, region)
            && var o2 := RegionOutcome(su, o.stats, o.world, region, again);
            && o2.world.mem == o.world.mem
            && o2.stats.syscalls == o.stats.syscalls && o2.stats.sysenters == o.stats.sysenters
            && o2.stats.rewritten == o.stats.rewritten
            && (again.first && again.restore ==> o2.result == Ok(0))
  {
    hide Contract, Sites, PatchCode, WriteN, SetPages, Excluded, NoOverflow, Prefixed, Plain;
    if Patches(su, w.mem, region, ans) {
      PatchedCode(su, stats, w, region, ans);
      assert CountKind([], Syscall) == 0 && CountKind([], Sysenter) == 0;
    }
  }

  /** On the same memory a dry run touches nothing, counts every instruction found under the system calls, and
      returns the real run's count plus the number of prefixed instructions. */
  lemma DryRunBound(su: Setup, stats: Stats, w: World, region: MemoryRegion, ans: Answers, dryAns: Answers)
    requires Sound(su) && UsableIfConsidered(su, w.mem, region) && !su.cfg.dryRun
    requires RegionOutcome(su, stats, w, region, ans).result.Ok?
    ensures var dry := su.(cfg := su.cfg.(dryRun := true));
            var o := RegionOutcome(su, stats, w, region, ans);
            var d := RegionOutcome(dry, stats, w, region, dryAns);
            && d.world == w && d.result.Ok?
            && d.result.count == o.result.count +
                 (if Considered(su, region) then |Prefixed(Found(su, w.mem, region))| else 0)
            && d.stats.syscalls == stats.syscalls + d.result.count
            && d.stats.sysenters == stats.sysenters && d.stats.rewritten == stats.rewritten
  {
    var dry := su.(cfg := su.cfg.(dryRun := true));
    assert Excluded(dry.under, dry.cfg, region) == Excluded(su.under, su.cfg, region);
    hide Contract, Sites, PatchCode, WriteN, SetPages, Excluded, NoOverflow, Prefixed, Plain;
    if Considered(su, region) {
      PlainAndPrefixed(Found(su, w.mem, region));
    }
  }

  // ---------------------------------------------------------------------
  // Permissions
  // ---------------------------------------------------------------------

  /** Every page of the interval the rewriter opens for the region has the region's listed permissions. */
  ghost predicate PagesMatch(su: Setup, prot: Pages, region: MemoryRegion)
    requires su.pageSize > 0
  {
    PagesAre(prot, AlignedStart(region.start, su.pageSize) / su.pageSize,
             AlignedSize(region.start, region.end, su.pageSize) / su.pageSize,
             Prot(region.readable, region.writable, region.executable))
  }

  ghost predicate PagesAre(prot: Pages, first: int, count: nat, p: Prot) {
    forall pg {:trigger pg in prot} {:trigger prot[pg]} :: first <= pg < first + count ==> pg in prot && prot[pg] == p
  }

  /** Opening pages and setting them again leaves the second permissions. */
  lemma SetTwice(prot: Pages, first: int, count: nat, p: Prot, q: Prot, was: Prot)
    requires PagesAre(prot, first, count, was) && count > 0
    ensures SetPages(SetPages(prot, first, count, p), first, count, q) == prot <==> q == was
  {
    var open := SetPages(prot, first, count, p);
    var m := SetPages(open, first, count, q);
    hide SetPages;
    assert first in prot && first in m;
    assert prot[first] == was && m[first] == q;
    if q == was {
      forall pg
        ensures pg in m <==> pg in prot
        ensures pg in m ==> m[pg] == prot[pg]
      {
        assert pg in open <==> pg in prot;
      }
      assert m.Keys == prot.Keys;
    }
  }

  /** A patched region gets its permissions back exactly when it was readable: the restoring call always grants
      read permission. */
  lemma PermissionsRestored(su: Setup, stats: Stats, w: World, region: MemoryRegion, ans: Answers)
    requires Sound(su) && UsableIfConsidered(su, w.mem, region)
    requires PagesMatch(su, w.prot, region) && Patches(su, w.mem, region, ans) && ans.restore
    ensures RegionOutcome(su, stats, w, region, ans).world.prot == w.prot <==> region.readable
  {
    NotEmpty(su, w.mem, region);
    hide Contract, Sites, PatchCode, WriteN, Excluded, SetPages, Plain, AlignedStart, AlignedSize, NoOverflow;
    PageInInterval(region.start, region.end, su.pageSize, region.start);
    SetTwice(w.prot, AlignedStart(region.start, su.pageSize) / su.pageSize,
             AlignedSize(region.start, region.end, su.pageSize) / su.pageSize,
             Prot(true, true, true), OriginalProt(region),
             Prot(region.readable, region.writable, region.executable));
  }

  lemma NotEmpty(su: Setup, mem: Mem, region: MemoryRegion)
    requires Sound(su) && region.start <= region.end && Found(su, mem, region) != []
    ensures region.start < region.end
  {
  }

  /** A call that does not patch leaves the permissions alone, and so does one whose restore succeeds on a
      readable region. */
  lemma PermissionsKept(su: Setup, stats: Stats, w: World, region: MemoryRegion, ans: Answers)
    requires Sound(su) && UsableIfConsidered(su, w.mem, region)
    requires Considered(su, region) ==> PagesMatch(su, w.prot, region) && region.readable && ans.restore
    ensures RegionOutcome(su, stats, w, region, ans).world.prot == w.prot
  {
    hide Contract, Sites, PatchCode, WriteN, Excluded, SetPages, Plain, NoOverflow, PagesMatch;
    if Patches(su, w.mem, region, ans) {
      PermissionsRestored(su, stats, w, region, ans);
    }
  }

  // ---------------------------------------------------------------------
  // Passes: a rewriter applied to one region after another
  // ---------------------------------------------------------------------

  datatype Step = Step(region: MemoryRegion, ans: Answers)

  datatype PassResult = PassResult(stats: Stats, world: World, results: seq<Result>)

  /** Every region that will be read is mapped. */
  ghost predicate AllUsable(su: Setup, mem: Mem, steps: seq<Step>)
    requires su.pageSize > 0
  {
    forall i {:trigger steps[i]} :: 0 <= i < |steps| ==> UsableIfConsidered(su, mem, steps[i].region)
  }

  lemma UsableByKeys(su: Setup, mem: Mem, m: Mem, steps: seq<Step>)
    requires su.pageSize > 0 && AllUsable(su, mem, steps) && m.Keys == mem.Keys
    ensures AllUsable(su, m, steps)
  {
    hide NoOverflow, Excluded;
    forall i | 0 <= i < |steps|
      ensures UsableIfConsidered(su, m, steps[i].region)
    {
      var r := steps[i].region;
      if Considered(su, r) {
        assert Usable(su, mem, r);
        forall a | r.start <= a < r.end
          ensures a in m
        {
          assert a in mem;
        }
      }
    }
  }

  lemma AfterFirst(su: Setup, stats: Stats, w: World, steps: seq<Step>)
    requires Sound(su) && AllUsable(su, w.mem, steps) && steps != []
    ensures UsableIfConsidered(su, w.mem, steps[0].region)
    ensures var o := RegionOutcome(su, stats, w, steps[0].region, steps[0].ans);
            o.world.mem.Keys == w.mem.Keys && AllUsable(su, o.world.mem, steps[1..])
  {
    hide Contract, NoOverflow, Excluded, RegionOutcome;
    var o := RegionOutcome(su, stats, w, steps[0].region, steps[0].ans);
    RegionBytes(su, stats, w, steps[0].region, steps[0].ans, 0);
    UsableByKeys(su, w.mem, o.world.mem, steps);
    assert forall i :: 0 <= i < |steps| - 1 ==> steps[1..][i] == steps[i + 1];
  }

  ghost function Pass(su: Setup, stats: Stats, w: World, steps: seq<Step>): PassResult
    requires Sound(su) && AllUsable(su, w.mem, steps)
    decreases |steps|
  {
    if steps == [] then PassResult(stats, w, [])
    else
      AfterFirst(su, stats, w, steps);
      var o := RegionOutcome(su, stats, w, steps[0].region, steps[0].ans);
      var rest := Pass(su, o.stats, o.world, steps[1..]);
      PassResult(rest.stats, rest.world, [o.result] + rest.results)
  }

  lemma {:induction false} PassSnoc(su: Setup, stats: Stats, w: World, steps: seq<Step>, last: Step)
    requires Sound(su) && AllUsable(su, w.mem, steps + [last])
    ensures AllUsable(su, w.mem, steps)
    ensures var p := Pass(su, stats, w, steps);
            && UsableIfConsidered(su, p.world.mem, last.region)
            && var o := RegionOutcome(su, p.stats, p.world, last.region, last.ans);
               Pass(su, stats, w, steps + [last]) == PassResult(o.stats, o.world, p.results + [o.result])
    decreases |steps|
  {
    hide Contract, UsableIfConsidered, RegionOutcome;
    assert forall i :: 0 <= i < |steps| ==> (steps + [last])[i] == steps[i];
    assert (steps + [last])[|steps|] == last;
    if steps == [] {
      AfterFirst(su, stats, w, steps + [last]);
      assert (steps + [last])[1..] == [];
    } else {
      AfterFirst(su, stats, w, steps + [last]);
      var o := RegionOutcome(su, stats, w, steps[0].region, steps[0].ans);
      assert (steps + [last])[1..] == steps[1..] + [last];
      PassSnoc(su, o.stats, o.world, steps[1..], last);
    }
  }

  // ---------------------------------------------------------------------
  // The final memory as a function of the initial memory
  // ---------------------------------------------------------------------

  predicate DisjointFrom(r: MemoryRegion, q: MemoryRegion) {
    r.end <= q.start || q.end <= r.start
  }

  ghost predicate Disjoint(steps: seq<Step>) {
    forall i, j {:trigger steps[i], steps[j]} :: 0 <= i < j < |steps| ==> DisjointFrom(steps[i].region, steps[j].region)
  }

  /** Some region of the pass has a patched site at `p`, judged in memory `mem`. */
  ghost predicate SiteAt(su: Setup, mem: Mem, steps: seq<Step>, p: int)
    requires Sound(su) && AllUsable(su, mem, steps)
  {
    exists i :: 0 <= i < |steps| && SiteOf(su, mem, steps[i].region, steps[i].ans, p)
  }

  ghost function FinalByte(su: Setup, mem: Mem, steps: seq<Step>, a: int): byte
    requires Sound(su) && AllUsable(su, mem, steps)
  {
    if SiteAt(su, mem, steps, a) then 0xff else if SiteAt(su, mem, steps, a - 1) then 0xd0 else Rd(mem, a)
  }

  lemma SiteAtCons(su: Setup, mem: Mem, steps: seq<Step>, p: int)
    requires Sound(su) && AllUsable(su, mem, steps) && steps != []
    ensures AllUsable(su, mem, steps[1..])
    ensures SiteAt(su, mem, steps, p) <==>
            SiteOf(su, mem, steps[0].region, steps[0].ans, p) || SiteAt(su, mem, steps[1..], p)
  {
    hide Contract, UsableIfConsidered, SiteOf;
    assert forall i :: 0 <= i < |steps| - 1 ==> steps[1..][i] == steps[i + 1];
    if SiteAt(su, mem, steps[1..], p) {
      var i :| 0 <= i < |steps| - 1 && SiteOf(su, mem, steps[1..][i].region, steps[1..][i].ans, p);
      assert SiteOf(su, mem, steps[i + 1].region, steps[i + 1].ans, p);
    }
    if SiteAt(su, mem, steps, p) {
      var i :| 0 <= i < |steps| && SiteOf(su, mem, steps[i].region, steps[i].ans, p);
      if i > 0 {
        assert steps[1..][i - 1] == steps[i];
      }
    }
  }

  predicate InRegion(region: MemoryRegion, a: int) {
    region.start <= a < region.end
  }

  /** Sites are judged by the bytes of their own region only. */
  lemma SiteOfSame(su: Setup, mem: Mem, m: Mem, region: MemoryRegion, ans: Answers, p: int)
    requires Sound(su) && UsableIfConsidered(su, mem, region) && UsableIfConsidered(su, m, region)
    requires Considered(su, region) ==> forall a :: region.start <= a < region.end ==> Rd(mem, a) == Rd(m, a)
    ensures SiteOf(su, mem, region, ans, p) == SiteOf(su, m, region, ans, p)
  {
    hide Contract, Sites, Excluded, NoOverflow;
    if Considered(su, region) {
      assert CodeOf(mem, region) == CodeOf(m, region);
    }
  }

  lemma SiteAtSame(su: Setup, mem: Mem, m: Mem, steps: seq<Step>, p: int)
    requires Sound(su) && AllUsable(su, mem, steps) && AllUsable(su, m, steps)
    requires forall i, a {:trigger steps[i], Rd(m, a)} ::
               0 <= i < |steps| && Considered(su, steps[i].region) && InRegion(steps[i].region, a) ==> Rd(mem, a) == Rd(m, a)
    ensures SiteAt(su, mem, steps, p) == SiteAt(su, m, steps, p)
  {
    hide Contract, Considered, SiteOf;
    forall i | 0 <= i < |steps|
      ensures SiteOf(su, mem, steps[i].region, steps[i].ans, p) == SiteOf(su, m, steps[i].region, steps[i].ans, p)
    {
      SiteOfSame(su, mem, m, steps[i].region, steps[i].ans, p);
    }
  }

  /** The first call changes nothing that decides where the later sites are. */
  lemma LaterSitesKept(su: Setup, stats: Stats, w: World, steps: seq<Step>, p: int)
    requires Sound(su) && AllUsable(su, w.mem, steps) && Disjoint(steps) && steps != []
    ensures var m := RegionOutcome(su, stats, w, steps[0].region, steps[0].ans).world.mem;
            && AllUsable(su, m, steps[1..]) && AllUsable(su, w.mem, steps[1..])
            && SiteAt(su, m, steps[1..], p) == SiteAt(su, w.mem, steps[1..], p)
  {
    hide Contract, RegionOutcome, SiteOf, SiteAt, UsableIfConsidered;
    var r := steps[0].region;
    var m := RegionOutcome(su, stats, w, r, steps[0].ans).world.mem;
    AfterFirst(su, stats, w, steps);
    SiteAtCons(su, w.mem, steps, p);
    forall i, a | 0 <= i < |steps[1..]| && Considered(su, steps[1..][i].region) && InRegion(steps[1..][i].region, a)
      ensures Rd(w.mem, a) == Rd(m, a)
    {
      assert steps[1..][i] == steps[i + 1];
      assert DisjointFrom(r, steps[i + 1].region);
      RegionBytes(su, stats, w, r, steps[0].ans, a);
      OutsideRegion(su, w.mem, r, steps[0].ans, a);
    }
    SiteAtSame(su, w.mem, m, steps[1..], p);
  }

  lemma OutsideRegion(su: Setup, mem: Mem, region: MemoryRegion, ans: Answers, a: int)
    requires Sound(su) && UsableIfConsidered(su, mem, region) && !(region.start <= a < region.end)
    ensures !SiteOf(su, mem, region, ans, a) && !SiteOf(su, mem, region, ans, a - 1)
  {
    hide Contract, SiteOf, UsableIfConsidered;
    if SiteOf(su, mem, region, ans, a) {
      SiteInside(su, mem, region, ans, a);
    }
    if SiteOf(su, mem, region, ans, a - 1) {
      SiteInside(su, mem, region, ans, a - 1);
    }
  }

  /** For pairwise disjoint regions, whatever the kernel answers, the final memory is a pointwise function of the
      initial memory. */
  lemma {:induction false} PassPointwise(su: Setup, stats: Stats, w: World, steps: seq<Step>, a: int)
    requires Sound(su) && AllUsable(su, w.mem, steps) && Disjoint(steps)
    ensures var m := Pass(su, stats, w, steps).world.mem;
            Rd(m, a) == FinalByte(su, w.mem, steps, a) && m.Keys == w.mem.Keys
    decreases |steps|
  {
    hide Contract, RegionOutcome, SiteOf, UsableIfConsidered;
    if steps != [] {
      var r, ans := steps[0].region, steps[0].ans;
      var o := RegionOutcome(su, stats, w, r, ans);
      AfterFirst(su, stats, w, steps);
      assert forall i :: 0 <= i < |steps| - 1 ==> steps[1..][i] == steps[i + 1];
      PassPointwise(su, o.stats, o.world, steps[1..], a);
      RegionBytes(su, stats, w, r, ans, a);
      LaterSitesKept(su, stats, w, steps, a);
      LaterSitesKept(su, stats, w, steps, a - 1);
      SiteAtCons(su, w.mem, steps, a);
      SiteAtCons(su, w.mem, steps, a - 1);
      OneRegionPerByte(su, w.mem, steps, a);
    }
  }

  /** A byte is in at most one region, so the first region's sites and the later ones never meet. */
  lemma OneRegionPerByte(su: Setup, mem: Mem, steps: seq<Step>, a: int)
    requires Sound(su) && AllUsable(su, mem, steps) && Disjoint(steps) && steps != []
    requires AllUsable(su, mem, steps[1..])
    ensures var here := SiteOf(su, mem, steps[0].region, steps[0].ans, a) ||
                        SiteOf(su, mem, steps[0].region, steps[0].ans, a - 1);
            here ==> !SiteAt(su, mem, steps[1..], a) && !SiteAt(su, mem, steps[1..], a - 1)
  {
    hide Contract, SiteOf, UsableIfConsidered;
    var r, ans := steps[0].region, steps[0].ans;
    assert UsableIfConsidered(su, mem, steps[0].region);
    if r.start <= a < r.end {
      forall i | 0 <= i < |steps[1..]|
        ensures !SiteOf(su, mem, steps[1..][i].region, steps[1..][i].ans, a)
        ensures !SiteOf(su, mem, steps[1..][i].region, steps[1..][i].ans, a - 1)
      {
        assert steps[1..][i] == steps[i + 1];
        assert DisjointFrom(r, steps[i + 1].region);
        OutsideRegion(su, mem, steps[i + 1].region, steps[i + 1].ans, a);
      }
    } else {
      OutsideRegion(su, mem, r, ans, a);
    }
  }

  /** The order of the regions does not matter. */
  lemma PassOrder(su: Setup, stats: Stats, w: World, steps: seq<Step>, other: seq<Step>)
    requires Sound(su) && AllUsable(su, w.mem, steps) && Disjoint(steps)
    requires multiset(steps) == multiset(other)
    requires Disjoint(other)
    ensures AllUsable(su, w.mem, other)
    ensures Pass(su, stats, w, steps).world.mem == Pass(su, stats, w, other).world.mem
  {
    hide Contract, Pass, SiteOf, UsableIfConsidered, SiteAt;
    forall i | 0 <= i < |other|
      ensures UsableIfConsidered(su, w.mem, other[i].region)
    {
      assert other[i] in multiset(other);
      assert other[i] in steps;
    }
    var m, n := Pass(su, stats, w, steps).world.mem, Pass(su, stats, w, other).world.mem;
    PassPointwise(su, stats, w, steps, 0);
    PassPointwise(su, stats, w, other, 0);
    forall a | a in m
      ensures m[a] == n[a]
    {
      PassPointwise(su, stats, w, steps, a);
      PassPointwise(su, stats, w, other, a);
      SameSites(su, w.mem, steps, other, a);
      SameSites(su, w.mem, steps, other, a - 1);
      assert m[a] == Rd(m, a) && n[a] == Rd(n, a);
    }
  }

  lemma SameSites(su: Setup, mem: Mem, steps: seq<Step>, other: seq<Step>, p: int)
    requires Sound(su) && AllUsable(su, mem, steps) && AllUsable(su, mem, other)
    requires multiset(steps) == multiset(other)
    ensures SiteAt(su, mem, steps, p) == SiteAt(su, mem, other, p)
  {
    hide Contract, SiteOf, UsableIfConsidered;
    if SiteAt(su, mem, steps, p) {
      var i :| 0 <= i < |steps| && SiteOf(su, mem, steps[i].region, steps[i].ans, p);
      assert steps[i] in multiset(steps);
      assert steps[i] in other;
      var j :| 0 <= j < |other| && other[j] == steps[i];
      assert SiteOf(su, mem, other[j].region, other[j].ans, p);
    }
    if SiteAt(su, mem, other, p) {
      var i :| 0 <= i < |other| && SiteOf(su, mem, other[i].region, other[i].ans, p);
      assert other[i] in multiset(other);
      assert other[i] in steps;
      var j :| 0 <= j < |steps| && steps[j] == other[i];
      assert SiteOf(su, mem, steps[j].region, steps[j].ans, p);
    }
  }

  /** Bytes of a region that is not executable, is excluded, or whose first permission change fails keep their
      values through the whole pass. */
  lemma RegionUntouched(su: Setup, stats: Stats, w: World, steps: seq<Step>, i: nat, a: int)
    requires Sound(su) && AllUsable(su, w.mem, steps) && Disjoint(steps) && i < |steps|
    requires !Considered(su, steps[i].region) || !steps[i].ans.first
    requires steps[i].region.start <= a < steps[i].region.end
    ensures Rd(Pass(su, stats, w, steps).world.mem, a) == Rd(w.mem, a)
  {
    hide Contract, Pass, UsableIfConsidered, Excluded;
    PassPointwise(su, stats, w, steps, a);
    forall j | 0 <= j < |steps|
      ensures !SiteOf(su, w.mem, steps[j].region, steps[j].ans, a)
      ensures !SiteOf(su, w.mem, steps[j].region, steps[j].ans, a - 1)
    {
      assert UsableIfConsidered(su, w.mem, steps[j].region);
      if j != i {
        var first, second := if i < j then i else j, if i < j then j else i;
        assert DisjointFrom(steps[first].region, steps[second].region);
        OutsideRegion(su, w.mem, steps[j].region, steps[j].ans, a);
      }
    }
  }

  // ---------------------------------------------------------------------
  // Statistics and permissions over a pass
  // ---------------------------------------------------------------------

  /** `0f second` pairs a pass turns into `ff d0`, each judged when its region is reached. */
  ghost function TotalReplaced(su: Setup, stats: Stats, w: World, steps: seq<Step>, second: byte): nat
    requires Sound(su) && AllUsable(su, w.mem, steps)
    decreases |steps|
  {
    if steps == [] then 0
    else
      AfterFirst(su, stats, w, steps);
      var o := RegionOutcome(su, stats, w, steps[0].region, steps[0].ans);
      Replaced(w.mem, o.world.mem, steps[0].region, second) + TotalReplaced(su, o.stats, o.world, steps[1..], second)
  }

  function SumOk(rs: seq<Result>): nat {
    if rs == [] then 0 else (if rs[0].Ok? then rs[0].count else 0) + SumOk(rs[1..])
  }

  /** Executable regions that the configuration excludes. */
  function SkippedIn(su: Setup, steps: seq<Step>): nat {
    if steps == [] then 0
    else (if steps[0].region.executable && Excluded(su.under, su.cfg, steps[0].region) then 1 else 0) + SkippedIn(su, steps[1..])
  }

  /** One non-dry call: the result reports the replaced pairs unless the restoring call failed, and the region is
      skipped, rewritten or neither. */
  lemma OneCallCounts(su: Setup, stats: Stats, w: World, step: Step)
    requires Sound(su) && UsableIfConsidered(su, w.mem, step.region) && !su.cfg.dryRun
    ensures var o := RegionOutcome(su, stats, w, step.region, step.ans);
            var n := Replaced(w.mem, o.world.mem, step.region, 0x05) + Replaced(w.mem, o.world.mem, step.region, 0x34);
            && SumOk([o.result]) <= n
            && (step.ans.restore ==> SumOk([o.result]) == n)
            && o.stats.skipped + o.stats.rewritten <= stats.skipped + stats.rewritten + 1
  {
    RegionReport(su, stats, w, step.region, step.ans);
    hide Contract, Sites, PatchCode, WriteN, SetPages, Excluded, NoOverflow, Plain, CountKind, Replaced, Changed, RegionOutcome;
    var o := RegionOutcome(su, stats, w, step.region, step.ans);
    assert SumOk([o.result]) == if o.result.Ok? then o.result.count else 0;
    if !Patches(su, w.mem, step.region, step.ans) {
      NothingReplaced(su, stats, w, step.region, step.ans);
    }
  }

  lemma NothingReplaced(su: Setup, stats: Stats, w: World, region: MemoryRegion, ans: Answers)
    requires Sound(su) && UsableIfConsidered(su, w.mem, region) && !Patches(su, w.mem, region, ans)
    ensures var m := RegionOutcome(su, stats, w, region, ans).world.mem;
            !Changed(w.mem, m) && Replaced(w.mem, m, region, 0x05) == 0 && Replaced(w.mem, m, region, 0x34) == 0
  {
    hide Contract, Sites, PatchCode, WriteN, SetPages, Excluded, NoOverflow, Plain, CountKind, CodeOf, Replaced;
    NoneReplaced(w.mem, region, 0x05);
    NoneReplaced(w.mem, region, 0x34);
  }

  /** Over any sequence of non-dry calls each replacement counter grows by the number of pairs of its kind that were
      turned into `ff d0`; together they are the sum of the reported counts when every restoring call succeeds and
      at least that sum otherwise; exactly the excluded executable regions are skipped, and skipped and rewritten
      regions stay within those scanned. */
  lemma {:induction false} StatsConserved(su: Setup, stats: Stats, w: World, steps: seq<Step>)
    requires Sound(su) && AllUsable(su, w.mem, steps) && !su.cfg.dryRun
    ensures var p := Pass(su, stats, w, steps);
            var a, b := TotalReplaced(su, stats, w, steps, 0x05), TotalReplaced(su, stats, w, steps, 0x34);
            && p.stats.syscalls == stats.syscalls + a
            && p.stats.sysenters == stats.sysenters + b
            && SumOk(p.results) <= a + b
            && ((forall i :: 0 <= i < |steps| ==> steps[i].ans.restore) ==> SumOk(p.results) == a + b)
            && p.stats.scanned == stats.scanned + |steps|
            && p.stats.skipped == stats.skipped + SkippedIn(su, steps)
            && (stats.skipped + stats.rewritten <= stats.scanned ==>
                  p.stats.skipped + p.stats.rewritten <= p.stats.scanned)
    decreases |steps|
  {
    hide Contract, RegionOutcome, UsableIfConsidered, Replaced, Changed, Excluded;
    if steps != [] {
      AfterFirst(su, stats, w, steps);
      var o := RegionOutcome(su, stats, w, steps[0].region, steps[0].ans);
      RegionReport(su, stats, w, steps[0].region, steps[0].ans);
      OneCallCounts(su, stats, w, steps[0]);
      StatsConserved(su, o.stats, o.world, steps[1..]);
      var rest := Pass(su, o.stats, o.world, steps[1..]);
      assert ([o.result] + rest.results)[1..] == rest.results && [o.result][1..] == [];
      assert steps[0].ans.restore && (forall i :: 0 <= i < |steps[1..]| ==> steps[1..][i].ans.restore)
        <== forall i :: 0 <= i < |steps| ==> steps[i].ans.restore;
    }
  }

  /** After a pass over readable regions whose pages have the listed permissions and whose restoring calls
      succeed, every page has the permissions it had. */
  lemma {:induction false} PassKeepsPermissions(su: Setup, stats: Stats, w: World, steps: seq<Step>)
    requires Sound(su) && AllUsable(su, w.mem, steps)
    requires forall i {:trigger steps[i]} :: 0 <= i < |steps| && Considered(su, steps[i].region) ==>
               PagesMatch(su, w.prot, steps[i].region) && steps[i].region.readable && steps[i].ans.restore
    ensures Pass(su, stats, w, steps).world.prot == w.prot
    decreases |steps|
  {
    hide Contract, RegionOutcome, UsableIfConsidered, PagesMatch, Considered;
    if steps != [] {
      AfterFirst(su, stats, w, steps);
      var o := RegionOutcome(su, stats, w, steps[0].region, steps[0].ans);
      PermissionsKept(su, stats, w, steps[0].region, steps[0].ans);
      assert forall i :: 0 <= i < |steps| - 1 ==> steps[1..][i] == steps[i + 1];
      PassKeepsPermissions(su, o.stats, o.world, steps[1..]);
    }
  }
}

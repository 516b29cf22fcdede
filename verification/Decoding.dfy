/** The linear sweep over a code region, for any instruction decoder that meets a stated contract, and the
    patched form of a region. */
module Decoding {
  import opened Bytes
  import Machine

  /** The kinds the rewriter distinguishes; `Other` carries whatever else identifies an instruction. */
  datatype Kind = Syscall | Sysenter | CallRax | Other(what: int)

  datatype Insn = Insn(len: nat, kind: Kind)

  /** Decodes the instruction at the start of the rest of a buffer. */
  type Decoder = seq<byte> -> Insn

  predicate IsSystem(k: Kind) {
    k == Syscall || k == Sysenter
  }

  /** What is assumed of the instruction decoder. */
  ghost predicate Contract(dec: Decoder) {
    && (forall c {:trigger dec(c)} :: c != [] ==> 1 <= dec(c).len <= |c|)
    && (forall c, d {:trigger dec(c), dec(d)} ::
          c != [] && |c| == |d| && dec(c).len <= |c| && c[..dec(c).len] == d[..dec(c).len] ==> dec(d) == dec(c))
    && (forall c {:trigger dec(c)} :: c != [] && IsSystem(dec(c).kind) ==> dec(c).len >= 2)
    && (forall c {:trigger dec(c)} :: c != [] && c[0] == 0x0f && IsSystem(dec(c).kind) ==>
          dec(c).len == 2 && |c| >= 2 && c[1] == if dec(c).kind == Syscall then 0x05 else 0x34)
    && (forall c {:trigger dec(c)} :: |c| >= 2 && c[0] == 0xff && c[1] == 0xd0 ==> dec(c) == Insn(2, CallRax))
  }

  // ---------------------------------------------------------------------
  // The sweep
  // ---------------------------------------------------------------------

  /** The instructions of a linear sweep, in order. */
  ghost function Sweep(dec: Decoder, c: seq<byte>): seq<Insn>
    requires Contract(dec)
    decreases |c|
  {
    if c == [] then [] else [dec(c)] + Sweep(dec, c[dec(c).len..])
  }

  datatype Site = Site(offset: nat, kind: Kind, plain: bool)

  /** The system call instructions a sweep finds, offsets counted from `at`; `plain` ones start with 0f. */
  ghost function Sites(dec: Decoder, c: seq<byte>, at: nat): seq<Site>
    requires Contract(dec)
    decreases |c|
  {
    if c == [] then [] else HeadSite(dec, c, at) + Sites(dec, c[dec(c).len..], at + dec(c).len)
  }

  function HeadSite(dec: Decoder, c: seq<byte>, at: nat): (s: seq<Site>)
    requires c != []
    ensures |s| <= 1
  {
    if IsSystem(dec(c).kind) then [Site(at, dec(c).kind, c[0] == 0x0f)] else []
  }

  lemma HeadLength(dec: Decoder, c: seq<byte>)
    requires Contract(dec) && c != []
    ensures 1 <= dec(c).len <= |c|
    ensures IsSystem(dec(c).kind) ==> dec(c).len >= 2
    ensures IsSystem(dec(c).kind) && c[0] == 0x0f ==> c[1] == if dec(c).kind == Syscall then 0x05 else 0x34
  {
  }

  /** The patched form: each unprefixed system call instruction has become `ff d0`. */
  ghost function PatchCode(dec: Decoder, c: seq<byte>): (p: seq<byte>)
    requires Contract(dec)
    ensures |p| == |c|
    decreases |c|
  {
    if c == [] then []
    else
      var n := dec(c).len;
      (if IsSystem(dec(c).kind) && c[0] == 0x0f then [0xff, 0xd0] else c[..n]) + PatchCode(dec, c[n..])
  }

  /** The instruction list with each unprefixed system call turned into `call rax`. */
  ghost function Retarget(dec: Decoder, c: seq<byte>): seq<Insn>
    requires Contract(dec)
    decreases |c|
  {
    if c == [] then []
    else
      var i := dec(c);
      [if IsSystem(i.kind) && c[0] == 0x0f then Insn(2, CallRax) else i] + Retarget(dec, c[i.len..])
  }

  /** The first instruction of the patched form, and where the rest of the sweep goes on. */
  lemma PatchedHead(dec: Decoder, c: seq<byte>)
    requires Contract(dec) && c != []
    ensures var i := dec(c);
            var p := PatchCode(dec, c);
            && dec(p) == (if IsSystem(i.kind) && c[0] == 0x0f then Insn(2, CallRax) else i)
            && p[i.len..] == PatchCode(dec, c[i.len..])
            && (IsSystem(dec(p).kind) ==> p[0] != 0x0f)
            && (if PlainHead(dec, c) then i.len == 2 && p[0] == 0xff && p[1] == 0xd0
                else p[..i.len] == c[..i.len] && p[0] == c[0])
  {
    var i := dec(c);
    var p := PatchCode(dec, c);
    if IsSystem(i.kind) && c[0] == 0x0f {
      assert p[0] == 0xff && p[1] == 0xd0;
    } else {
      assert p[..i.len] == c[..i.len];
      assert dec(p) == dec(c);
      assert p[0] == p[..i.len][0] == c[..i.len][0];
    }
  }

  /** Decoding the patched region visits the same boundaries; every instruction is the same except that each
      unprefixed system call has become `call rax`. */
  lemma {:induction false} SweepPreserved(dec: Decoder, c: seq<byte>)
    requires Contract(dec)
    ensures Sweep(dec, PatchCode(dec, c)) == Retarget(dec, c)
    decreases |c|
  {
    if c != [] {
      PatchedHead(dec, c);
      SweepPreserved(dec, c[dec(c).len..]);
    }
  }

  /** A sweep over the patched form finds exactly the prefixed sites of the original, and no others. */
  lemma {:induction false} PatchedSites(dec: Decoder, c: seq<byte>, at: nat)
    requires Contract(dec)
    ensures Sites(dec, PatchCode(dec, c), at) == Prefixed(Sites(dec, c, at))
    ensures forall x :: x in Sites(dec, PatchCode(dec, c), at) ==> !x.plain
    decreases |c|
  {
    hide Contract, PatchCode, HeadSite, Prefixed, Sites, PlainHead;
    if c == [] {
      NothingFound(dec, at);
      assert PatchCode(dec, c) == [];
    } else {
      var p := PatchCode(dec, c);
      var n := dec(c).len;
      HeadLength(dec, c);
      PatchedHead(dec, c);
      PatchedHeadSite(dec, c, at);
      PatchedSites(dec, c[n..], at + n);
      SitesUnfold(dec, c, at);
      SitesUnfold(dec, p, at);
      PrefixedAppend(HeadSite(dec, c, at), Sites(dec, c[n..], at + n));
    }
  }

  lemma NothingFound(dec: Decoder, at: nat)
    requires Contract(dec)
    ensures Sites(dec, [], at) == [] == Prefixed([])
  {
  }

  lemma SitesUnfold(dec: Decoder, c: seq<byte>, at: nat)
    requires Contract(dec) && c != []
    ensures 1 <= dec(c).len <= |c|
    ensures Sites(dec, c, at) == HeadSite(dec, c, at) + Sites(dec, c[dec(c).len..], at + dec(c).len)
  {
  }

  lemma PatchedHeadSite(dec: Decoder, c: seq<byte>, at: nat)
    requires Contract(dec) && c != []
    ensures var p := PatchCode(dec, c);
            && dec(p).len == dec(c).len
            && HeadSite(dec, p, at) == Prefixed(HeadSite(dec, c, at))
            && forall x :: x in HeadSite(dec, p, at) ==> !x.plain
  {
    PatchedHead(dec, c);
    hide Contract, PatchCode;
  }

  function Prefixed(s: seq<Site>): seq<Site> {
    if s == [] then [] else (if s[0].plain then [] else [s[0]]) + Prefixed(s[1..])
  }

  function Plain(s: seq<Site>): seq<Site> {
    if s == [] then [] else (if s[0].plain then [s[0]] else []) + Plain(s[1..])
  }

  lemma PrefixedAppend(s: seq<Site>, t: seq<Site>)
    requires |s| <= 1
    ensures Prefixed(s + t) == Prefixed(s) + Prefixed(t) && Plain(s + t) == Plain(s) + Plain(t)
  {
    if s == [] {
      assert s + t == t;
    } else {
      assert (s + t)[1..] == t;
    }
  }

  lemma {:induction false} PlainAndPrefixed(s: seq<Site>)
    ensures |Plain(s)| + |Prefixed(s)| == |s|
    ensures forall x :: x in Plain(s) <==> x in s && x.plain
    ensures forall x :: x in Prefixed(s) <==> x in s && !x.plain
  {
    if s != [] {
      PlainAndPrefixed(s[1..]);
      assert s == [s[0]] + s[1..];
    }
  }

  /** Patching a patched region changes nothing. */
  lemma {:induction false} PatchIdempotent(dec: Decoder, c: seq<byte>)
    requires Contract(dec)
    ensures PatchCode(dec, PatchCode(dec, c)) == PatchCode(dec, c)
    decreases |c|
  {
    if c != [] {
      var n := dec(c).len;
      var p := PatchCode(dec, c);
      PatchedHead(dec, c);
      PatchIdempotent(dec, c[n..]);
      assert p == p[..n] + p[n..];
    }
  }

  // ---------------------------------------------------------------------
  // Where sites lie
  // ---------------------------------------------------------------------

  /** Offsets are within the code, increase by at least two, and point at the two bytes the kind says. */
  ghost predicate WellPlaced(s: seq<Site>, c: seq<byte>, at: nat) {
    && (forall k {:trigger s[k]} :: 0 <= k < |s| ==> at <= s[k].offset && s[k].offset + 2 <= at + |c| && IsSystem(s[k].kind))
    && (forall j, k {:trigger s[j], s[k]} :: 0 <= j < k < |s| ==> s[j].offset + 2 <= s[k].offset)
    && (forall k {:trigger s[k]} :: 0 <= k < |s| ==> (s[k].plain <==> c[s[k].offset - at] == 0x0f))
    && (forall k {:trigger s[k]} :: 0 <= k < |s| && s[k].plain ==>
          c[s[k].offset - at + 1] == if s[k].kind == Syscall then 0x05 else 0x34)
  }

  lemma {:induction false} SitesWellPlaced(dec: Decoder, c: seq<byte>, at: nat)
    requires Contract(dec)
    ensures WellPlaced(Sites(dec, c, at), c, at)
    decreases |c|
  {
    hide Contract, WellPlaced;
    if c == [] {
      assert Sites(dec, c, at) == [];
      NoSites(c, at);
    } else {
      HeadLength(dec, c);
      SitesWellPlaced(dec, c[dec(c).len..], at + dec(c).len);
      WellPlacedCons(dec, c, at, Sites(dec, c[dec(c).len..], at + dec(c).len));
    }
  }

  lemma NoSites(c: seq<byte>, at: nat)
    ensures WellPlaced([], c, at)
  {
  }

  lemma WellPlacedTail(rest: seq<Site>, c: seq<byte>, at: nat, n: nat)
    requires n <= |c| && WellPlaced(rest, c[n..], at + n)
    ensures WellPlaced(rest, c, at)
    ensures forall k {:trigger rest[k]} :: 0 <= k < |rest| ==> at + n <= rest[k].offset
  {
    forall k | 0 <= k < |rest|
      ensures c[n..][rest[k].offset - (at + n)] == c[rest[k].offset - at]
    {
    }
  }

  lemma WellPlacedOne(x: Site, rest: seq<Site>, c: seq<byte>, at: nat)
    requires WellPlaced(rest, c, at) && WellPlaced([x], c, at)
    requires forall k {:trigger rest[k]} :: 0 <= k < |rest| ==> x.offset + 2 <= rest[k].offset
    ensures WellPlaced([x] + rest, c, at)
  {
    var s := [x] + rest;
    assert [x][0] == x && s[0] == x;
    forall k {:trigger s[k]} | 0 < k < |s|
      ensures s[k] == rest[k - 1]
    {
    }
    forall j, k | 0 <= j < k < |s|
      ensures s[j].offset + 2 <= s[k].offset
    {
      assert s[k] == rest[k - 1];
      if j > 0 {
        assert s[j] == rest[j - 1];
      }
    }
  }

  lemma WellPlacedHead(dec: Decoder, c: seq<byte>, at: nat)
    requires Contract(dec) && c != []
    ensures WellPlaced(HeadSite(dec, c, at), c, at)
    ensures HeadSite(dec, c, at) != [] ==> HeadSite(dec, c, at)[0].offset + 2 <= at + dec(c).len
  {
    HeadLength(dec, c);
    hide Contract;
  }

  lemma WellPlacedCons(dec: Decoder, c: seq<byte>, at: nat, rest: seq<Site>)
    requires Contract(dec) && c != [] && 1 <= dec(c).len <= |c|
    requires WellPlaced(rest, c[dec(c).len..], at + dec(c).len)
    ensures WellPlaced(HeadSite(dec, c, at) + rest, c, at)
  {
    hide Contract, WellPlaced, HeadSite;
    var here := HeadSite(dec, c, at);
    WellPlacedHead(dec, c, at);
    WellPlacedTail(rest, c, at, dec(c).len);
    if here == [] {
      assert here + rest == rest;
    } else {
      assert here == [here[0]];
      WellPlacedOne(here[0], rest, c, at);
    }
  }

  /** Some plain site starts at offset `o`. */
  ghost predicate PlainAt(s: seq<Site>, o: int) {
    exists k :: 0 <= k < |s| && s[k].plain && s[k].offset == o
  }

  function PatchedByte(c: seq<byte>, first: bool, second: bool, i: nat): byte
    requires i < |c|
  {
    if first then 0xff else if second then 0xd0 else c[i]
  }

  lemma {:induction false} PatchAt(dec: Decoder, c: seq<byte>, at: nat, i: nat, o: int)
    requires Contract(dec) && i < |c| && o == at + i
    ensures var s := Sites(dec, c, at);
            PatchCode(dec, c)[i] == PatchedByte(c, PlainAt(s, o), PlainAt(s, o - 1), i)
    decreases |c|
  {
    hide Contract, PlainAt, PatchCode, Sites, PlainHead, PatchedByte;
    PatchUnfold(dec, c, i);
    if i < dec(c).len {
      HeadByte(dec, c, at, i, o);
    } else {
      PatchAt(dec, c[dec(c).len..], at + dec(c).len, i - dec(c).len, o);
      TailByte(dec, c, at, i, o);
    }
  }

  lemma HeadByte(dec: Decoder, c: seq<byte>, at: nat, i: nat, o: int)
    requires Contract(dec) && i < |c| && o == at + i && i < dec(c).len
    ensures var s := Sites(dec, c, at);
            PatchCode(dec, c)[i] == PatchedByte(c, PlainAt(s, o), PlainAt(s, o - 1), i)
  {
    PatchUnfold(dec, c, i);
    PlainAtHead(dec, c, at, o);
    PlainAtHead(dec, c, at, o - 1);
    hide Contract, PlainAt, PatchCode, Sites, PlainHead;
  }

  lemma TailByte(dec: Decoder, c: seq<byte>, at: nat, i: nat, o: int)
    requires Contract(dec) && i < |c| && o == at + i && 1 <= dec(c).len <= i
    requires var n := dec(c).len;
             var s := Sites(dec, c[n..], at + n);
             PatchCode(dec, c[n..])[i - n] == PatchedByte(c[n..], PlainAt(s, o), PlainAt(s, o - 1), i - n)
    ensures var s := Sites(dec, c, at);
            PatchCode(dec, c)[i] == PatchedByte(c, PlainAt(s, o), PlainAt(s, o - 1), i)
  {
    hide Contract, PlainAt, PatchCode, Sites, PlainHead;
    PatchUnfold(dec, c, i);
    PlainAtHead(dec, c, at, o);
    PlainAtHead(dec, c, at, o - 1);
  }

  /** The patched form, byte by byte: ff at the first byte of an unprefixed site, d0 at the second, the original
      everywhere else; in particular a pair 0f 05 inside another instruction stays. */
  lemma PatchPointwise(dec: Decoder, c: seq<byte>, at: nat, i: nat)
    requires Contract(dec) && i < |c|
    ensures var s := Sites(dec, c, at);
            PatchCode(dec, c)[i] == PatchedByte(c, PlainAt(s, at + i), PlainAt(s, at + i - 1), i)
  {
    PatchAt(dec, c, at, i, at + i);
  }

  lemma PatchUnfold(dec: Decoder, c: seq<byte>, i: nat)
    requires Contract(dec) && i < |c|
    ensures var n := dec(c).len;
            && 1 <= n <= |c|
            && PatchCode(dec, c)[i] ==
               if i >= n then PatchCode(dec, c[n..])[i - n]
               else PatchedByte(c, i == 0 && PlainHead(dec, c), i == 1 && PlainHead(dec, c), i)
    ensures PlainHead(dec, c) ==> dec(c).len == 2
  {
  }

  predicate PlainHead(dec: Decoder, c: seq<byte>)
    requires c != []
  {
    IsSystem(dec(c).kind) && c[0] == 0x0f
  }

  /** A plain site at the head of the code, or one of the rest, which start at least a full instruction later. */
  lemma PlainAtHead(dec: Decoder, c: seq<byte>, at: nat, o: int)
    requires Contract(dec) && c != []
    ensures var n := dec(c).len;
            && n <= |c|
            && (o < at + n ==> (PlainAt(Sites(dec, c, at), o) <==> o == at && PlainHead(dec, c)))
            && (o >= at + n ==> (PlainAt(Sites(dec, c, at), o) <==> PlainAt(Sites(dec, c[n..], at + n), o)))
            && (o < at + n ==> !PlainAt(Sites(dec, c[n..], at + n), o))
  {
    HeadLength(dec, c);
    SitesUnfold(dec, c, at);
    hide Contract, PlainAt, WellPlaced, Sites, HeadSite;
    var n := dec(c).len;
    SitesWellPlaced(dec, c[n..], at + n);
    PlainAtLow(Sites(dec, c[n..], at + n), c[n..], at + n, o);
    PlainAtOne(dec, c, at, o);
    PlainAtAppend(HeadSite(dec, c, at), Sites(dec, c[n..], at + n), o);
  }

  lemma PlainAtLow(s: seq<Site>, c: seq<byte>, at: nat, o: int)
    requires WellPlaced(s, c, at)
    ensures o < at ==> !PlainAt(s, o)
  {
  }

  lemma PlainAtOne(dec: Decoder, c: seq<byte>, at: nat, o: int)
    requires c != []
    ensures PlainAt(HeadSite(dec, c, at), o) <==> o == at && PlainHead(dec, c)
  {
    if PlainHead(dec, c) {
      assert HeadSite(dec, c, at)[0].offset == at;
    }
  }

  lemma PlainAtAppend(s: seq<Site>, t: seq<Site>, o: int)
    ensures PlainAt(s + t, o) <==> PlainAt(s, o) || PlainAt(t, o)
  {
    var u := s + t;
    if PlainAt(s, o) {
      var k :| 0 <= k < |s| && s[k].plain && s[k].offset == o;
      assert u[k] == s[k];
    }
    if PlainAt(t, o) {
      var k :| 0 <= k < |t| && t[k].plain && t[k].offset == o;
      assert u[|s| + k] == t[k];
    }
    if PlainAt(u, o) {
      var k :| 0 <= k < |u| && u[k].plain && u[k].offset == o;
      assert u[k] == if k < |s| then s[k] else t[k - |s|];
    }
  }

  // ---------------------------------------------------------------------
  // Boundaries of the sweep
  // ---------------------------------------------------------------------

  /** Offset `o` of the code is an instruction boundary of the sweep. */
  ghost predicate Boundary(dec: Decoder, c: seq<byte>, o: nat)
    requires Contract(dec)
    decreases |c|
  {
    c != [] && (o == 0 || (o >= dec(c).len && Boundary(dec, c[dec(c).len..], o - dec(c).len)))
  }

  /** An instruction on a boundary is an unprefixed system call, or shares no byte with one. */
  lemma {:induction false} BoundaryInsn(dec: Decoder, c: seq<byte>, at: nat, o: nat, x: int)
    requires Contract(dec) && Boundary(dec, c, o)
    ensures o < |c|
    ensures var i := dec(c[o..]);
            var s := Sites(dec, c, at);
            && (IsSystem(i.kind) && c[o] == 0x0f ==> PlainAt(s, at + o))
            && (at + o <= x < at + o + i.len && PlainAt(s, x) ==> x == at + o && IsSystem(i.kind) && c[o] == 0x0f)
    decreases |c|
  {
    HeadLength(dec, c);
    hide Contract, PlainAt, Sites;
    var n := dec(c).len;
    PlainAtHead(dec, c, at, x);
    if o == 0 {
      assert c[0..] == c;
      PlainAtHead(dec, c, at, at);
    } else {
      BoundaryInsn(dec, c[n..], at + n, o - n, x);
      PlainAtHead(dec, c, at, at + o);
      DropDrop(c, n, o);
    }
  }

  lemma OneHead(dec: Decoder, c: seq<byte>, at: nat, x: Site)
    requires c != []
    ensures x in HeadSite(dec, c, at) <==> x == Site(at, dec(c).kind, c[0] == 0x0f) && IsSystem(dec(c).kind)
  {
  }

  lemma SitesFrom(dec: Decoder, c: seq<byte>, at: nat, x: Site)
    requires Contract(dec) && x in Sites(dec, c, at)
    ensures at <= x.offset
  {
    hide Contract, Sites;
    SitesWellPlaced(dec, c, at);
  }

  /** Site `x` is what an instruction on boundary o of the sweep makes it. */
  ghost predicate OnSweep(dec: Decoder, c: seq<byte>, o: nat, x: Site)
    requires Contract(dec)
  {
    && o < |c| && Boundary(dec, c, o)
    && (x.kind == Syscall || x.kind == Sysenter) && x.kind == dec(c[o..]).kind
    && (x.plain <==> c[o] == 0x0f)
  }

  lemma HeadCase(dec: Decoder, c: seq<byte>, at: nat, o: nat, x: Site)
    requires Contract(dec) && c != [] && x.offset == at + o && o < dec(c).len
    ensures x in Sites(dec, c, at) <==> OnSweep(dec, c, o, x)
  {
    SitesUnfold(dec, c, at);
    var n := dec(c).len;
    OneHead(dec, c, at, x);
    if x in Sites(dec, c[n..], at + n) {
      SitesFrom(dec, c[n..], at + n, x);
    }
    hide Contract, Sites, HeadSite;
    assert c[0..] == c;
  }

  lemma TailCase(dec: Decoder, c: seq<byte>, at: nat, o: nat, x: Site)
    requires Contract(dec) && c != [] && x.offset == at + o && o >= dec(c).len
    ensures var n := dec(c).len;
            && 1 <= n <= |c|
            && (x in Sites(dec, c, at) <==> x in Sites(dec, c[n..], at + n))
            && (OnSweep(dec, c, o, x) <==> OnSweep(dec, c[n..], o - n, x))
  {
    SitesUnfold(dec, c, at);
    OneHead(dec, c, at, x);
    hide Contract, Sites, HeadSite;
    if o < |c| {
      DropDrop(c, dec(c).len, o);
    }
  }

  /** The sites are the system call instructions on boundaries of the sweep: each is found, with the kind decoded
      there, and nothing else is. */
  lemma {:induction false} SitesExactly(dec: Decoder, c: seq<byte>, at: nat, o: nat, kind: Kind, plain: bool)
    requires Contract(dec)
    ensures Site(at + o, kind, plain) in Sites(dec, c, at) <==>
              && o < |c| && Boundary(dec, c, o)
              && (kind == Syscall || kind == Sysenter) && kind == dec(c[o..]).kind
              && (plain <==> c[o] == 0x0f)
  {
    SiteOnSweep(dec, c, at, o, Site(at + o, kind, plain));
  }

  lemma {:induction false} SiteOnSweep(dec: Decoder, c: seq<byte>, at: nat, o: nat, x: Site)
    requires Contract(dec) && x.offset == at + o
    ensures x in Sites(dec, c, at) <==> OnSweep(dec, c, o, x)
    decreases |c|
  {
    hide Contract, Sites, OnSweep;
    if c == [] {
      NothingFound(dec, at);
      assert !OnSweep(dec, c, o, x) by { NotOnSweep(dec, c, o, x); }
    } else if o < dec(c).len {
      HeadCase(dec, c, at, o, x);
    } else {
      TailCase(dec, c, at, o, x);
      SiteOnSweep(dec, c[dec(c).len..], at + dec(c).len, o - dec(c).len, x);
    }
  }

  lemma NotOnSweep(dec: Decoder, c: seq<byte>, o: nat, x: Site)
    requires Contract(dec) && o >= |c|
    ensures !OnSweep(dec, c, o, x)
  {
  }

  /** In particular an unprefixed site stands exactly where a boundary instruction is a system call starting with 0f. */
  lemma PlainAtExactly(dec: Decoder, c: seq<byte>, o: int)
    requires Contract(dec)
    ensures PlainAt(Sites(dec, c, 0), o) <==>
              && 0 <= o < |c| && Boundary(dec, c, o)
              && (dec(c[o..]).kind == Syscall || dec(c[o..]).kind == Sysenter) && c[o] == 0x0f
  {
    hide Contract, Sites, Boundary, PlainAt;
    PlainAtMember(Sites(dec, c, 0), o);
    if k: Kind :| o >= 0 && Site(o, k, true) in Sites(dec, c, 0) {
      SitesExactly(dec, c, 0, o, k, true);
    }
    if 0 <= o < |c| {
      SitesExactly(dec, c, 0, o, dec(c[o..]).kind, true);
    }
  }

  lemma PlainAtMember(s: seq<Site>, o: int)
    ensures PlainAt(s, o) <==> o >= 0 && exists k :: Site(o, k, true) in s
  {
    if PlainAt(s, o) {
      var i :| 0 <= i < |s| && s[i].plain && s[i].offset == o;
      assert s[i] == Site(o, s[i].kind, true);
    }
    if k: Kind :| o >= 0 && Site(o, k, true) in s {
      var i :| 0 <= i < |s| && s[i] == Site(o, k, true);
      assert s[i].plain && s[i].offset == o;
    }
  }

  // ---------------------------------------------------------------------
  // A decoder that meets the contract
  // ---------------------------------------------------------------------

  /** The machine's own decoder, seen as the rewriter's. */
  function CpuDecoder(c: seq<byte>): Insn {
    var d := Machine.Decode(c);
    Insn(d.len,
         match d.instr
         case Syscall => Syscall
         case Sysenter => Sysenter
         case CallReg(r) => if r == 0 then CallRax else Other(1)
         case Bad => Other(2)
         case _ => Other(3))
  }

  lemma CpuDecoderMeetsContract()
    ensures Contract(CpuDecoder)
  {
    forall c: seq<byte> | c != []
      ensures 1 <= CpuDecoder(c).len <= |c|
      ensures IsSystem(CpuDecoder(c).kind) ==> CpuDecoder(c).len >= 2
      ensures c[0] == 0x0f && IsSystem(CpuDecoder(c).kind) ==>
                CpuDecoder(c).len == 2 && |c| >= 2 && c[1] == if CpuDecoder(c).kind == Syscall then 0x05 else 0x34
      ensures |c| >= 2 && c[0] == 0xff && c[1] == 0xd0 ==> CpuDecoder(c) == Insn(2, CallRax)
    {
      CpuDecoderShape(c);
    }
    forall c: seq<byte>, d: seq<byte> |
      c != [] && |c| == |d| && CpuDecoder(c).len <= |c| && c[..CpuDecoder(c).len] == d[..CpuDecoder(c).len]
      ensures CpuDecoder(d) == CpuDecoder(c)
    {
      hide Machine.Decode;
      Machine.DecodeLocal(c, d);
    }
  }

  lemma CpuDecoderShape(c: seq<byte>)
    requires c != []
    ensures 1 <= CpuDecoder(c).len <= |c|
    ensures IsSystem(CpuDecoder(c).kind) ==> CpuDecoder(c).len >= 2
    ensures c[0] == 0x0f && IsSystem(CpuDecoder(c).kind) ==>
              CpuDecoder(c).len == 2 && |c| >= 2 && c[1] == if CpuDecoder(c).kind == Syscall then 0x05 else 0x34
    ensures |c| >= 2 && c[0] == 0xff && c[1] == 0xd0 ==> CpuDecoder(c) == Insn(2, CallRax)
  {
    Machine.DecodeLength(c);
  }

  /** The contract leaves room for prefixed forms: a REX prefix makes a longer `syscall` that starts with another
      byte, and the sweep reports it without patching it. */
  lemma PrefixedSyscallExists()
    ensures CpuDecoder([0x48, 0x0f, 0x05]) == Insn(3, Syscall)
    ensures Contract(CpuDecoder) && PatchCode(CpuDecoder, [0x48, 0x0f, 0x05]) == [0x48, 0x0f, 0x05]
  {
    CpuDecoderMeetsContract();
    var c: seq<byte> := [0x48, 0x0f, 0x05];
    assert Machine.Decode(c) == Machine.Decoded(Machine.Syscall, 3);
    assert c[3..] == [] && c[..3] == c;
  }
}

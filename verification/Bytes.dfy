/** Bytes, 64-bit words and byte-addressed memory. */
module Bytes {

  const TWO8: int := 0x100
  const TWO64: int := 0x1_0000_0000_0000_0000

  type byte = x: int | 0 <= x < 0x100
  type u64 = x: int | 0 <= x < 0x1_0000_0000_0000_0000

  datatype Option<+T> = None | Some(value: T)

  function Wrap64(x: int): u64 {
    x % TWO64
  }

  /** A byte as a signed 8-bit displacement or immediate. */
  function SignExt8(x: byte): (r: int)
    ensures -128 <= r < 128 && (r - x) % TWO8 == 0
  {
    if x < 128 then x else x - TWO8
  }

  lemma Assoc<T>(a: seq<T>, b: seq<T>, c: seq<T>)
    ensures (a + b) + c == a + (b + c)
  {
  }

  lemma DropFirst<T>(a: seq<T>, b: seq<T>)
    requires a != []
    ensures (a + b)[0] == a[0] && (a + b)[1..] == a[1..] + b
  {
  }

  lemma DropDrop<T>(a: seq<T>, n: nat, o: nat)
    requires n <= o <= |a|
    ensures a[n..][o - n..] == a[o..]
  {
  }

  // ---------------------------------------------------------------------
  // Little-endian words
  // ---------------------------------------------------------------------

  function Pow256(n: nat): (r: nat)
    ensures r > 0
  {
    if n == 0 then 1 else TWO8 * Pow256(n - 1)
  }

  function LeBytes(v: nat, n: nat): (b: seq<byte>)
    ensures |b| == n
  {
    if n == 0 then [] else [v % TWO8] + LeBytes(v / TWO8, n - 1)
  }

  function LeValue(b: seq<byte>): (v: nat)
    ensures v < Pow256(|b|)
  {
    if b == [] then 0 else b[0] + TWO8 * LeValue(b[1..])
  }

  lemma {:induction false} LeRoundTrip(v: nat, n: nat)
    requires v < Pow256(n)
    ensures LeValue(LeBytes(v, n)) == v
  {
    if n > 0 {
      LeRoundTrip(v / TWO8, n - 1);
      assert LeBytes(v, n)[1..] == LeBytes(v / TWO8, n - 1);
    }
  }

  lemma {:induction false} LeBytesOfValue(b: seq<byte>)
    ensures LeBytes(LeValue(b), |b|) == b
  {
    if b != [] {
      LeBytesOfValue(b[1..]);
      assert LeValue(b) % TWO8 == b[0] && LeValue(b) / TWO8 == LeValue(b[1..]);
    }
  }

  lemma Pow256Of8()
    ensures Pow256(8) == TWO64
  {
    assert Pow256(4) == 0x1_0000_0000;
    assert Pow256(5) == TWO8 * Pow256(4) && Pow256(6) == TWO8 * Pow256(5);
    assert Pow256(7) == TWO8 * Pow256(6) && Pow256(8) == TWO8 * Pow256(7);
  }

  // ---------------------------------------------------------------------
  // Memory: addresses to bytes; a byte never written reads as zero
  // ---------------------------------------------------------------------

  type Mem = map<int, byte>

  function Rd(m: Mem, a: int): byte {
    if a in m then m[a] else 0
  }

  function ReadN(m: Mem, a: int, n: nat): (b: seq<byte>)
    ensures |b| == n
    ensures forall i :: 0 <= i < n ==> b[i] == Rd(m, a + i)
  {
    seq<byte>(n, i => Rd(m, a + i))
  }

  function WriteN(m: Mem, a: int, b: seq<byte>): (r: Mem)
    ensures forall x {:trigger Rd(r, x)} :: Rd(r, x) == if a <= x < a + |b| then b[x - a] else Rd(m, x)
    ensures forall x {:trigger x in r} :: x in r <==> x in m || a <= x < a + |b|
    decreases |b|
  {
    if b == [] then m else WriteN(m[a := b[0]], a + 1, b[1..])
  }

  /** The bytes `b` stand in `m` from address `a` on. */
  ghost predicate BytesAt(m: Mem, a: int, b: seq<byte>) {
    ReadN(m, a, |b|) == b
  }

  lemma BytesAtRead(m: Mem, a: int, b: seq<byte>, i: nat)
    requires BytesAt(m, a, b) && i < |b|
    ensures Rd(m, a + i) == b[i]
  {
    assert ReadN(m, a, |b|)[i] == b[i];
  }

  function Read64(m: Mem, a: int): u64 {
    Pow256Of8();
    LeValue(ReadN(m, a, 8))
  }

  function Write64(m: Mem, a: int, v: u64): (r: Mem)
    ensures forall x {:trigger Rd(r, x)} :: !(a <= x < a + 8) ==> Rd(r, x) == Rd(m, x)
    ensures Read64(r, a) == v
  {
    Pow256Of8();
    LeRoundTrip(v, 8);
    var r := WriteN(m, a, LeBytes(v, 8));
    assert ReadN(r, a, 8) == LeBytes(v, 8);
    r
  }

  /** A word depends on its eight bytes only. */
  lemma Read64Same(m: Mem, n: Mem, a: int)
    requires forall x :: a <= x < a + 8 ==> Rd(m, x) == Rd(n, x)
    ensures Read64(m, a) == Read64(n, a)
  {
    assert ReadN(m, a, 8) == ReadN(n, a, 8);
  }
}

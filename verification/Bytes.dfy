/** What an operation that may not answer gives back, and a push that may not fit. */
module Outcomes {
  datatype Option<+T> = None | Some(value: T)
  datatype Outcome<+E> = Ok | Err(error: E)
  datatype Result<+T, +E> = Success(value: T) | Failure(error: E)

  /** A push onto a queue of capacity `cap` that drops the newest when full. */
  function Offer<T>(queue: seq<T>, cap: nat, x: T): seq<T> {
    if |queue| < cap then queue + [x] else queue
  }
}

/** Machine words as ranges of `int`, little-endian encodings, and the bitwise
    `and` that NOR flash applies when it is programmed. */
module Bytes {
  type byte = x: int | 0 <= x < 0x100
  type u16 = x: int | 0 <= x < 0x1_0000
  type u32 = x: int | 0 <= x < 0x1_0000_0000

  const U32_LIMIT := 0x1_0000_0000
  const ERASED: byte := 0xFF

  function Fill(n: nat, v: byte): seq<byte> {
    seq(n, _ => v)
  }

  /** `s` with `data` stored over the bytes from `at`. */
  function Splice(s: seq<byte>, at: nat, data: seq<byte>): (r: seq<byte>)
    requires at + |data| <= |s|
    ensures |r| == |s|
    ensures forall i :: 0 <= i < |s| ==> r[i] == if at <= i < at + |data| then data[i - at] else s[i]
  {
    seq(|s|, i requires 0 <= i < |s| => if at <= i < at + |data| then data[i - at] else s[i])
  }

  // ---------- little-endian words ----------

  function Le16(v: u16): seq<byte> {
    [v % 0x100, v / 0x100]
  }

  function Le32(v: u32): seq<byte> {
    [v % 0x100, v / 0x100 % 0x100, v / 0x1_0000 % 0x100, v / 0x100_0000]
  }

  function FromLe16(b: seq<byte>, at: nat): u16
    requires at + 2 <= |b|
  {
    b[at] as int + 0x100 * b[at + 1] as int
  }

  function FromLe32(b: seq<byte>, at: nat): u32
    requires at + 4 <= |b|
  {
    b[at] as int + 0x100 * b[at + 1] as int + 0x1_0000 * b[at + 2] as int + 0x100_0000 * b[at + 3] as int
  }

  // ---------- bitwise and ----------

  /** The bitwise `and` of the low `n` bits. */
  function AndBits(a: nat, b: nat, n: nat): (r: nat)
    ensures r <= a && r <= b
  {
    if n == 0 then 0
    else (if a % 2 == 1 && b % 2 == 1 then 1 else 0) + 2 * AndBits(a / 2, b / 2, n - 1)
  }

  function And(a: byte, b: byte): byte {
    AndBits(a, b, 8)
  }

  /** Every bit set in `a` is set in `b`. */
  predicate Below(a: byte, b: byte) {
    And(a, b) == a
  }

  function Pow2(n: nat): (r: nat)
    ensures r >= 1
  {
    if n == 0 then 1 else 2 * Pow2(n - 1)
  }

  lemma {:induction false} AndBitsOnes(a: nat, n: nat)
    requires a < Pow2(n)
    ensures AndBits(a, Pow2(n) - 1, n) == a
  {
    if n > 0 {
      AndBitsOnes(a / 2, n - 1);
      assert (Pow2(n) - 1) / 2 == Pow2(n - 1) - 1;
    }
  }

  lemma {:induction false} AndBitsSelf(a: nat, n: nat)
    requires a < Pow2(n)
    ensures AndBits(a, a, n) == a
  {
    if n > 0 {
      AndBitsSelf(a / 2, n - 1);
    }
  }

  lemma {:induction false} AndBitsCommutes(a: nat, b: nat, n: nat)
    ensures AndBits(a, b, n) == AndBits(b, a, n)
  {
    if n > 0 {
      AndBitsCommutes(a / 2, b / 2, n - 1);
    }
  }

  lemma {:induction false} AndBitsAssociates(a: nat, b: nat, c: nat, n: nat)
    ensures AndBits(AndBits(a, b, n), c, n) == AndBits(a, AndBits(b, c, n), n)
  {
    if n > 0 {
      AndBitsAssociates(a / 2, b / 2, c / 2, n - 1);
      var ab, bc := AndBits(a, b, n), AndBits(b, c, n);
      assert ab / 2 == AndBits(a / 2, b / 2, n - 1);
      assert bc / 2 == AndBits(b / 2, c / 2, n - 1);
    }
  }

  /** Bit `k` of `x`. */
  predicate BitSet(x: nat, k: nat) {
    if k == 0 then x % 2 == 1 else BitSet(x / 2, k - 1)
  }

  lemma {:induction false} AndBitsAt(a: nat, b: nat, n: nat, k: nat)
    requires k < n
    ensures BitSet(AndBits(a, b, n), k) <==> BitSet(a, k) && BitSet(b, k)
    decreases k
  {
    assert AndBits(a, b, n) / 2 == AndBits(a / 2, b / 2, n - 1);
    if k > 0 {
      AndBitsAt(a / 2, b / 2, n - 1, k - 1);
    }
  }

  /** A bit of the `and` is set exactly when it is set in both. */
  lemma AndIsBitwise(a: byte, b: byte, k: nat)
    requires k < 8
    ensures BitSet(And(a, b), k) <==> BitSet(a, k) && BitSet(b, k)
  {
    AndBitsAt(a, b, 8, k);
  }

  /** Numbers of `n` bits with the same bits are the same. */
  lemma {:induction false} BitsDecide(a: nat, b: nat, n: nat)
    requires a < Pow2(n) && b < Pow2(n) && forall k :: 0 <= k < n ==> (BitSet(a, k) <==> BitSet(b, k))
    ensures a == b
  {
    if n > 0 {
      assert BitSet(a, 0) <==> BitSet(b, 0);
      forall k | 0 <= k < n - 1
        ensures BitSet(a / 2, k) <==> BitSet(b / 2, k)
      {
        assert BitSet(a, k + 1) <==> BitSet(b, k + 1);
      }
      BitsDecide(a / 2, b / 2, n - 1);
    }
  }

  predicate BitsAmong(a: byte, b: byte) {
    forall k :: 0 <= k < 8 && BitSet(a, k) ==> BitSet(b, k)
  }

  /** One byte is below another exactly when its bits are among the other's. */
  lemma BelowIsSubset(a: byte, b: byte)
    ensures Below(a, b) <==> BitsAmong(a, b)
  {
    if Below(a, b) {
      forall k | 0 <= k < 8 && BitSet(a, k)
        ensures BitSet(b, k)
      {
        AndIsBitwise(a, b, k);
      }
    } else if BitsAmong(a, b) {
      forall k | 0 <= k < 8
        ensures BitSet(And(a, b), k) <==> BitSet(a, k)
      {
        AndIsBitwise(a, b, k);
      }
      assert Pow2(8) == 0x100;
      BitsDecide(And(a, b), a, 8);
    }
  }

  lemma AndErased(a: byte)
    ensures And(a, ERASED) == a && And(ERASED, a) == a
  {
    assert Pow2(8) == 0x100;
    AndBitsOnes(a, 8);
    AndBitsCommutes(a, ERASED, 8);
  }

  lemma AndSelf(a: byte)
    ensures And(a, a) == a
  {
    assert Pow2(8) == 0x100;
    AndBitsSelf(a, 8);
  }

  lemma AndIsBelow(a: byte, b: byte)
    ensures Below(And(a, b), a) && Below(And(a, b), b)
  {
    AndSelf(a);
    AndSelf(b);
    AndBitsCommutes(a, b, 8);
    AndBitsAssociates(a, b, b, 8);
    AndBitsAssociates(b, a, a, 8);
  }

  lemma BelowTransitive(a: byte, b: byte, c: byte)
    requires Below(a, b) && Below(b, c)
    ensures Below(a, c)
  {
    AndBitsAssociates(a, b, c, 8);
  }

  lemma BelowAntisymmetric(a: byte, b: byte)
    requires Below(a, b) && Below(b, a)
    ensures a == b
  {
    AndBitsCommutes(a, b, 8);
  }
}

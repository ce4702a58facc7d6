/** Which shard owns a key, and the bit-reversed order SCAN walks the keys in. */
module Routing {
  import opened ByteStrings

  /** Any 64-bit hash of keys; the source uses FNV-1a. */
  type Hash = Bytes -> nat

  ghost predicate Is64Bit(hash: Hash) {
    forall k :: hash(k) < Pow2(64)
  }

  function Pow2(n: nat): (p: nat)
    ensures p > 0
  {
    if n == 0 then 1 else 2 * Pow2(n - 1)
  }

  /** `x >> n`. */
  function Shr(x: nat, n: nat): nat {
    if n == 0 then x else Shr(x / 2, n - 1)
  }

  /** `x & (2^n - 1)`. */
  function Low(x: nat, n: nat): nat {
    if n == 0 then 0 else x % 2 + 2 * Low(x / 2, n - 1)
  }

  /** The low `n` bits of `x` in reverse; `reverse_bits` for n = 64. */
  function Rev(x: nat, n: nat): nat {
    if n == 0 then 0 else (if x % 2 == 1 then Pow2(n - 1) else 0) + Rev(x / 2, n - 1)
  }

  /** `fnv1a(key) & (num_shards - 1)` for `2^bits` shards. */
  function ShardIdx(hash: Hash, k: Bytes, bits: nat): nat {
    Low(hash(k), bits)
  }

  /** The hash, lifted over the "scan complete" sentinel without touching its low 32 bits. */
  function Token(h: nat): nat {
    if h < Pow2(32) then h + Pow2(32) else h
  }

  /** `scan_order_key`. It does not mention the number of shards. */
  function OrderKey(hash: Hash, k: Bytes): nat {
    Rev(Token(hash(k)), 64)
  }

  /** The shard visited at `step`. */
  function ShardForStep(step: nat, bits: nat): nat
    requires bits <= 64
  {
    Shr(Rev(step, 64), 64 - bits)
  }

  /** The step a cursor or order key belongs to: its top `bits` bits. */
  function StepOf(at: nat, bits: nat): nat
    requires bits <= 64
  {
    Shr(at, 64 - bits)
  }

  lemma {:induction false} LowBound(x: nat, n: nat)
    ensures Low(x, n) < Pow2(n) && (x < Pow2(n) ==> Low(x, n) == x)
  {
    if n > 0 { LowBound(x / 2, n - 1); }
  }

  lemma {:induction false} RevBound(x: nat, n: nat)
    ensures Rev(x, n) < Pow2(n)
  {
    if n > 0 { RevBound(x / 2, n - 1); }
  }

  lemma {:induction false} ShrBound(x: nat, a: nat, b: nat)
    requires x < Pow2(a + b)
    ensures Shr(x, b) < Pow2(a)
  {
    if b > 0 { ShrBound(x / 2, a, b - 1); }
  }

  lemma {:induction false} ShrMonotone(x: nat, y: nat, n: nat)
    requires x <= y
    ensures Shr(x, n) <= Shr(y, n)
  {
    if n > 0 { ShrMonotone(x / 2, y / 2, n - 1); }
  }

  /** The reversal seen from its other end. */
  lemma {:induction false} RevSnoc(x: nat, n: nat)
    ensures Rev(x, n + 1) == 2 * Rev(x, n) + Shr(x, n) % 2
  {
    if n > 0 { RevSnoc(x / 2, n - 1); }
  }

  lemma {:induction false} LowSnoc(x: nat, n: nat)
    ensures Low(x, n + 1) == Low(x, n) + (if Shr(x, n) % 2 == 1 then Pow2(n) else 0)
  {
    if n > 0 { LowSnoc(x / 2, n - 1); }
  }

  /** The top bits of a reversal are the reversal of the low bits. */
  lemma {:induction false} ShrRev(x: nat, a: nat, b: nat)
    ensures Shr(Rev(x, a + b), b) == Rev(x, a)
  {
    if b > 0 {
      RevSnoc(x, a + b - 1);
      ShrRev(x, a, b - 1);
    }
  }

  lemma {:induction false} RevOfLow(x: nat, n: nat)
    ensures Rev(Low(x, n), n) == Rev(x, n)
  {
    if n > 0 { RevOfLow(x / 2, n - 1); }
  }

  /** Reversing twice gives the low bits back. */
  lemma {:induction false} RevTwice(x: nat, n: nat)
    ensures Rev(Rev(x, n), n) == Low(x, n)
  {
    if n > 0 {
      RevTwice(x, n - 1);
      RevSnoc(x, n - 1);
      LowSnoc(x, n - 1);
    }
  }

  lemma {:induction false} RevPositive(x: nat, n: nat)
    requires 0 < x < Pow2(n)
    ensures Rev(x, n) > 0
  {
    if x % 2 == 0 { RevPositive(x / 2, n - 1); }
  }

  lemma HalfOfSum(x: nat, y: nat)
    ensures (x + 2 * y) / 2 == x / 2 + y && (x + 2 * y) % 2 == x % 2
  {
  }

  /** Adding a high power of two leaves the low bits alone. */
  lemma {:induction false} LowKept(x: nat, m: nat, n: nat)
    requires n <= m
    ensures Low(x + Pow2(m), n) == Low(x, n)
  {
    if n > 0 {
      HalfOfSum(x, Pow2(m - 1));
      LowKept(x / 2, m - 1, n - 1);
    }
  }

  lemma {:induction false} Pow2Grows(a: nat, b: nat)
    requires a < b
    ensures 2 * Pow2(a) <= Pow2(b)
  {
    if a + 1 < b { Pow2Grows(a, b - 1); }
  }

  /** Order keys are nonzero 64-bit numbers. */
  lemma OrderKeyRange(hash: Hash, k: Bytes)
    requires Is64Bit(hash)
    ensures 0 < OrderKey(hash, k) < Pow2(64)
  {
    Pow2Grows(32, 64);
    RevBound(Token(hash(k)), 64);
    RevPositive(Token(hash(k)), 64);
  }

  /** The top bits of an order key are the bit-reversed shard index, whatever the shard count. */
  lemma OrderKeyStep(hash: Hash, k: Bytes, bits: nat)
    requires bits <= 32
    ensures StepOf(OrderKey(hash, k), bits) == Rev(ShardIdx(hash, k, bits), bits) < Pow2(bits)
  {
    var h, t := hash(k), Token(hash(k));
    ShrRev(t, bits, 64 - bits);
    LowKept(h, 32, bits);
    RevOfLow(h, bits);
    RevOfLow(t, bits);
    RevBound(h, bits);
  }

  /** Step `step` of the walk visits exactly the shard whose keys carry that step. */
  lemma StepVisitsShard(hash: Hash, k: Bytes, bits: nat, step: nat)
    requires bits <= 32 && step < Pow2(bits)
    ensures ShardForStep(step, bits) == Rev(step, bits) < Pow2(bits)
    ensures StepOf(OrderKey(hash, k), bits) == step <==> ShardIdx(hash, k, bits) == ShardForStep(step, bits)
  {
    OrderKeyStep(hash, k, bits);
    ShrRev(step, bits, 64 - bits);
    RevBound(step, bits);
    RevTwice(step, bits);
    LowBound(step, bits);
    RevTwice(ShardIdx(hash, k, bits), bits);
    LowBound(hash(k), bits);
    LowBound(ShardIdx(hash, k, bits), bits);
  }
}

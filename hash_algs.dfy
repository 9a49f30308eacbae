/**
 * `HashAlgs`: the two hash functions a `WordHash` can use. Each keeps a Java
 * `int` and a Java `long` hash; `init` sets them and `append(c)` folds one
 * character code into both. Java values are integers in the type's range,
 * and every operation that can leave the range wraps around explicitly
 * (`Wrap32`, `Wrap64`), as Java's two's-complement arithmetic does.
 */
module HashAlgs {
  /** A Java `int` value. */
  type JInt = x: int | -0x8000_0000 <= x < 0x8000_0000

  /** A Java `long` value. */
  type JLong = x: int | -0x8000_0000_0000_0000 <= x < 0x8000_0000_0000_0000

  const TWO32 := 0x1_0000_0000
  const TWO64 := 0x1_0000_0000_0000_0000

  /** The `int` with the same low 32 bits as `v`: the result of `int` arithmetic that overflows. */
  function Wrap32(v: int): (r: JInt)
    ensures (v - r) % TWO32 == 0
    ensures -0x8000_0000 <= v < 0x8000_0000 ==> r == v
  {
    (v + 0x8000_0000) % TWO32 - 0x8000_0000
  }

  /** Values that differ by a multiple of 2^32 wrap to the same `int`. */
  lemma WrapShift(v: int, k: int)
    ensures Wrap32(v + k * TWO32) == Wrap32(v)
  {
    var q := (v + 0x8000_0000) / TWO32;
    var m := (v + 0x8000_0000) % TWO32;
    assert v + 0x8000_0000 + k * TWO32 == (q + k) * TWO32 + m;
  }

  /** Wrapping part of a sum first changes nothing: `int` addition is addition modulo 2^32. */
  lemma WrapAdd(a: int, b: int)
    ensures Wrap32(Wrap32(a) + b) == Wrap32(a + b)
  {
    var k := (a + 0x8000_0000) / TWO32;
    assert a == Wrap32(a) + k * TWO32;
    WrapShift(Wrap32(a) + b, k);
  }

  /** The `long` with the same low 64 bits as `v`. */
  function Wrap64(v: int): (r: JLong)
    ensures (v - r) % TWO64 == 0
    ensures -0x8000_0000_0000_0000 <= v < 0x8000_0000_0000_0000 ==> r == v
  {
    (v + 0x8000_0000_0000_0000) % TWO64 - 0x8000_0000_0000_0000
  }

  /** The exclusive or of the low `k` bits of `a` and `b`, bit by bit from the lowest. */
  function XorBits(a: nat, b: nat, k: nat): nat
    decreases k
  {
    if k == 0 then 0
    else 2 * XorBits(a / 2, b / 2, k - 1) + (if a % 2 == b % 2 then 0 else 1)
  }

  /** Java's `a ^ b` on `int`s: the exclusive or of their two's-complement bits. */
  function Xor32(a: JInt, b: JInt): JInt {
    Wrap32(XorBits(a % TWO32, b % TWO32, 32))
  }

  /** Java's `a ^ b` on `long`s; an `int` operand is sign-extended, which keeps its value. */
  function Xor64(a: JLong, b: JLong): JLong {
    Wrap64(XorBits(a % TWO64, b % TWO64, 64))
  }

  /** Java's `x % p` for `p > 0`: the remainder takes the sign of `x`. */
  function JavaRem(x: int, p: int): (r: int)
    requires p > 0
    ensures -p < r < p
    ensures x >= 0 ==> r == x % p
    ensures x < 0 ==> r <= 0
  {
    if x >= 0 then x % p else -((-x) % p)
  }

  /** The two hashes a `WordHash` holds. */
  datatype Hashes = Hashes(hash32: JInt, hash64: JLong)

  /** `BigInteger.probablePrime(31, ...)` and `probablePrime(63, ...)`: primes of exactly that many bits. */
  type Prime32 = p: int | 0x4000_0000 <= p < 0x8000_0000 witness 0x7fff_ffff
  type Prime64 = p: int | 0x4000_0000_0000_0000 <= p < 0x8000_0000_0000_0000 witness 0x7fff_ffff_ffff_ffff

  /**
   * The hash function in use. `Modular` is Horner's method with radix 26
   * modulo primes drawn at class load, here parameters; `FNV1a` is FNV-1a.
   */
  datatype HashFn = Modular(prime32: Prime32, prime64: Prime64) | FNV1a

  const RADIX := 26

  /** `FNV1a`'s constants, with the names and values of the source (hexadecimal literals above the signed range are negative in Java). */
  const OFFSET32: JInt := 0x811c9dc5 - TWO32
  const FNV_PRIME32: JInt := 16777619
  const FNV_PRIME64: JLong := 0xcbf29ce484222325 - TWO64
  const OFFSET64: JLong := 1099511628211

  /**
   * `init(WH)`. For `FNV1a` the 32-bit start is the offset basis of
   * section 2 of draft-eastlake-fnv; the 64-bit start is 1099511628211,
   * which is that standard's 64-bit prime, while `PRIME64` holds its 64-bit
   * offset basis: the two 64-bit constants are swapped.
   */
  function Init(fn: HashFn): (h: Hashes)
    ensures fn.Modular? ==> h == Hashes(0, 0)
    ensures fn.FNV1a? ==> h.hash32 == Wrap32(0x811c9dc5) && h.hash64 == 1099511628211
  {
    match fn
    case Modular(_, _) => Hashes(0, 0)
    case FNV1a => Hashes(OFFSET32, OFFSET64)
  }

  /**
   * `Modular.append` on the `int` hash: `(RADIX * hash32 + c) % PRIME32` in
   * wrapping `int` arithmetic. The hash stays strictly between `-P` and `P`;
   * while `RADIX * hash + c` does not overflow it is Horner's step modulo `P`.
   */
  function ModularStep32(p: Prime32, h: JInt, c: JInt): (r: JInt)
    ensures -(p as int) < r < p
    ensures 0 <= RADIX * h + c < 0x8000_0000 ==> r == (RADIX * h + c) % p
  {
    JavaRem(Wrap32(RADIX * h + c), p)
  }

  /** `Modular.append` on the `long` hash: `(RADIX * hash64 + c) % PRIME64` in wrapping `long` arithmetic, with the same bounds. */
  function ModularStep64(p: Prime64, h: JLong, c: JInt): (r: JLong)
    ensures -(p as int) < r < p
    ensures 0 <= RADIX * h + c < 0x8000_0000_0000_0000 ==> r == (RADIX * h + c) % p
  {
    JavaRem(Wrap64(RADIX * h + c), p)
  }

  /** `FNV1a.append` on the `int` hash: XOR the code in, then multiply by the 32-bit FNV prime. */
  function FnvStep32(h: JInt, c: JInt): JInt {
    Wrap32(Xor32(h, c) * FNV_PRIME32)
  }

  /** `FNV1a.append` on the `long` hash: XOR the code in, then multiply by `PRIME64`. */
  function FnvStep64(h: JLong, c: JInt): JLong {
    Wrap64(Xor64(h, c) * FNV_PRIME64)
  }

  /** `append(c, WH)`: the new hashes depend on the old hashes and `c` alone. */
  function Append(fn: HashFn, h: Hashes, c: JInt): Hashes {
    match fn
    case Modular(p32, p64) => Hashes(ModularStep32(p32, h.hash32, c), ModularStep64(p64, h.hash64, c))
    case FNV1a => Hashes(FnvStep32(h.hash32, c), FnvStep64(h.hash64, c))
  }

  /** The hashes after appending the codes of `cs` one by one, starting from `h`: a left fold of `Append`. */
  function Fold(fn: HashFn, h: Hashes, cs: seq<JInt>): Hashes
    decreases |cs|
  {
    if cs == [] then h else Fold(fn, Append(fn, h, cs[0]), cs[1..])
  }

  /** Appending one more code to a folded sequence is one more `append`. */
  lemma {:induction false} FoldSnoc(fn: HashFn, h: Hashes, cs: seq<JInt>, c: JInt)
    ensures Fold(fn, h, cs + [c]) == Append(fn, Fold(fn, h, cs), c)
    decreases |cs|
  {
    if cs == [] {
      assert Fold(fn, h, [c]) == Fold(fn, Append(fn, h, c), []);
    } else {
      assert (cs + [c])[1..] == cs[1..] + [c];
      FoldSnoc(fn, Append(fn, h, cs[0]), cs[1..], c);
    }
  }

  /** Hashing a word in two pieces: fold the second piece over the hashes of the first. */
  lemma {:induction false} FoldConcat(fn: HashFn, h: Hashes, xs: seq<JInt>, ys: seq<JInt>)
    ensures Fold(fn, h, xs + ys) == Fold(fn, Fold(fn, h, xs), ys)
    decreases |xs|
  {
    if xs == [] {
      assert xs + ys == ys;
    } else {
      assert (xs + ys)[1..] == xs[1..] + ys;
      FoldConcat(fn, Append(fn, h, xs[0]), xs[1..], ys);
    }
  }

  /**
   * `26 * hash32` does overflow for hashes the prime allows: with `P =
   * 2^31 - 1` and `hash32 = 10^8`, the `int` step gives a negative hash
   * where Horner's method modulo `P` gives 452516353.
   */
  lemma ModularStep32Wraps()
    ensures ModularStep32(0x7fff_ffff, 100_000_000, 0) == -1_694_967_296
    ensures (RADIX * 100_000_000) % 0x7fff_ffff == 452_516_353
  {
  }
}

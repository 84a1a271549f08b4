/**
  Hashing and probing for the open-addressing table in hashtable.cpp.

  A key is a C++ `std::string`, that is, a sequence of bytes. The model keeps
  Dafny's `char` for readability but restricts it to the 256 byte values.
  Each byte is read as a *signed* `char` (the x86 and x86-64 convention), so
  bytes 128..255 contribute a negative value that the conversion to `size_t`
  wraps around modulo 2^64.
 */
module Hashing {

  /** One byte of a key. */
  type ByteChar = c: char | c as int < 256 witness 'a'

  /** A key of the table: the bytes of a `std::string`. */
  type Key = seq<ByteChar>

  /** `size_t` arithmetic wraps modulo 2^64. */
  const WordModulus: nat := 0x1_0000_0000_0000_0000

  /** The multiplier of the polynomial rolling hash. */
  const Multiplier: nat := 17

  /** The value of a byte read as a signed `char`. */
  function CharCode(c: ByteChar): (r: int)
    ensures -128 <= r < 128
    ensures r % 256 == c as int
  {
    if c as int < 128 then c as int else c as int - 256
  }

  /** One step of Horner's rule, in 64-bit unsigned arithmetic. */
  function HashStep(h: nat, c: ByteChar): (r: nat)
    ensures r < WordModulus
  {
    (h * Multiplier + CharCode(c)) % WordModulus
  }

  /** The 64-bit accumulator after the hash loop has consumed all of `key`. */
  function Horner(key: Key): (h: nat)
    ensures h < WordModulus
  {
    if |key| == 0 then 0 else HashStep(Horner(key[..|key| - 1]), key[|key| - 1])
  }

  /** The hash loop consumes the key left to right. */
  lemma HornerAppend(key: Key, c: ByteChar)
    ensures Horner(key + [c]) == HashStep(Horner(key), c)
  {
    assert (key + [c])[..|key|] == key;
  }

  /** The exact (unbounded) polynomial sum of c_i * 17^(n-1-i). */
  function Poly(key: Key): int
  {
    if |key| == 0 then 0 else Poly(key[..|key| - 1]) * Multiplier + CharCode(key[|key| - 1])
  }

  /** The base index of `key` in a table of `capacity` slots. */
  function Hash(key: Key, capacity: nat): (r: nat)
    requires capacity > 0
    ensures r < capacity
  {
    Horner(key) % capacity
  }

  /** The slot visited by the `i`-th attempt of quadratic probing from `h`. */
  function Probe(h: nat, i: nat, capacity: nat): (r: nat)
    requires capacity > 0
    ensures r < capacity
  {
    (h + i * i) % capacity
  }

  /** A product with the modulus as a factor, lying strictly between -n and n, is zero. */
  lemma SmallMultipleIsZero(d: int, n: int)
    requires n > 0
    requires -n < d * n < n
    ensures d == 0
  {
  }

  /** Euclidean remainders are unique. */
  lemma ModUnique(a: int, q: int, r: int, n: nat)
    requires n > 0
    requires 0 <= r < n
    requires a == q * n + r
    ensures a % n == r
  {
    var q', r' := a / n, a % n;
    assert a == q' * n + r';
    assert (q - q') * n == r' - r;
    SmallMultipleIsZero(q - q', n);
  }

  /** Adding a multiple of the modulus does not change a remainder. */
  lemma ModAddMultiple(x: int, m: int, n: nat)
    requires n > 0
    ensures (x + m * n) % n == x % n
  {
    var q, r := x / n, x % n;
    assert x == q * n + r;
    assert x + m * n == (q + m) * n + r;
    ModUnique(x + m * n, q + m, r, n);
  }

  /** Reducing one factor first does not change a product-plus-offset remainder. */
  lemma ModMulAdd(a: int, b: nat, c: int, n: nat)
    requires n > 0
    ensures ((a % n) * b + c) % n == (a * b + c) % n
  {
    var q := a / n;
    assert a == q * n + a % n;
    assert a * b + c == ((a % n) * b + c) + (q * b) * n;
    ModAddMultiple((a % n) * b + c, q * b, n);
  }

  /** The wrapping hash loop computes the exact polynomial reduced modulo 2^64. */
  lemma {:induction false} HornerIsPolynomial(key: Key)
    ensures Horner(key) == Poly(key) % WordModulus
    decreases |key|
  {
    if |key| > 0 {
      var init := key[..|key| - 1];
      HornerIsPolynomial(init);
      ModMulAdd(Poly(init), Multiplier, CharCode(key[|key| - 1]), WordModulus);
    }
  }

  /** The base index is the exact polynomial reduced modulo 2^64 and then modulo the capacity. */
  lemma HashIsPolynomial(key: Key, capacity: nat)
    requires capacity > 0
    ensures Hash(key, capacity) == Poly(key) % WordModulus % capacity
  {
    HornerIsPolynomial(key);
  }

  /** The probe sequence repeats with period `capacity`, so `capacity` attempts see every slot it can reach. */
  lemma ProbePeriodic(h: nat, i: nat, k: nat, capacity: nat)
    requires capacity > 0
    ensures Probe(h, i + k * capacity, capacity) == Probe(h, i, capacity)
  {
    var j := i + k * capacity;
    assert j * j == i * i + (2 * i * k + k * k * capacity) * capacity;
    ModAddMultiple(h + i * i, 2 * i * k + k * k * capacity, capacity);
  }

  /**
    With the default capacity 10, quadratic probing from base `h` reaches only
    the six slots h, h+1, h+4, h+5, h+6 and h+9 (mod 10): the squares modulo 10
    are 0, 1, 4, 5, 6 and 9. Slots h+2, h+3, h+7 and h+8 are never probed.
   */
  lemma DefaultCapacityProbeGap(h: nat, i: nat)
    ensures var r := Probe(h, i, 10);
            r == h % 10 || r == (h + 1) % 10 || r == (h + 4) % 10
            || r == (h + 5) % 10 || r == (h + 6) % 10 || r == (h + 9) % 10
  {
    var q, d := i / 10, i % 10;
    assert i == d + q * 10;
    ProbePeriodic(h, d, q, 10);
    var sq := d * d;
    assert sq in {0, 1, 4, 9, 16, 25, 36, 49, 64, 81} by {
      assert d in {0, 1, 2, 3, 4, 5, 6, 7, 8, 9};
    }
    ModAddMultiple(h + sq % 10, sq / 10, 10);
    assert Probe(h, i, 10) == (h + sq % 10) % 10;
  }

  /**
    With 16 slots, quadratic probing from base `h` reaches only the four
    slots h, h+1, h+4 and h+9 (mod 16): the squares modulo 16 are 0, 1, 4 and 9.
   */
  lemma SixteenSlotProbeGap(h: nat, i: nat)
    ensures var r := Probe(h, i, 16);
            r == h % 16 || r == (h + 1) % 16 || r == (h + 4) % 16 || r == (h + 9) % 16
  {
    var q, d := i / 16, i % 16;
    assert i == d + q * 16;
    ProbePeriodic(h, d, q, 16);
    var sq := d * d;
    assert sq % 16 in {0, 1, 4, 9} by {
      assert d in {0, 1, 2, 3, 4, 5, 6, 7, 8, 9, 10, 11, 12, 13, 14, 15};
    }
    ModAddMultiple(h + sq % 16, sq / 16, 16);
    assert Probe(h, i, 16) == (h + sq % 16) % 16;
  }

  /** A one-byte key below 128 hashes to its byte value. */
  lemma OneByteHash(c: ByteChar, capacity: nat)
    requires capacity > 0 && c as int < 128
    ensures Hash([c], capacity) == c as int % capacity
  {
    assert [c][..0] == [];
    assert Horner([c]) == HashStep(0, c);
    assert CharCode(c) == c as int;
  }
}

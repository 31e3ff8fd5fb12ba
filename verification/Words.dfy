/** Fixed-width words, little-endian decoding and the guest address arithmetic
    shared by every layer (src/elf/internal/elf32_bytes.h). */
module Words {

  const ADDRESS_SPACE: int := 0x1_0000_0000

  type u8 = x: int | 0 <= x < 0x100
  type u16 = x: int | 0 <= x < 0x1_0000
  type u32 = x: int | 0 <= x < 0x1_0000_0000

  datatype Option<+T> = None | Some(value: T)

  datatype Result<+T, +E> = Ok(value: T) | Err(error: E) {
    predicate IsFailure() { Err? }

    function PropagateFailure<U>(): Result<U, E>
      requires Err?
    {
      Err(error)
    }

    function Extract(): T
      requires Ok?
    {
      value
    }
  }

  function Min(a: int, b: int): int { if a <= b then a else b }

  function Max(a: int, b: int): int { if a <= b then b else a }

  function DecodeU16(b: seq<u8>, at: nat): u16
    requires at + 2 <= |b|
  {
    b[at] as int + 0x100 * b[at + 1] as int
  }

  function DecodeU32(b: seq<u8>, at: nat): u32
    requires at + 4 <= |b|
  {
    b[at] as int + 0x100 * b[at + 1] as int + 0x1_0000 * b[at + 2] as int + 0x100_0000 * b[at + 3] as int
  }

  function EncodeU32(w: u32): (b: seq<u8>)
    ensures |b| == 4 && DecodeU32(b, 0) == w
  {
    [w % 0x100, w / 0x100 % 0x100, w / 0x1_0000 % 0x100, w / 0x100_0000]
  }

  /** A word is determined by its bytes and the bytes by the word, so comparing a
      reread word compares all four bytes. */
  lemma {:induction false} EncodeDecodeU32(b: seq<u8>)
    requires |b| == 4
    ensures EncodeU32(DecodeU32(b, 0)) == b
  {
    var w := DecodeU32(b, 0);
    var m2 := b[2] as int + 0x100 * b[3] as int;
    var m1 := b[1] as int + 0x100 * m2;
    assert w == b[0] as int + 0x100 * m1;
    LowByte(b[0], m1);
    LowByte(b[1], m2);
    LowByte(b[2], b[3]);
    assert w / 0x1_0000 == w / 0x100 / 0x100 && w / 0x100_0000 == w / 0x100 / 0x100 / 0x100;
  }

  lemma {:induction false} LowByte(b: u8, m: int)
    ensures (b as int + 0x100 * m) % 0x100 == b && (b as int + 0x100 * m) / 0x100 == m
  {
  }

  /** checked_add_guest_address: the sum, unless it leaves the 32-bit address space. */
  function CheckedAdd(base: u32, offset: nat): Option<u32> {
    if base + offset < ADDRESS_SPACE then Some(base + offset) else None
  }

  function WrapAdd(a: u32, b: u32): u32 { (a + b) % 0x1_0000_0000 }

  function WrapSub(a: u32, b: u32): u32 { (a - b) % 0x1_0000_0000 }

  /** A wrapped sum or difference is off by at most one turn. */
  lemma {:induction false} WrapCases(a: u32, b: u32)
    ensures WrapAdd(a, b) == if a + b < ADDRESS_SPACE then a + b else a + b - ADDRESS_SPACE
    ensures WrapSub(a, b) == if b <= a then a - b else a - b + ADDRESS_SPACE
  {
  }

  /** `v != 0 && (v & (v - 1)) == 0`, read arithmetically. */
  predicate IsPowerOfTwo(v: int)
    ensures IsPowerOfTwo(v) ==> v >= 1
    decreases if v < 0 then 0 else v
  {
    v == 1 || (v > 1 && v % 2 == 0 && IsPowerOfTwo(v / 2))
  }

  /** Bitwise conjunction. */
  function BitAnd(a: nat, b: nat): (r: nat)
    ensures r <= a && r <= b
  {
    if a == 0 || b == 0 then 0 else 2 * BitAnd(a / 2, b / 2) + (if a % 2 == 1 && b % 2 == 1 then 1 else 0)
  }

  /** A bit of a flags word is set. */
  predicate BitSet(w: u32, bit: nat) { BitAnd(w, bit) != 0 }

  /** The flag bits by division. */
  lemma {:induction false} FlagBits(w: u32)
    ensures BitSet(w, 4) <==> w / 4 % 2 == 1
    ensures BitSet(w, 2) <==> w / 2 % 2 == 1
    ensures BitSet(w, 1) <==> w % 2 == 1
  {
    OneBit(w);
    OneBit(w / 2);
    OneBit(w / 4);
    TwiceBit(w, 1);
    TwiceBit(w, 2);
    TwiceBit(w / 2, 1);
    assert w / 2 / 2 == w / 4;
  }

  lemma {:induction false} OneBit(w: nat)
    ensures BitAnd(w, 1) == w % 2
  {
    assert BitAnd(w / 2, 0) == 0;
  }

  lemma {:induction false} TwiceBit(w: nat, bit: nat)
    requires bit > 0
    ensures BitAnd(w, 2 * bit) == 2 * BitAnd(w / 2, bit)
  {
    assert 2 * bit / 2 == bit && 2 * bit % 2 == 0;
  }

  /** Masking with one less than a power of two is taking the remainder. */
  lemma {:induction false} MaskIsRemainder(a: nat, n: nat)
    requires IsPowerOfTwo(n)
    ensures BitAnd(a, n - 1) == a % n
    decreases n
  {
    if n == 1 {
      assert BitAnd(a, 0) == 0;
    } else {
      MaskIsRemainder(a / 2, n / 2);
      MaskStep(a, n);
      DoubleRemainder(a, n / 2);
    }
  }

  lemma {:induction false} MaskStep(a: nat, n: nat)
    requires n > 1 && n % 2 == 0
    ensures BitAnd(a, n - 1) == 2 * BitAnd(a / 2, n / 2 - 1) + a % 2
  {
    assert (n - 1) / 2 == n / 2 - 1 && (n - 1) % 2 == 1;
  }

  lemma {:induction false} DoubleRemainder(a: nat, m: nat)
    requires m > 0
    ensures a % (2 * m) == 2 * ((a / 2) % m) + a % 2
  {
    var q, r := (a / 2) / m, (a / 2) % m;
    assert a / 2 == q * m + r;
    assert 2 * (q * m) == q * (2 * m);
    QuotientUnique(a, 2 * m, q, 2 * r + a % 2);
  }

  /** The smaller of two powers of two divides the larger. */
  lemma {:induction false} PowersDivide(a: int, b: int)
    requires IsPowerOfTwo(a) && IsPowerOfTwo(b) && a <= b
    ensures b % a == 0
    decreases a
  {
    if a == 1 {
    } else {
      PowersDivide(a / 2, b / 2);
      var q := (b / 2) / (a / 2);
      assert b / 2 == q * (a / 2);
      assert b == q * a by { assert b == 2 * (b / 2) && a == 2 * (a / 2); }
      MultipleMod(q, a);
    }
  }

  lemma {:induction false} MultipleMod(q: int, a: int)
    requires a > 0
    ensures (q * a) % a == 0
  {
    QuotientUnique(q * a, a, q, 0);
  }

  lemma {:induction false} QuotientUnique(m: int, a: int, q: int, r: int)
    requires a > 0 && 0 <= r < a && m == q * a + r
    ensures m / a == q && m % a == r
  {
    var d := q - m / a;
    assert d * a == m % a - r;
    assert d == 0 by {
      assert d >= 1 ==> d * a >= a;
      assert d <= -1 ==> d * a <= -a;
    }
  }

  /** Every divisor of a power of two is a power of two: the page size needs no
      further check than that it divides the address space. */
  lemma {:induction false} DivisorOfPowerOfTwo(d: int, p: int)
    requires d > 0 && IsPowerOfTwo(p) && p % d == 0
    ensures IsPowerOfTwo(d)
    decreases p
  {
    var q := p / d;
    assert p == q * d;
    if p == 1 {
      assert 1 % d == 0;
    } else if d % 2 == 0 {
      HalveRight(q, d);
      MultipleMod(q, d / 2);
      DivisorOfPowerOfTwo(d / 2, p / 2);
    } else {
      EvenProduct(q, d);
      HalveRight(d, q);
      MultipleMod(q / 2, d);
      DivisorOfPowerOfTwo(d, p / 2);
    }
  }

  lemma {:induction false} HalveRight(q: int, d: int)
    requires d % 2 == 0
    ensures (q * d) / 2 == q * (d / 2)
  {
    var h := d / 2;
    assert q * (2 * h) == 2 * (q * h);
  }

  lemma {:induction false} EvenProduct(q: int, d: int)
    requires (q * d) % 2 == 0 && d % 2 == 1
    ensures q % 2 == 0
  {
    var k := d / 2;
    assert q * d == 2 * (q * k) + q;
  }

  // ------------------------------------------------- division by a variable size

  /** `a / d`, by repeated subtraction. */
  function Quot(a: nat, d: nat): nat
    requires d > 0
  {
    if a < d then 0 else 1 + Quot(a - d, d)
  }

  /** `a % d`, by repeated subtraction. */
  function Rem(a: nat, d: nat): (r: nat)
    requires d > 0
    ensures r < d && r <= a
  {
    if a < d then a else Rem(a - d, d)
  }

  lemma {:induction false} QuotRem(a: nat, d: nat)
    requires d > 0
    ensures Quot(a, d) == a / d && Rem(a, d) == a % d
  {
    if a < d {
      QuotientUnique(a, d, 0, a);
    } else {
      QuotRem(a - d, d);
      QuotientUnique(a, d, (a - d) / d + 1, (a - d) % d);
    }
  }

  lemma {:induction false} QuotMonotone(a: nat, b: nat, d: nat)
    requires d > 0 && a <= b
    ensures Quot(a, d) <= Quot(b, d)
    decreases b
  {
    if a >= d {
      QuotMonotone(a - d, b - d, d);
    }
  }

  lemma {:induction false} QuotBelow(a: nat, b: nat, d: nat)
    requires d > 0 && a < b && Rem(b, d) == 0
    ensures Quot(a, d) < Quot(b, d)
    decreases b
  {
    if a >= d {
      QuotBelow(a - d, b - d, d);
    }
  }

  lemma {:induction false} RemAdd(a: nat, b: nat, d: nat)
    requires d > 0 && Rem(a, d) == 0
    ensures Rem(a + b, d) == Rem(b, d) && Quot(a + b, d) == Quot(a, d) + Quot(b, d)
  {
    if a >= d {
      RemAdd(a - d, b, d);
    }
  }

  lemma {:induction false} RemSub(a: nat, b: nat, d: nat)
    requires d > 0 && a <= b && Rem(a, d) == 0
    ensures Rem(b - a, d) == Rem(b, d) && Quot(b - a, d) + Quot(a, d) == Quot(b, d)
  {
    RemAdd(a, b - a, d);
  }

  /** Rounding down keeps the quotient. */
  lemma {:induction false} RoundDown(a: nat, d: nat)
    requires d > 0
    ensures Rem(a - Rem(a, d), d) == 0 && Quot(a - Rem(a, d), d) == Quot(a, d)
  {
    if a >= d {
      RoundDown(a - d, d);
    }
  }

  /** Aligned numbers differ by at least the alignment. */
  lemma {:induction false} AlignedGap(a: nat, b: nat, d: nat)
    requires d > 0 && Rem(a, d) == Rem(b, d) && a < b
    ensures a + d <= b
    decreases b
  {
    if a >= d {
      AlignedGap(a - d, b - d, d);
    } else {
      assert b >= d ==> Rem(b - d, d) == a;
    }
  }

  /** A number lies between two multiples exactly when its quotient lies between theirs. */
  lemma {:induction false} QuotRange(a: nat, lo: nat, hi: nat, d: nat)
    requires d > 0 && Rem(lo, d) == 0 && Rem(hi, d) == 0
    ensures lo <= a < hi <==> Quot(lo, d) <= Quot(a, d) < Quot(hi, d)
  {
    if lo <= a { QuotMonotone(lo, a, d); } else { QuotBelow(a, lo, d); }
    if a < hi { QuotBelow(a, hi, d); } else { QuotMonotone(hi, a, d); }
  }

  /** Quotients take every value below that of a multiple. */
  lemma {:induction false} QuotWitness(q: nat, hi: nat, d: nat) returns (a: nat)
    requires d > 0 && Rem(hi, d) == 0 && q < Quot(hi, d)
    ensures a < hi && Quot(a, d) == q && Rem(a, d) == 0
    decreases hi
  {
    if q == 0 {
      a := 0;
    } else {
      var b := QuotWitness(q - 1, hi - d, d);
      a := b + d;
    }
  }
}

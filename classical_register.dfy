/** `ClassicalRegister` of src/registers.rs: a fixed-width bit vector, most
    significant bit first, and its codec to and from a 32-bit unsigned integer.

    `from_value` and `value` are loops in the Rust code and are methods here; each
    is proved against a specification function (`FromValueSpec`, `ValueOf`)
    whose own properties (round trip, saturation, bounds) are the lemmas below. */
module ClassicalRegisters {
  import opened Common

  /** Rust's `u32`. */
  type U32 = x: int | 0 <= x < 0x1_0000_0000

  /** Bit width of `u32`: `2u32.pow(p)` overflows exactly when `p >= U32_BITS`. */
  const U32_BITS: nat := 32

  /** The register's entries are `usize`; `new` never checks that they are 0 or 1. */
  datatype ClassicalRegister = ClassicalRegister(bits: seq<nat>) {
    function Len(): nat {
      |bits|
    }
  }

  function Pow2(n: nat): (p: nat)
    ensures p >= 1
  {
    if n == 0 then 1 else 2 * Pow2(n - 1)
  }

  /** Every entry is 0 or 1. */
  predicate IsBinary(s: seq<nat>) {
    forall j :: 0 <= j < |s| ==> s[j] <= 1
  }

  /** The weight an entry contributes: `value` counts every nonzero entry as a 1. */
  function BitOf(b: nat): nat {
    if b != 0 then 1 else 0
  }

  /** Big-endian reading of a bit vector: the first entry has weight 2^(|s|-1),
      the last weight 1. */
  function ValueOf(s: seq<nat>): nat {
    if s == [] then 0 else BitOf(s[0]) * Pow2(|s| - 1) + ValueOf(s[1..])
  }

  /** The `w`-digit binary expansion of `v`, most significant digit first
      (the digits above `w` are dropped). */
  function ToBits(w: nat, v: nat): (s: seq<nat>)
    ensures |s| == w && IsBinary(s)
  {
    if w == 0 then [] else ToBits(w - 1, v / 2) + [v % 2]
  }

  /** `w` ones: the register `from_value` produces for an input at or above 2^w. */
  function Ones(w: nat): seq<nat> {
    seq(w, _ => 1)
  }

  /** The bit vector `from_value(w, v)` builds: the expansion of `v` when it
      fits in `w` bits, all ones otherwise. */
  function BitsFor(w: nat, v: nat): seq<nat> {
    if v < Pow2(w) then ToBits(w, v) else Ones(w)
  }

  /** What `from_value(w, v)` returns: it computes `2u32.pow(p)` for every
      position `p < w`, which overflows as soon as `w > 32`. */
  function FromValueSpec(w: nat, v: nat): Result<ClassicalRegister> {
    if w > U32_BITS then Failure(Overflow) else Success(ClassicalRegister(BitsFor(w, v)))
  }

  /** `value` computes `2u32.pow(p)` only for the nonzero entries, so it
      overflows exactly when a nonzero entry sits at position 32 or above,
      counting positions from the last entry. */
  predicate FitsU32(s: seq<nat>) {
    forall j :: 0 <= j < |s| && s[j] != 0 ==> |s| - 1 - j < U32_BITS
  }

  /** Rust's truncating cast `n as u32`. */
  function AsU32(n: nat): U32 {
    n % 0x1_0000_0000
  }

  /** `ClassicalRegister::zeros(n)`. */
  function Zeros(n: nat): (r: ClassicalRegister)
    ensures r.Len() == n && IsBinary(r.bits)
  {
    ClassicalRegister(seq(n, _ => 0))
  }

  // ---------------------------------------------------------------------------
  // The two loops of the Rust code

  /** `ClassicalRegister::from_value`: walks the positions from `width - 1`
      down to 0 and appends a 1 whenever the power of two still fits into
      what is left of `value`, subtracting it. */
  method FromValue(width: nat, value: U32) returns (r: Result<ClassicalRegister>)
    ensures r == FromValueSpec(width, value)
  {
    Pow2Fits32();
    var bits: seq<nat> := [];
    var remaining: U32 := value;
    var i: nat := width;
    while i > 0
      invariant width > U32_BITS ==> i == width
      invariant FromValueInv(width, value, i, bits, remaining)
    {
      i := i - 1;
      if i >= U32_BITS {
        return Failure(Overflow);
      }
      Pow2Monotone(i + 1, U32_BITS);
      var bitValue: U32 := Pow2(i);
      FromValueStep(width, value, i, bits, remaining);
      if bitValue <= remaining {
        remaining := remaining - bitValue;
        bits := bits + [1];
      } else {
        bits := bits + [0];
      }
    }
    FromValueDone(width, value, bits, remaining);
    r := Success(ClassicalRegister(bits));
  }

  /** `ClassicalRegister::value`: walks the entries from the last to the first,
      adding `2^pos` for every nonzero entry at position `pos`. */
  method Value(cr: ClassicalRegister) returns (r: Result<U32>)
    ensures r.Success? <==> FitsU32(cr.bits)
    ensures r.Success? ==> r.value == ValueOf(cr.bits)
    ensures r.Failure? ==> r.error == Overflow
  {
    var bits := cr.bits;
    var n := |bits|;
    var value: U32 := 0;
    var pos := 0;
    while pos < n
      invariant pos <= n
      invariant ValueInv(bits, pos, value)
    {
      ValueStep(bits, pos, value);
      if bits[n - 1 - pos] != 0 {
        if pos >= U32_BITS {
          return Failure(Overflow);
        }
        value := value + Pow2(pos);
      }
      pos := pos + 1;
    }
    assert bits[n - pos..] == bits;
    return Success(value);
  }

  // ---------------------------------------------------------------------------
  // Helpers for the loops

  /** The loop invariant of `from_value` once positions `width-1` down to `i`
      have been handled: below 2^width, the bits so far and what remains
      account for `value`; at or above it, every step has subtracted. */
  ghost predicate FromValueInv(width: nat, value: nat, i: nat, bits: seq<nat>, remaining: nat) {
    && i <= width
    && |bits| == width - i
    && (value < Pow2(width) ==>
          IsBinary(bits) && ValueOf(bits) * Pow2(i) + remaining == value && remaining < Pow2(i))
    && (value >= Pow2(width) ==>
          bits == Ones(width - i) && remaining == value - Pow2(width) + Pow2(i))
  }

  /** One step of `from_value`, at position `i`, keeps its invariant. */
  lemma FromValueStep(width: nat, value: nat, i: nat, bits: seq<nat>, remaining: nat)
    requires FromValueInv(width, value, i + 1, bits, remaining)
    ensures Pow2(i) <= remaining ==>
      FromValueInv(width, value, i, bits + [1], remaining - Pow2(i))
    ensures Pow2(i) > remaining ==>
      FromValueInv(width, value, i, bits + [0], remaining)
  {
    var b := if Pow2(i) <= remaining then 1 else 0;
    ValueOfSnoc(bits, b);
    if value < Pow2(width) {
      StepArithmetic(ValueOf(bits), b, Pow2(i));
    } else {
      Pow2Monotone(i + 1, width);
      assert bits + [1] == Ones(width - i);
    }
  }

  /** When `from_value` has handled every position, its bits are `BitsFor`. */
  lemma FromValueDone(width: nat, value: nat, bits: seq<nat>, remaining: nat)
    requires FromValueInv(width, value, 0, bits, remaining)
    ensures bits == BitsFor(width, value)
  {
    if value < Pow2(width) {
      ToBitsValueOf(bits);
    }
  }

  /** The loop invariant of `value` once the last `pos` entries have been
      read: `v` is their value and none of them overflowed. */
  ghost predicate ValueInv(s: seq<nat>, pos: nat, v: nat) {
    && pos <= |s|
    && v == ValueOf(s[|s| - pos..])
    && FitsU32(s[|s| - pos..])
    && (pos <= U32_BITS ==> v < Pow2(pos))
  }

  /** One step of `value`, at position `pos` from the end: a nonzero entry at
      position 32 or above overflows, any other entry keeps the invariant
      once its weight is added. */
  lemma ValueStep(s: seq<nat>, pos: nat, v: nat)
    requires pos < |s| && ValueInv(s, pos, v)
    ensures s[|s| - 1 - pos] != 0 && pos >= U32_BITS ==> !FitsU32(s)
    ensures s[|s| - 1 - pos] == 0 ==> ValueInv(s, pos + 1, v)
    ensures s[|s| - 1 - pos] != 0 && pos < U32_BITS ==>
      v + Pow2(pos) < 0x1_0000_0000 && ValueInv(s, pos + 1, v + Pow2(pos))
  {
    var n := |s|;
    assert s[n - 1 - pos..][1..] == s[n - pos..];
    assert Pow2(pos + 1) == 2 * Pow2(pos);
    if s[n - 1 - pos] == 0 || pos < U32_BITS {
      SuffixFits(s, pos);
      if pos < U32_BITS {
        Pow2Monotone(pos + 1, U32_BITS);
        Pow2Fits32();
      }
    } else {
      assert s[n - 1 - pos] != 0 && |s| - 1 - (n - 1 - pos) >= U32_BITS;
    }
  }

  /** `FitsU32` extends from a suffix to the next longer one when the new
      entry is zero or sits below position 32. */
  lemma SuffixFits(s: seq<nat>, pos: nat)
    requires pos < |s| && FitsU32(s[|s| - pos..])
    requires s[|s| - 1 - pos] == 0 || pos < U32_BITS
    ensures FitsU32(s[|s| - 1 - pos..])
  {
  }

  lemma Pow2Fits32()
    ensures Pow2(U32_BITS) == 0x1_0000_0000
  {
    Pow2Add(4, 4);
    Pow2Add(8, 8);
    Pow2Add(16, 16);
  }

  lemma {:induction false} Pow2Add(a: nat, b: nat)
    ensures Pow2(a + b) == Pow2(a) * Pow2(b)
  {
    if b > 0 {
      Pow2Add(a, b - 1);
      assert Pow2(a + b) == 2 * Pow2(a + b - 1);
    }
  }

  lemma {:induction false} Pow2Monotone(a: nat, b: nat)
    requires a <= b
    ensures Pow2(a) <= Pow2(b)
  {
    if a < b {
      Pow2Monotone(a, b - 1);
    }
  }

  /** Appending an entry doubles the value and adds the entry's weight. */
  lemma {:induction false} ValueOfSnoc(s: seq<nat>, b: nat)
    ensures ValueOf(s + [b]) == 2 * ValueOf(s) + BitOf(b)
  {
    if s != [] {
      assert (s + [b])[1..] == s[1..] + [b];
      ValueOfSnoc(s[1..], b);
    }
  }

  /** One step of `from_value` below 2^width: the invariant
      `ValueOf(bits) * 2^(i+1) + remaining == value` becomes
      `ValueOf(bits') * 2^i + remaining' == value`. */
  lemma StepArithmetic(w: nat, b: nat, p: nat)
    ensures (2 * w + BitOf(b)) * p == w * (2 * p) + BitOf(b) * p
  {
  }

  // ---------------------------------------------------------------------------
  // Properties of the codec

  /** `value` reads at most `|s|` bits: the result stays below 2^|s|. */
  lemma {:induction false} ValueOfBound(s: seq<nat>)
    ensures ValueOf(s) < Pow2(|s|)
  {
    if s != [] {
      ValueOfBound(s[1..]);
    }
  }

  /** Decoding an encoding gives the input back: `value(from_value(w, v)) == v`
      for every `v < 2^w`. */
  lemma {:induction false} ValueOfToBits(w: nat, v: nat)
    requires v < Pow2(w)
    ensures ValueOf(ToBits(w, v)) == v
  {
    if w > 0 {
      ValueOfToBits(w - 1, v / 2);
      ValueOfSnoc(ToBits(w - 1, v / 2), v % 2);
    }
  }

  /** Encoding a decoding gives the register back: `from_value(len, value())`
      rebuilds every 0/1 register. */
  lemma {:induction false} ToBitsValueOf(s: seq<nat>)
    requires IsBinary(s)
    ensures ToBits(|s|, ValueOf(s)) == s
  {
    if s != [] {
      var init := s[..|s| - 1];
      var last := s[|s| - 1];
      assert s == init + [last];
      ValueOfSnoc(init, last);
      ToBitsValueOf(init);
    }
  }

  /** Bit `p` of `v`, counting from the least significant bit 0:
      `(v >> p) & 1`. */
  function Bit(v: nat, p: nat): nat {
    if p == 0 then v % 2 else Bit(v / 2, p - 1)
  }

  /** Entry `j` of the expansion is bit `w-1-j` of `v`. */
  lemma {:induction false} ToBitsDigit(w: nat, v: nat, j: nat)
    requires j < w
    ensures ToBits(w, v)[j] == Bit(v, w - 1 - j)
  {
    if j < w - 1 {
      ToBitsDigit(w - 1, v / 2, j);
    }
  }

  /** All ones has the largest value of its width. */
  lemma {:induction false} ValueOfOnes(w: nat)
    ensures ValueOf(Ones(w)) == Pow2(w) - 1
  {
    if w > 0 {
      assert Ones(w)[1..] == Ones(w - 1);
      ValueOfOnes(w - 1);
    }
  }

  /** `from_value(w, v)` always has exactly `w` entries, each 0 or 1, and
      reads back as `v` when `v` fits in `w` bits and as `2^w - 1` otherwise:
      the Rust code saturates rather than dropping the high bits. */
  lemma FromValueRoundTrip(w: nat, v: nat)
    ensures |BitsFor(w, v)| == w && IsBinary(BitsFor(w, v))
    ensures ValueOf(BitsFor(w, v)) == if v < Pow2(w) then v else Pow2(w) - 1
  {
    if v < Pow2(w) {
      ValueOfToBits(w, v);
    } else {
      ValueOfOnes(w);
    }
  }

  /** For inputs too wide for the register, the Rust code's register differs from
      the truncated expansion: `from_value(1, 2)` is `[1]`, not `[0]`. */
  lemma SaturatesNotTruncates()
    ensures BitsFor(1, 2) == [1] && ToBits(1, 2) == [0]
  {
  }

  /** The register with every nonzero entry replaced by 1. */
  function Normalize(s: seq<nat>): (t: seq<nat>)
    ensures |t| == |s| && IsBinary(t)
  {
    seq(|s|, j requires 0 <= j < |s| => BitOf(s[j]))
  }

  /** `value` cannot tell a nonzero entry from a 1. */
  lemma {:induction false} ValueOfNormalize(s: seq<nat>)
    ensures ValueOf(Normalize(s)) == ValueOf(s)
  {
    if s != [] {
      assert Normalize(s)[1..] == Normalize(s[1..]);
      ValueOfNormalize(s[1..]);
    }
  }

  /** Re-encoding the value of any register of width at most 32 rebuilds it
      with its nonzero entries turned into ones (and rebuilds a 0/1 register
      exactly). */
  lemma RegisterRoundTrip(cr: ClassicalRegister)
    requires cr.Len() <= U32_BITS
    ensures FitsU32(cr.bits)
    ensures FromValueSpec(cr.Len(), ValueOf(cr.bits)) == Success(ClassicalRegister(Normalize(cr.bits)))
    ensures IsBinary(cr.bits) ==> FromValueSpec(cr.Len(), ValueOf(cr.bits)) == Success(cr)
  {
    ValueOfBound(cr.bits);
    ValueOfNormalize(cr.bits);
    ToBitsValueOf(Normalize(cr.bits));
    if IsBinary(cr.bits) {
      assert Normalize(cr.bits) == cr.bits;
    }
  }

  /** `zeros(n)` is the expansion of 0 and has value 0. */
  lemma {:induction false} ZerosValue(n: nat)
    ensures ValueOf(Zeros(n).bits) == 0
    ensures BitsFor(n, 0) == Zeros(n).bits
  {
    if n > 0 {
      assert Zeros(n).bits[1..] == Zeros(n - 1).bits;
      ZerosValue(n - 1);
      assert Zeros(n).bits == Zeros(n - 1).bits + [0];
    }
  }

  /** The Rust test `test_classical_value`: `[0,1,0,1,0]` is 10, and
      `from_value(5, 10)` rebuilds it. */
  method TestClassicalValue() returns (v: Result<U32>, back: Result<ClassicalRegister>)
    ensures v == Success(10)
    ensures back == Success(ClassicalRegister([0, 1, 0, 1, 0]))
  {
    var cr := ClassicalRegister([0, 1, 0, 1, 0]);
    v := Value(cr);
    assert ValueOf(cr.bits) == 10;
    RegisterRoundTrip(cr);
    back := FromValue(5, 10);
  }
}

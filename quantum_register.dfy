/** `QuantumRegister` of src/registers.rs: an amplitude vector (`State`), the
    width of the classical register it was seeded from, and a one-shot
    `measured` flag that guards every gate and the measurement.

    The random draw of `measure` is the parameter `r`; given `r`, measurement
    is the deterministic rule `Select` below. */
module QuantumRegisters {
  import opened Common
  import opened Complexes
  import opened ClassicalRegisters
  import opened States

  /** The value of `cum` in `measure` once the loop has visited index `j`:
      the total Born-rule weight of the amplitudes at indices `0..j`. */
  function Cum(amps: seq<Complex>, j: nat): real
    requires j < |amps|
  {
    PrefixProb(amps, j + 1)
  }

  /** The basis index the measurement loop stops at when it starts at index
      `i`: the first index from `i` on whose cumulative weight reaches `r`,
      or 0 when none does. */
  function SelectFrom(amps: seq<Complex>, r: real, i: nat): (k: nat)
    requires i <= |amps|
    decreases |amps| - i
    ensures || (i <= k < |amps| && r <= Cum(amps, k) && forall j :: i <= j < k ==> Cum(amps, j) < r)
            || (k == 0 && forall j :: i <= j < |amps| ==> Cum(amps, j) < r)
  {
    if i == |amps| then 0
    else if r <= Cum(amps, i) then i
    else SelectFrom(amps, r, i + 1)
  }

  /** The basis index `measure` reports for the draw `r`: the least index
      whose cumulative weight is at least `r`, falling back to 0 when no
      prefix reaches `r`. */
  function Select(amps: seq<Complex>, r: real): (k: nat)
    ensures || (k < |amps| && r <= Cum(amps, k) && forall j :: 0 <= j < k ==> Cum(amps, j) < r)
            || (k == 0 && forall j :: 0 <= j < |amps| ==> Cum(amps, j) < r)
  {
    SelectFrom(amps, r, 0)
  }

  class QuantumRegister {
    var measured: bool
    var probAmplitudes: State
    var len: nat

    /** The register's width equals the length of its amplitude vector: both
        are `cr.len()` of the seed, and the gates keep the length. */
    ghost predicate Valid()
      reads this, probAmplitudes
    {
      |probAmplitudes.amplitudes| == len
    }

    /** The struct literal of `QuantumRegister::new`. */
    constructor Init(state: State, width: nat)
      requires |state.amplitudes| == width
      ensures probAmplitudes == state && len == width && !measured
      ensures Valid()
    {
      measured := false;
      probAmplitudes := state;
      len := width;
    }

    /** `QuantumRegister::new(cr)`: an unmeasured register of width
        `cr.len()` over the vector `State::from_cr(cr)`, failing where
        `from_cr` fails. */
    static method New(cr: ClassicalRegister) returns (r: Result<QuantumRegister>)
      ensures !FitsU32(cr.bits) ==> r == Failure(Overflow)
      ensures FitsU32(cr.bits) && ValueOf(cr.bits) >= cr.Len() ==> r == Failure(IndexOutOfBounds)
      ensures FitsU32(cr.bits) && ValueOf(cr.bits) < cr.Len() ==>
        && r.Success? && fresh(r.value) && fresh(r.value.probAmplitudes)
        && r.value.Valid() && !r.value.measured && r.value.len == cr.Len()
        && r.value.probAmplitudes.amplitudes == BasisVector(cr.Len(), ValueOf(cr.bits))
    {
      var state := State.FromCr(cr);
      if state.Failure? {
        return Failure(state.error);
      }
      var qr := new QuantumRegister.Init(state.value, cr.Len());
      return Success(qr);
    }

    /** `len()`: the width, which on a valid register is the length of the
        amplitude vector. */
    function Len(): (l: nat)
      reads this, probAmplitudes
      ensures Valid() ==> l == |probAmplitudes.amplitudes|
    {
      len
    }

    /** `measure`: fails on a register already measured; otherwise marks it
        measured and, for the draw `r`, returns the register of width `len`
        holding the basis index `Select` picks. The amplitudes are untouched. */
    method Measure(r: real) returns (res: Result<ClassicalRegister>)
      requires Valid()
      requires 0.0 <= r < 1.0
      modifies this
      ensures Valid() && len == old(len) && probAmplitudes == old(probAmplitudes)
      ensures unchanged(probAmplitudes)
      ensures measured
      ensures old(measured) ==> res == Failure(AlreadyMeasured)
      ensures !old(measured) ==>
        res == FromValueSpec(len, AsU32(Select(probAmplitudes.amplitudes, r)))
    {
      if measured {
        return Failure(AlreadyMeasured);
      }
      measured := true;
      var cum := 0.0;
      var amps := probAmplitudes.Amplitudes();
      var val := 0;
      while val < |amps|
        invariant val <= |amps|
        invariant cum == PrefixProb(amps, val)
        invariant forall j :: 0 <= j < val ==> Cum(amps, j) < r
      {
        cum := cum + NormSqr(amps[val]);
        assert cum == Cum(amps, val);
        if r <= cum {
          SelectIs(amps, r, val);
          res := FromValue(len, AsU32(val));
          return;
        }
        val := val + 1;
      }
      SelectNone(amps, r);
      res := FromValue(len, 0);
    }

    /** `state()`: a fresh copy of the amplitude vector. */
    method StateCopy() returns (s: State)
      ensures fresh(s) && s.amplitudes == probAmplitudes.amplitudes
    {
      s := new State(0);
      s.amplitudes := probAmplitudes.amplitudes;
    }

    /** `x()`: fails once measured; otherwise applies Pauli-X to the vector,
        which fails unless the vector has exactly two amplitudes. */
    method X() returns (o: Outcome)
      requires Valid()
      modifies probAmplitudes
      ensures Valid()
      ensures o == if measured then Fail(AlreadyMeasured)
                   else if len == 2 then Pass
                   else Fail(DimensionMismatch)
      ensures o.Pass? ==>
        probAmplitudes.amplitudes == [old(probAmplitudes.amplitudes)[1], old(probAmplitudes.amplitudes)[0]]
      ensures o.Fail? ==> probAmplitudes.amplitudes == old(probAmplitudes.amplitudes)
    {
      if measured {
        return Fail(AlreadyMeasured);
      }
      o := probAmplitudes.PauliXGate();
    }

    /** `y()`: fails once measured; otherwise hands the vector to the Pauli-Y
        gate of `State`, which is not part of this model and is the parameter
        `pauliY` here. */
    method Y(pauliY: seq<Complex> -> seq<Complex>) returns (o: Outcome)
      requires Valid()
      requires forall v :: |pauliY(v)| == |v|
      modifies probAmplitudes
      ensures Valid()
      ensures o == if measured then Fail(AlreadyMeasured) else Pass
      ensures o.Pass? ==> probAmplitudes.amplitudes == pauliY(old(probAmplitudes.amplitudes))
      ensures o.Fail? ==> probAmplitudes.amplitudes == old(probAmplitudes.amplitudes)
    {
      if measured {
        return Fail(AlreadyMeasured);
      }
      probAmplitudes.amplitudes := pauliY(probAmplitudes.amplitudes);
      return Pass;
    }

    /** `z()`: as `y()`, with the Pauli-Z gate of `State` as the parameter
        `pauliZ`. */
    method Z(pauliZ: seq<Complex> -> seq<Complex>) returns (o: Outcome)
      requires Valid()
      requires forall v :: |pauliZ(v)| == |v|
      modifies probAmplitudes
      ensures Valid()
      ensures o == if measured then Fail(AlreadyMeasured) else Pass
      ensures o.Pass? ==> probAmplitudes.amplitudes == pauliZ(old(probAmplitudes.amplitudes))
      ensures o.Fail? ==> probAmplitudes.amplitudes == old(probAmplitudes.amplitudes)
    {
      if measured {
        return Fail(AlreadyMeasured);
      }
      probAmplitudes.amplitudes := pauliZ(probAmplitudes.amplitudes);
      return Pass;
    }
  }

  // ---------------------------------------------------------------------------
  // Properties of the selection rule

  /** A draw of 0 always selects index 0: the first cumulative weight is
      already at least 0. */
  lemma SelectZeroDraw(amps: seq<Complex>)
    ensures Select(amps, 0.0) == 0
  {
    if |amps| > 0 {
      assert PrefixProb(amps, 1) == PrefixProb(amps, 0) + NormSqr(amps[0]);
      assert Cum(amps, 0) >= 0.0;
      SelectIs(amps, 0.0, 0);
    } else {
      SelectNone(amps, 0.0);
    }
  }

  /** The selection rule has one answer: an index that reaches the draw after
      every earlier index fell short of it is the one selected. */
  lemma SelectIs(amps: seq<Complex>, r: real, k: nat)
    requires k < |amps| && r <= Cum(amps, k)
    requires forall j :: 0 <= j < k ==> Cum(amps, j) < r
    ensures Select(amps, r) == k
  {
  }

  /** When no cumulative weight reaches the draw, the fallback index 0 is
      selected. */
  lemma SelectNone(amps: seq<Complex>, r: real)
    requires forall j :: 0 <= j < |amps| ==> Cum(amps, j) < r
    ensures Select(amps, r) == 0
  {
  }

  /** On a basis vector with its 1 at index `k`, every draw in `(0, 1]`
      selects `k`. */
  lemma SelectBasis(n: nat, k: nat, r: real)
    requires k < n && 0.0 < r <= 1.0
    ensures Select(BasisVector(n, k), r) == k
  {
    var v := BasisVector(n, k);
    forall j | 0 <= j < k
      ensures Cum(v, j) < r
    {
      BasisPrefixProb(n, k, j + 1);
    }
    BasisPrefixProb(n, k, k + 1);
    SelectIs(v, r, k);
  }

  /** When the weights add up to at least the draw, the fallback is never
      taken: the selected index's cumulative weight reaches `r`. */
  lemma SelectReaches(amps: seq<Complex>, r: real)
    requires |amps| > 0 && r <= TotalProb(amps)
    ensures Select(amps, r) < |amps| && r <= Cum(amps, Select(amps, r))
  {
    assert Cum(amps, |amps| - 1) == TotalProb(amps);
  }

  // ---------------------------------------------------------------------------
  // The Rust code's own tests, and the one-shot protocol

  /** `test_init`: a register seeded with `zeros(8)` is unmeasured and has
      width 8. */
  method TestInit() returns (qr: Result<QuantumRegister>)
    ensures qr.Success? && !qr.value.measured && qr.value.Len() == 8
  {
    ZerosValue(8);
    qr := QuantumRegister.New(Zeros(8));
  }

  /** `test_measurement`: a register seeded with `zeros(2)` measures as
      `zeros(2)` whatever the draw, and is measured afterwards. */
  method TestMeasurement(r: real) returns (out: Result<ClassicalRegister>, measuredAfter: bool)
    requires 0.0 <= r < 1.0
    ensures out == Success(Zeros(2)) && measuredAfter
  {
    ZerosValue(2);
    var qr := QuantumRegister.New(Zeros(2));
    var q := qr.value;
    if r == 0.0 {
      SelectZeroDraw(q.probAmplitudes.amplitudes);
    } else {
      SelectBasis(2, 0, r);
    }
    out := q.Measure(r);
    measuredAfter := q.measured;
  }

  /** `pauli_x_test`: a register seeded with `zeros(1)` holds a vector of one
      amplitude, so `x()` meets a dimension mismatch rather than flipping the
      qubit. */
  method TestPauliX() returns (o: Outcome)
    ensures o == Fail(DimensionMismatch)
  {
    ZerosValue(1);
    var qr := QuantumRegister.New(Zeros(1));
    var q := qr.value;
    o := q.X();
  }

  /** On the seed `[0, 1]` (value 1, a vector of two amplitudes) `x()` swaps
      the amplitudes into the basis vector at index 0. */
  method TestFlip() returns (flip: Outcome, amps: seq<Complex>)
    ensures flip == Pass && amps == BasisVector(2, 0)
  {
    var cr := ClassicalRegister([0, 1]);
    assert ValueOf(cr.bits) == 1 && FitsU32(cr.bits);
    var qr := QuantumRegister.New(cr);
    var q := qr.value;
    flip := q.X();
    amps := q.probAmplitudes.Amplitudes();
  }

  /** Measurement is one-shot: after the first `measure`, a second one and
      any gate fail. */
  method TestOneShot(r: real) returns (again: Result<ClassicalRegister>, late: Outcome)
    requires 0.0 <= r < 1.0
    ensures again == Failure(AlreadyMeasured) && late == Fail(AlreadyMeasured)
  {
    ZerosValue(2);
    var qr := QuantumRegister.New(Zeros(2));
    var q := qr.value;
    var first := q.Measure(r);
    again := q.Measure(r);
    late := q.X();
  }
}

/** `State` of src/state.rs: the vector of complex probability amplitudes that a
    quantum register owns, seeded from a classical register and transformed by
    2x2 gate matrices. */
module States {
  import opened Common
  import opened Complexes
  import opened ClassicalRegisters

  /** A 2x2 complex matrix `[[a, b], [c, d]]`, read row by row as
      `DMatrix::from_row_slice(2, 2, ..)` reads its slice. */
  datatype Gate2 = Gate2(a: Complex, b: Complex, c: Complex, d: Complex)

  /** The matrix `pauli_x_gate` builds: `[[0, 1], [1, 0]]`. */
  const PauliX: Gate2 := Gate2(Zero, One, One, Zero)

  /** The matrix-vector product `gate * amplitudes` for a vector of the gate's
      dimension. */
  function Apply2(g: Gate2, v: seq<Complex>): (w: seq<Complex>)
    requires |v| == 2
    ensures |w| == 2
  {
    [Add(Mul(g.a, v[0]), Mul(g.b, v[1])), Add(Mul(g.c, v[0]), Mul(g.d, v[1]))]
  }

  /** Sum of the Born-rule weights of the first `n` amplitudes. */
  function PrefixProb(v: seq<Complex>, n: nat): real
    requires n <= |v|
  {
    if n == 0 then 0.0 else PrefixProb(v, n - 1) + NormSqr(v[n - 1])
  }

  /** Sum of the Born-rule weights of all amplitudes. */
  function TotalProb(v: seq<Complex>): real {
    PrefixProb(v, |v|)
  }

  /** The length-`n` vector of zero amplitudes. */
  function ZeroVector(n: nat): seq<Complex> {
    seq(n, _ => Zero)
  }

  /** The length-`n` vector with amplitude 1 at index `k` and 0 elsewhere. */
  function BasisVector(n: nat, k: nat): seq<Complex> {
    seq(n, j => if j == k then One else Zero)
  }

  class State {
    var amplitudes: seq<Complex>

    /** `State::new(n)`: exactly `n` amplitudes, all zero. */
    constructor (n: nat)
      ensures |amplitudes| == n
      ensures forall j :: 0 <= j < n ==> amplitudes[j] == Zero
      ensures amplitudes == ZeroVector(n)
    {
      amplitudes := ZeroVector(n);
    }

    /** `State::from_cr`: a vector of `cr.len()` amplitudes (not `2^len`) with
        a 1 written at index `cr.value()`. It fails when `value` overflows and
        when that index is past the end of the vector. */
    static method FromCr(cr: ClassicalRegister) returns (r: Result<State>)
      ensures !FitsU32(cr.bits) ==> r == Failure(Overflow)
      ensures FitsU32(cr.bits) && ValueOf(cr.bits) >= cr.Len() ==> r == Failure(IndexOutOfBounds)
      ensures FitsU32(cr.bits) && ValueOf(cr.bits) < cr.Len() ==>
        r.Success? && fresh(r.value) && r.value.amplitudes == BasisVector(cr.Len(), ValueOf(cr.bits))
    {
      var state := new State(cr.Len());
      var index := Value(cr);
      if index.Failure? {
        return Failure(index.error);
      }
      if index.value >= |state.amplitudes| {
        return Failure(IndexOutOfBounds);
      }
      state.amplitudes := state.amplitudes[index.value := One];
      return Success(state);
    }

    /** `amplitudes()`: a copy of the current vector; the state is unchanged. */
    method Amplitudes() returns (a: seq<Complex>)
      ensures a == amplitudes
    {
      a := amplitudes;
    }

    /** `pauli_x_gate`: multiplies the vector by the Pauli-X matrix, which on
        a two-amplitude vector swaps the amplitudes (`PauliXSwaps`). */
    method PauliXGate() returns (o: Outcome)
      modifies this
      ensures o == if |old(amplitudes)| == 2 then Pass else Fail(DimensionMismatch)
      ensures o.Pass? ==> amplitudes == [old(amplitudes)[1], old(amplitudes)[0]]
      ensures o.Fail? ==> amplitudes == old(amplitudes)
    {
      ghost var before := amplitudes;
      o := ApplyGate(PauliX);
      if o.Pass? {
        PauliXSwaps(before);
      }
    }

    /** `apply_gate`: replaces the vector by `gate * amplitudes`; the product
        of a 2x2 matrix with a vector of any other length is a dimension
        mismatch. */
    method ApplyGate(gate: Gate2) returns (o: Outcome)
      modifies this
      ensures o == if |old(amplitudes)| == 2 then Pass else Fail(DimensionMismatch)
      ensures o.Pass? ==> amplitudes == Apply2(gate, old(amplitudes))
      ensures o.Fail? ==> amplitudes == old(amplitudes)
    {
      if |amplitudes| != 2 {
        return Fail(DimensionMismatch);
      }
      amplitudes := Apply2(gate, amplitudes);
      return Pass;
    }
  }

  // ---------------------------------------------------------------------------
  // Properties of the gate and of the seeded vectors

  /** On a two-amplitude vector, Pauli-X swaps the amplitudes. */
  lemma PauliXSwaps(v: seq<Complex>)
    requires |v| == 2
    ensures Apply2(PauliX, v) == [v[1], v[0]]
  {
    MulUnits(v[0]);
    MulUnits(v[1]);
  }

  /** Pauli-X is its own inverse: applying it twice restores the vector. */
  lemma PauliXInvolution(v: seq<Complex>)
    requires |v| == 2
    ensures Apply2(PauliX, Apply2(PauliX, v)) == v
  {
    PauliXSwaps(v);
    PauliXSwaps(Apply2(PauliX, v));
  }

  /** Pauli-X keeps the length and the total Born-rule weight. */
  lemma PauliXPreservesProb(v: seq<Complex>)
    requires |v| == 2
    ensures |Apply2(PauliX, v)| == |v|
    ensures TotalProb(Apply2(PauliX, v)) == TotalProb(v)
  {
    PauliXSwaps(v);
    var w := Apply2(PauliX, v);
    assert TotalProb(v) == NormSqr(v[0]) + NormSqr(v[1]) by {
      assert PrefixProb(v, 1) == NormSqr(v[0]);
    }
    assert TotalProb(w) == NormSqr(w[0]) + NormSqr(w[1]) by {
      assert PrefixProb(w, 1) == NormSqr(w[0]);
    }
  }

  /** The cumulative weight of a basis vector jumps from 0 to 1 at its index. */
  lemma {:induction false} BasisPrefixProb(n: nat, k: nat, i: nat)
    requires k < n && i <= n
    ensures PrefixProb(BasisVector(n, k), i) == if i > k then 1.0 else 0.0
  {
    if i > 0 {
      BasisPrefixProb(n, k, i - 1);
      var v := BasisVector(n, k);
      assert PrefixProb(v, i) == PrefixProb(v, i - 1) + NormSqr(v[i - 1]);
      if i - 1 == k {
        assert v[i - 1] == One;
        assert NormSqr(One) == 1.0;
      } else {
        assert v[i - 1] == Zero;
        assert NormSqr(Zero) == 0.0;
      }
    }
  }

  /** A seeded vector is normalised: its weights sum to 1. */
  lemma BasisVectorNormalised(n: nat, k: nat)
    requires k < n
    ensures TotalProb(BasisVector(n, k)) == 1.0
  {
    BasisPrefixProb(n, k, n);
  }

  /** The vector `State::new` builds has total weight 0. */
  lemma {:induction false} ZeroVectorProb(n: nat, i: nat)
    requires i <= n
    ensures PrefixProb(ZeroVector(n), i) == 0.0
  {
    if i > 0 {
      ZeroVectorProb(n, i - 1);
      assert ZeroVector(n)[i - 1] == Zero;
    }
  }

  /** `from_cr` on the bits `[1, 1]` fails: their value 3 indexes past a
      vector of only 2 amplitudes. */
  method TestFromCrOutOfBounds() returns (r: Result<State>)
    ensures r == Failure(IndexOutOfBounds)
  {
    var cr := ClassicalRegister([1, 1]);
    assert ValueOf(cr.bits) == 3;
    r := State.FromCr(cr);
  }
}

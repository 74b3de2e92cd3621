# quriust registers and state, modelled in Dafny

This project models the core of the quriust quantum-computing simulator:

- the classical register, which holds a bit vector and encodes it to and from a `u32`;
- the quantum register, which holds an amplitude vector, a width and a one-shot `measured` flag;
- the `State` amplitude vector, which is seeded from a classical register and transformed by the Pauli-X gate.

Modules:

- `Common` holds the error kinds. Each one stands for a panic of the Rust code:
  - `Overflow`: a `u32` power of two that overflows;
  - `IndexOutOfBounds`: an index written past the end of the vector;
  - `DimensionMismatch`: a matrix-vector product of mismatched sizes;
  - `AlreadyMeasured`: the `assert_eq!` on `measured` failing.
- `Complexes` holds complex numbers over exact reals.
- `ClassicalRegisters` (src/registers.rs) holds the bit codec:
  - `FromValue` and `Value` are loop methods, proved against the functions `FromValueSpec` and `ValueOf`;
  - round trips connect the two directions.
- `States` (src/state.rs) holds the `State` class:
  - a `seq<Complex>` field, updated in place by `ApplyGate` and `PauliXGate`;
  - lemmas on the Pauli-X matrix and on Born-rule weights.
- `QuantumRegisters` (src/registers.rs) holds the `QuantumRegister` class:
  - `measured`, `probAmplitudes` and `len` fields;
  - `Measure` is proved against the selection rule `Select`;
  - the gates are guarded by `measured`.

Behaviour of the code that the model keeps as written:

- `from_value` computes `2^i` for every position, so a width above 32 overflows. A value of `2^width` or more gives all ones: `from_value` saturates rather than keeping the low `width` bits (`SaturatesNotTruncates`).
- `value` reads the last entry as bit 0 and counts any nonzero entry as a 1. It overflows when a nonzero entry sits 32 or more places from the end (for registers of fewer than 2^32 entries; see `ClassicalRegisters.Value` under "Left out").
- `State::from_cr` allocates `cr.len()` amplitudes, not `2^len`. So a register whose value is at least its width indexes past the end.
- Seeded with `zeros(1)`, a register holds one amplitude. `x()` then multiplies a 2x2 matrix by a vector of length 1, which is a dimension mismatch (`TestPauliX`).

## Model

| member | source | states |
|---|---|---|
| ClassicalRegisters.Zeros | src/registers.rs:14-16 | `zeros(n)` has length n and holds only binary digits |
| ClassicalRegisters.ZerosValue | src/registers.rs:14-16 | `zeros(n)` has value 0 and is exactly what `from_value(n, 0)` produces |
| ClassicalRegisters.FromValue | src/registers.rs:22-53 | the MSB-first loop returns `FromValueSpec`: Overflow when the width exceeds 32; otherwise the width-bit expansion of the value, or all ones when the value is at least 2^width |
| ClassicalRegisters.ToBits | src/registers.rs:39-50 | the expansion has exactly w entries, each 0 or 1 |
| ClassicalRegisters.ToBitsDigit | src/registers.rs:39-50 | entry j of the width-w expansion is bit w-1-j of the value (MSB first) |
| ClassicalRegisters.ValueOfToBits | src/registers.rs:22-53 | a value below 2^w survives encoding: reading the w-bit expansion gives it back |
| ClassicalRegisters.ToBitsValueOf | src/registers.rs:22-53 | a binary vector survives decoding: re-expanding its value to its length gives it back |
| ClassicalRegisters.FromValueRoundTrip | src/registers.rs:22-53 | `from_value(w, v)` is binary with length w; its value is v below 2^w and 2^w - 1 (saturated) otherwise |
| ClassicalRegisters.SaturatesNotTruncates | src/registers.rs:44-49 | `from_value(1, 2)` gives `[1]`, whereas truncation to the low bit would give `[0]` |
| ClassicalRegisters.ValueOfOnes | src/registers.rs:44-49 | the saturated all-ones register of width w has value 2^w - 1 |
| ClassicalRegisters.Value | src/registers.rs:67-77 | succeeds exactly when every nonzero entry is under 32 places from the end; the result is then the LSB-last sum of 2^pos over the nonzero entries; otherwise Overflow |
| ClassicalRegisters.ValueOfBound | src/registers.rs:67-77 | the value of n entries is below 2^n |
| ClassicalRegisters.ValueOfNormalize | src/registers.rs:70-73 | `value` sees any nonzero entry as 1: a register reads the same as its 0/1 normalisation |
| ClassicalRegisters.Normalize | src/registers.rs:70-73 | normalisation keeps the length and yields only binary digits |
| ClassicalRegisters.RegisterRoundTrip | src/registers.rs:149-155 | for a register of at most 32 entries, `value` succeeds and `from_value(len, value)` returns its normalisation; for a binary register it returns the register itself |
| ClassicalRegisters.TestClassicalValue | src/registers.rs:149-155 | `[0,1,0,1,0]` has value 10, and `from_value(5, 10)` gives the register back |
| States.State.constructor | src/state.rs:11-13 | `State::new(n)` has n amplitudes, all zero |
| States.ZeroVectorProb | src/state.rs:11-13 | the all-zero vector of `State::new` has total Born-rule weight 0 |
| States.State.FromCr | src/state.rs:15-20 | Overflow when `value` overflows; IndexOutOfBounds when the value is at least `cr.len()`; otherwise a fresh state of `cr.len()` amplitudes with 1 at the value's index and 0 elsewhere |
| States.TestFromCrOutOfBounds | src/state.rs:15-20 | seeding from `[1, 1]` (value 3, two amplitudes) writes out of bounds |
| States.BasisVectorNormalised | src/state.rs:15-20 | a seeded vector has total Born-rule weight 1 |
| States.BasisPrefixProb | src/state.rs:15-20 | the cumulative weight of a seeded vector is 0 before its index and 1 from it on |
| States.State.Amplitudes | src/state.rs:22-24 | returns the current vector and leaves the state unchanged |
| States.State.PauliXGate | src/state.rs:26-34 | on a two-amplitude vector it passes and swaps the two amplitudes; on any other length it fails with DimensionMismatch and changes nothing |
| States.PauliXSwaps | src/state.rs:27-32 | the row-major matrix `[[0,1],[1,0]]` times `[a, b]` is `[b, a]` |
| States.PauliXInvolution | src/state.rs:26-34 | applying Pauli-X twice restores the vector |
| States.PauliXPreservesProb | src/state.rs:26-34 | Pauli-X keeps the length and the total Born-rule weight |
| States.State.ApplyGate | src/state.rs:36-39 | a two-amplitude vector is replaced by the matrix-vector product; any other length is a DimensionMismatch that changes nothing |
| QuantumRegisters.QuantumRegister.New | src/registers.rs:89-95 | fails exactly where `from_cr` fails; otherwise a fresh, unmeasured register of width `cr.len()` whose vector is the seeded basis vector |
| QuantumRegisters.QuantumRegister.Len | src/registers.rs:97-99 | the width is the length of the amplitude vector of a valid register |
| QuantumRegisters.QuantumRegister.Measure | src/registers.rs:101-125 | on a measured register it fails with AlreadyMeasured. Otherwise it sets `measured` and returns `from_value(len, Select(amplitudes, r) as u32)`, leaving the amplitudes untouched |
| QuantumRegisters.Select | src/registers.rs:110-124 | the result is the least index whose cumulative weight reaches r; when no index reaches r it is 0 |
| QuantumRegisters.SelectIs | src/registers.rs:110-119 | the first index whose cumulative weight reaches r is the one selected |
| QuantumRegisters.SelectNone | src/registers.rs:120-124 | when no cumulative weight reaches r, index 0 is selected |
| QuantumRegisters.SelectZeroDraw | src/registers.rs:105-118 | a draw of 0 selects index 0 |
| QuantumRegisters.SelectBasis | src/registers.rs:105-118 | on a seeded basis vector, every draw in (0, 1] selects the seed's index |
| QuantumRegisters.SelectReaches | src/registers.rs:110-124 | when the weights sum to at least r, the fallback is never taken |
| QuantumRegisters.QuantumRegister.StateCopy | src/registers.rs:127-129 | `state()` returns a fresh copy holding the same amplitudes |
| QuantumRegisters.QuantumRegister.X | src/registers.rs:131-134 | on a measured register it fails with AlreadyMeasured. Otherwise it applies Pauli-X: the two amplitudes are swapped, or a vector of another length is a DimensionMismatch that changes nothing |
| QuantumRegisters.QuantumRegister.Y | src/registers.rs:136-139 | on a measured register it fails with AlreadyMeasured; otherwise it applies the given length-preserving transform |
| QuantumRegisters.QuantumRegister.Z | src/registers.rs:141-144 | on a measured register it fails with AlreadyMeasured; otherwise it applies the given length-preserving transform |
| QuantumRegisters.TestInit | src/registers.rs:157-164 | a register seeded with `zeros(8)` is unmeasured and has width 8 |
| QuantumRegisters.TestMeasurement | src/registers.rs:166-174 | a register seeded with `zeros(2)` measures as `zeros(2)` for every draw, and is measured afterwards |
| QuantumRegisters.TestPauliX | src/state.rs:42-54 | on a register seeded with `zeros(1)`, `x()` is a DimensionMismatch |
| QuantumRegisters.TestFlip | src/state.rs:26-34 | on the seed `[0, 1]`, `x()` passes and yields the basis vector at index 0 |
| QuantumRegisters.TestOneShot | src/registers.rs:101-103 | after one measurement, a second `measure` and any later `x()` fail with AlreadyMeasured |

## Left out

- src/qubit.rs, src/gates.rs and src/register.rs are the older single-qubit model. They are not part of this model.
- src/quantum_computer.rs, src/algorithms/*, src/main.rs, src/lib.rs and a.py are drivers and demonstrations built on the core. They are not part of this model.
- `f64` arithmetic is modelled with exact reals, so rounding in `norm_sqr` and in the cumulative sum of `measure` is not captured.
- The draw `rand::random::<f64>()` of `measure` becomes the parameter `r`, with `0 <= r < 1`. The random generator itself is not modelled.
- nalgebra's `DMatrix`/`DVector` product is modelled for the 2x2 gates only. A size mismatch is modelled as `DimensionMismatch`, standing for nalgebra's panic.
- QuantumRegisters.QuantumRegister.Y: `State` defines no `pauli_y_gate`, so the transform is a parameter. The model states only that it preserves length.
- QuantumRegisters.QuantumRegister.Z: `State` defines no `pauli_z_gate`, so the transform is a parameter. The model states only that it preserves length.
- ClassicalRegisters.FromValue: `u32::pow` overflow is modelled as the debug-build panic. Release-build wrap-around is not modelled.
- ClassicalRegisters.Value: `u32::pow` overflow is modelled as the debug-build panic. Release-build wrap-around is not modelled. The sum itself never overflows once every power fits, and the model proves this. The cast `pos as u32` is treated as exact: on a register of more than 2^32 entries the code wraps the position, so a nonzero entry 2^32 + k places from the end (k < 32) adds 2^k instead of overflowing, whereas the model reports `Overflow`.
- Panics are modelled as `Failure`/`Fail` results that end the operation. Unwinding and the process abort are not modelled.
- `ClassicalRegister::new` and `len` are the datatype constructor and its `Len` member. They carry no contract of their own.
- The derived `Clone`, `Debug` and `PartialEq` impls are not modelled. Datatype equality plays the role of `PartialEq`.

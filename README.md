# Commit–reveal prize wheel, modelled in Dafny

This models the on-chain program of `arch-wheel-spin` (`app/program/src/lib.rs`).
It is a prize wheel that stores one `WheelState` account:

- An authority initializes the wheel with a table of prizes and percentage weights.
- A player commits to `Hash(secret)`.
- The player then reveals `secret`. The program hashes the recent block hash, the secret and the current slot into a digest. It reads the first 8 digest bytes as a little-endian `u64`, takes the value mod 100 as the draw, and walks the weights. It records the first index whose running total exceeds the draw.
- A claim reads back the recorded prize.

Files, one module each:

- `bytes.dfy` (`Bytes`): the `u8`/`u64`/`[u8; 32]` types and the little-endian codec of `u64`.
- `selection.dfy` (`Selection`): the preimage, the draw, the wrapping `u8` running sum, the selection rule and the imperative `get_verifiable_random_value`.
- `wheel.dfy` (`Wheel`): the account record, the four handlers and the lifecycle lemmas.

Inputs and foreign code:

- SHA-256 is the parameter `hash: Hasher`, of type `seq<u8> -> Bytes32`. Every member that hashes holds for every such function. So the model assumes nothing about the hash beyond its 32-byte output.
- Signer flags, the authority key, the clock slot and the recent block hash are plain inputs.
- A handler that fails returns `Err`. It writes nothing, so the account stays as it was.
- An out-of-bounds index aborts the instruction. It is modelled as `Err(Panic)`, because the runtime discards the account write that came just before it.

Integer widths follow a Cargo release build, where overflow checks are off:

- The `u8` weight sum and the `u8` `cumulative` running total wrap modulo 256.
- `total_spins + 1` wraps modulo 2^64.
- `probabilities.len() - 1` on an empty vector wraps to `usize::MAX`, taking `usize` as 64 bits. The prize lookup at line 238 then fails, so the reveal fails either way.

Safeguards a commit–reveal scheme commonly has, which this code lacks:

- Reveal does not clear the commitment. The same secret can be revealed again (`RevealCanRepeat`).
- There is no reveal window, no check that the slot increases, no check for a reused block hash, no rejection sampling against modulo bias, and no mixing of the previous block hash.
- Commit, reveal and claim do not check the `initialized` flag. Initialize does not refuse an account that is already initialized.

## Model

| member | source | states |
|---|---|---|
| `Bytes.FromLe` | app/program/src/lib.rs:181-182 | the little-endian value of n bytes, sum of b[i]*256^i, is below 256^n |
| `Bytes.LeBytes` | app/program/src/lib.rs:175 | encoding v in n bytes gives exactly n bytes that decode back to v |
| `Bytes.LeBytesOfFromLe` | app/program/src/lib.rs:181-182 | encoding the decoded value of any byte string gives back that byte string |
| `Bytes.ToLeBytes` | app/program/src/lib.rs:175 | `slot.to_le_bytes()` is 8 bytes whose little-endian value is the slot |
| `Bytes.U64FromLeBytes` | app/program/src/lib.rs:181-182 | `u64::from_le_bytes` of 8 bytes is their little-endian value, below 2^64, and re-encodes to the same bytes |
| `Bytes.LeRoundTrip` | app/program/src/lib.rs:175 | decoding the 8-byte encoding of any `u64` gives it back |
| `Selection.Preimage` | app/program/src/lib.rs:172-175 | the preimage is 72 bytes: bytes 0..32 are the block hash, bytes 32..64 the secret, and bytes 64..72 decode to the slot |
| `Selection.Draw` | app/program/src/lib.rs:181-182 | the draw is the first 8 digest bytes as a little-endian value below 2^64, reduced mod 100, so it is below 100 |
| `Selection.WrappingSumU8` | app/program/src/lib.rs:185-187 | adding the first k weights as `u8` gives their true sum modulo 256 |
| `Selection.Fallback` | app/program/src/lib.rs:193 | `len() - 1` as a wrapping 64-bit `usize` subtraction; below `len` whenever the vector is non-empty |
| `Selection.SelectFrom` | app/program/src/lib.rs:185-193 | the walk resumed at index k returns an index from k on or the fallback; when no running total up to k exceeds the draw, it returns the least index whose total does, or the fallback when none does |
| `Selection.SelectIndex` | app/program/src/lib.rs:185-193 | the selected index is the first whose wrapped running total strictly exceeds the draw; failing that, no total exceeds it and the result is the fallback `len - 1` |
| `Selection.SelectIndexInRange` | app/program/src/lib.rs:185-193 | for a non-empty weight vector the selected index is below its length |
| `Selection.SelectIndexWhenWeightsSumTo100` | app/program/src/lib.rs:185-191 | if the weights sum to 100 and the draw is below 100, the fallback is not taken; index i is the least with draw < PrefixSum(i+1), PrefixSum(i) <= draw, and weight i is positive |
| `Selection.CopyFromSlice` | app/program/src/lib.rs:173-175 | `copy_from_slice` puts the source bytes at the given offset and leaves the rest of the buffer unchanged |
| `Selection.GetVerifiableRandomValue` | app/program/src/lib.rs:165-194 | the digest returned is exactly the hash of the 72-byte preimage, and the index is the one the selection rule picks for its draw; both are functions of (slot, block hash, secret, weights) |
| `Wheel.WrappingIncrement` | app/program/src/lib.rs:234 | the spin counter goes up by one modulo 2^64, and by exactly one below the wrap |
| `Wheel.WellFormed` | app/program/src/lib.rs:84-101 | the invariant initialize establishes on the `WheelState` record (lines 31-42): initialized, one weight per prize, true weight sum 100; it implies a non-empty table |
| `Wheel.WeightsPassAsWritten` | app/program/src/lib.rs:85 | the weight check as written, `sum::<u8>() == 100` with wrapping, holds exactly when the true sum is 100 modulo 256 |
| `Wheel.WrappedWeightCheckAdmitsOverweightWheel` | app/program/src/lib.rs:84-87 | the wrapping `u8` weight check accepts weights 56, 200, 100 (true sum 356); on them, draw 60 selects index 2, whose interval starts at 256 |
| `Wheel.WeightChecksAgreeWithoutOverflow` | app/program/src/lib.rs:84-87 | the wrapping check accepts every vector that sums to exactly 100, and agrees with the true check whenever the true sum is below 256 |
| `Wheel.ProcessInitialize` | app/program/src/lib.rs:70-105 | checks the missing signature first, then rejects a weight sum other than 100 or a length mismatch with InvalidArgument; succeeds exactly when both checks pass, with initialized set, the given prizes and weights, no result, zero spins and the signer as authority; the result is well-formed |
| `Wheel.ProcessCommitSpin` | app/program/src/lib.rs:244-262 | fails exactly when the player has not signed; otherwise only the commitment changes, and a well-formed account stays well-formed |
| `Wheel.ProcessRevealSpin` | app/program/src/lib.rs:196-242 | fails on a missing signature, then on `Hash(secret) != commitment`, then on an out-of-range prize index; its result is exactly `RevealSpin`, its specification |
| `Wheel.RevealSpin` | app/program/src/lib.rs:196-242 | the error cases in order; success exactly when signed, matching and in range; on success the result is the selected index, the counter goes up by one mod 2^64, slot and block hash take the inputs, and prizes, weights, authority, flag and commitment stay |
| `Wheel.RevealOnWellFormed` | app/program/src/lib.rs:223-238 | on a well-formed account with the committed secret, reveal succeeds and keeps the account well-formed; the prize index is in bounds, the draw lies in its cumulative interval, and its weight is positive |
| `Wheel.RevealInBoundsAsWritten` | app/program/src/lib.rs:223-238 | on any account the wrapping weight check admits, with one weight per prize, a signed reveal of the committed secret succeeds: the prize lookup at line 238 stays in bounds |
| `Wheel.RevealCanRepeat` | app/program/src/lib.rs:213-234 | the commitment is not cleared, so revealing the same secret again succeeds and counts a second spin |
| `Wheel.ClaimPrize` | app/program/src/lib.rs:264-285 | a missing signature fails; no recorded result fails with InvalidAccountData; otherwise it returns `prizes[i]` for the recorded `i`; it returns no new state |
| `Wheel.ClaimAfterReveal` | app/program/src/lib.rs:278-280 | after a successful reveal, claim returns the prize at the selected index |
| `Wheel.RevealAfterCommit` | app/program/src/lib.rs:213-217 | after committing `Hash(secret)` on a well-formed account, a signed reveal of that secret succeeds |

## Findings

| source | as written | input that shows it | evidently intended | confidence | as-written member | corrected member |
|---|---|---|---|---|---|---|
| app/program/src/lib.rs:85 | `probabilities.iter().sum::<u8>() != 100` adds the weights as `u8`; without overflow checks the sum wraps modulo 256 | weights `[56, 200, 100]` with 3 prizes: the wrapped sum is 100, the true sum is 356; draw 60 then selects index 2, whose cumulative interval is [256, 356) | accept only weights whose true sum is 100 | not executed; assumes a build without overflow checks (Cargo's release default), while with checks on the sum panics instead | `Wheel.WeightsPassAsWritten`, `Wheel.WrappedWeightCheckAdmitsOverweightWheel` | `Wheel.ProcessInitialize` |

## Left out

- Instruction dispatch (`process_instruction`) and Borsh decoding of the instruction. The dispatcher names a `SpinWheel` variant that does not exist and never routes commit or reveal.
- `process_spin`. It reads the wall clock, calls the selector with the wrong number of arguments, and writes fields `WheelState` does not have.
- Account I/O: Borsh (de)serialization, borrowing account data, `next_account_info` and `Clock::get`. Their results are inputs. Their own failures are not modelled, including a block-hash account shorter than 32 bytes.
- Logging (`msg!`, `hex::encode`) and `map_to_program_error`. The verification digest is only logged, so the handlers do not return it. Claim is the exception: it returns `Ok(())` and only logs `prizes[prize_index]` (lines 279-280), and the model returns that logged prize as its value.
- SHA-256 internals. The hash is an arbitrary function parameter with 32-byte output.
- ProcessInitialize: the record literal at lines 94-101 leaves out `last_slot`, `last_block_hash` and `user_commitment`, so the code does not compile as written. The model picks arbitrary values and its contract does not constrain them.
- ProcessInitialize: checks the true weight sum, as the Findings table explains. `WeightsPassAsWritten` models the wrapping check at line 85, and `WrappedWeightCheckAdmitsOverweightWheel` shows an input it wrongly accepts. In a build with overflow checks on, an overflowing sum panics instead of returning InvalidArgument. The model does not separate that panic from InvalidArgument.
- Spin result indices are unbounded naturals. `usize` is modelled only where it wraps (`Selection.Fallback`).
- The commented-out test module at lines 287-346 is not live code. Its checks match `ProcessInitialize`'s post-state.

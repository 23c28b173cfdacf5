/** The wheel account and its instruction handlers: initialize, commit,
    reveal and claim. Each handler reads the account into a `WheelState`,
    checks its guards in the program's order, updates fields and writes it
    back; a failure writes nothing, so an `Err` leaves the account as it was.
    Signer flags, the clock slot and the recent block hash are inputs. */
module Wheel {
  import opened Bytes
  import opened Selection

  type Pubkey = Bytes32

  datatype Option<T> = None | Some(value: T)

  /** The `ProgramError`s the handlers return, and `Panic` for an aborted
      instruction (an out-of-bounds index), whose account writes the runtime
      discards. */
  datatype Error = MissingRequiredSignature | InvalidArgument | InvalidAccountData | Panic

  datatype Result<T> = Ok(value: T) | Err(error: Error)

  /** The persisted account record. */
  datatype WheelState = WheelState(
    initialized: bool,
    prizes: seq<string>,
    probabilities: seq<u8>,
    lastSpinResult: Option<nat>,
    totalSpins: u64,
    authority: Pubkey,
    lastSlot: u64,
    lastBlockHash: Bytes32,
    userCommitment: Bytes32)

  /** What a successful initialize establishes and no handler breaks: one
      weight per prize and weights summing to 100. */
  ghost predicate WellFormed(s: WheelState)
    ensures WellFormed(s) ==> |s.prizes| == |s.probabilities| > 0
  {
    s.initialized && |s.prizes| == |s.probabilities| && Sum(s.probabilities) == 100
  }

  /** `(total_spins + 1)` on a `u64`, wrapping at 2^64. */
  function WrappingIncrement(n: u64): (r: u64)
    ensures r == (n + 1) % TWO_TO_64
    ensures n + 1 < TWO_TO_64 ==> r == n + 1
  {
    if n + 1 == TWO_TO_64 then 0 else n + 1
  }

  /** The weight check of initialize as the program writes it: the weights
      are added with `iter().sum::<u8>()`, which wraps in a build without
      overflow checks. */
  predicate WeightsPassAsWritten(probabilities: seq<u8>)
    ensures WeightsPassAsWritten(probabilities) <==> Sum(probabilities) % 256 == 100
  {
    WrappingSumU8(probabilities, |probabilities|) == 100
  }

  /** The wrapping check admits a wheel whose weights add up to 356, and the
      selection on it then returns an index whose interval does not hold the
      draw: weights 56, 200, 100 and draw 60 select index 2, whose true
      interval is [256, 356). */
  lemma WrappedWeightCheckAdmitsOverweightWheel()
    ensures var p: seq<u8> := [56, 200, 100];
      && WeightsPassAsWritten(p)
      && Sum(p) == 356
      && SelectIndex(60, p) == 2
      && 60 < PrefixSum(p, 2)
  {
    var p: seq<u8> := [56, 200, 100];
    assert PrefixSum(p, 1) == 56;
    assert PrefixSum(p, 2) == 256;
    assert PrefixSum(p, 3) == 356;
    assert WrappingSumU8(p, 1) == 56;
    assert WrappingSumU8(p, 2) == 0;
    assert WrappingSumU8(p, 3) == 100;
    assert SelectFrom(60, p, 2) == 2;
  }

  /** The two checks agree whenever the true sum fits in a `u8`, so the
      intended check only refuses what wrapping wrongly accepts. */
  lemma WeightChecksAgreeWithoutOverflow(probabilities: seq<u8>)
    ensures Sum(probabilities) == 100 ==> WeightsPassAsWritten(probabilities)
    ensures Sum(probabilities) < 256 ==> (WeightsPassAsWritten(probabilities) <==> Sum(probabilities) == 100)
  {
  }

  /** `process_initialize`, with the weight check on the true sum. Missing
      authority signature is reported first, then a weight sum other than 100
      or a prize count other than the weight count. On success the record is
      initialized with the given table, no spin result, zero spins and the
      signer as authority; the slot, block hash and commitment are
      unconstrained, as the program's record literal does not set them. */
  method ProcessInitialize(authorityIsSigner: bool, authorityKey: Pubkey,
                           prizes: seq<string>, probabilities: seq<u8>)
    returns (r: Result<WheelState>)
    ensures !authorityIsSigner ==> r == Err(MissingRequiredSignature)
    ensures (authorityIsSigner && (Sum(probabilities) != 100 || |prizes| != |probabilities|))
            ==> r == Err(InvalidArgument)
    ensures r.Ok? <==> authorityIsSigner && Sum(probabilities) == 100 && |prizes| == |probabilities|
    ensures r.Ok? ==> && r.value.initialized
                      && r.value.prizes == prizes
                      && r.value.probabilities == probabilities
                      && r.value.lastSpinResult == None
                      && r.value.totalSpins == 0
                      && r.value.authority == authorityKey
    ensures r.Ok? ==> WellFormed(r.value)
  {
    if !authorityIsSigner {
      return Err(MissingRequiredSignature);
    }
    if Sum(probabilities) != 100 {
      return Err(InvalidArgument);
    }
    if |prizes| != |probabilities| {
      return Err(InvalidArgument);
    }
    var lastSlot: u64 :| true;
    var lastBlockHash: Bytes32 :| true;
    var userCommitment: Bytes32 :| true;
    var wheelState := WheelState(
      initialized := true,
      prizes := prizes,
      probabilities := probabilities,
      lastSpinResult := None,
      totalSpins := 0,
      authority := authorityKey,
      lastSlot := lastSlot,
      lastBlockHash := lastBlockHash,
      userCommitment := userCommitment);
    r := Ok(wheelState);
  }

  /** `process_commit_spin`: needs the player's signature and then replaces
      the stored commitment; every other field is kept. */
  method ProcessCommitSpin(state: WheelState, playerIsSigner: bool, commitment: Bytes32)
    returns (r: Result<WheelState>)
    ensures !playerIsSigner ==> r == Err(MissingRequiredSignature)
    ensures playerIsSigner ==> r.Ok?
    ensures r.Ok? ==> r.value == state.(userCommitment := commitment)
    ensures r.Ok? && WellFormed(state) ==> WellFormed(r.value)
  {
    if !playerIsSigner {
      return Err(MissingRequiredSignature);
    }
    var wheelState := state;
    wheelState := wheelState.(userCommitment := commitment);
    r := Ok(wheelState);
  }

  /** The index a reveal selects: the pure counterpart of the index that
      `GetVerifiableRandomValue` returns, whose contract states that it
      equals this selection applied to the draw of `hash(Preimage(...))`. */
  function SpinIndex(hash: Hasher, slot: u64, blockHash: Bytes32, userSecret: Bytes32,
                     probabilities: seq<u8>): nat
  {
    SelectIndex(Draw(hash(Preimage(slot, blockHash, userSecret))), probabilities)
  }

  /** The specification of `ProcessRevealSpin`: the outcome of
      `process_reveal_spin` as a value. The two guard failures come in order;
      success is exactly a signed reveal of the committed secret whose
      selected index names a prize; on success exactly the slot, block hash,
      result and counter change, while the table, authority, flag and
      commitment stay (the commitment is not cleared). */
  function RevealSpin(hash: Hasher, state: WheelState, playerIsSigner: bool,
                      userSecret: Bytes32, slot: u64, blockHash: Bytes32): (r: Result<WheelState>)
    ensures !playerIsSigner ==> r == Err(MissingRequiredSignature)
    ensures playerIsSigner && hash(userSecret) != state.userCommitment ==> r == Err(InvalidArgument)
    ensures r.Ok? <==> && playerIsSigner && hash(userSecret) == state.userCommitment
                       && SpinIndex(hash, slot, blockHash, userSecret, state.probabilities) < |state.prizes|
    ensures r.Ok? ==>
      && r.value.lastSpinResult == Some(SpinIndex(hash, slot, blockHash, userSecret, state.probabilities))
      && r.value.totalSpins == (state.totalSpins + 1) % TWO_TO_64
      && r.value.lastSlot == slot
      && r.value.lastBlockHash == blockHash
      && r.value.prizes == state.prizes
      && r.value.probabilities == state.probabilities
      && r.value.authority == state.authority
      && r.value.initialized == state.initialized
      && r.value.userCommitment == state.userCommitment
  {
    if !playerIsSigner then Err(MissingRequiredSignature)
    else if hash(userSecret) != state.userCommitment then Err(InvalidArgument)
    else
      var i := SpinIndex(hash, slot, blockHash, userSecret, state.probabilities);
      if i >= |state.prizes| then Err(Panic)
      else Ok(state.(lastSlot := slot,
                     lastBlockHash := blockHash,
                     lastSpinResult := Some(i),
                     totalSpins := WrappingIncrement(state.totalSpins)))
  }

  /** `process_reveal_spin`: the player's signature, then the commitment
      check, then selection from the slot, block hash and secret; the slot,
      block hash, result and spin count are updated before the prize is
      looked up. */
  method ProcessRevealSpin(hash: Hasher, state: WheelState, playerIsSigner: bool,
                           userSecret: Bytes32, slot: u64, blockHash: Bytes32)
    returns (r: Result<WheelState>)
    ensures r == RevealSpin(hash, state, playerIsSigner, userSecret, slot, blockHash)
  {
    if !playerIsSigner {
      return Err(MissingRequiredSignature);
    }
    var wheelState := state;
    var commitment := hash(userSecret);
    if commitment != wheelState.userCommitment {
      return Err(InvalidArgument);
    }
    var randomValue, finalHash := GetVerifiableRandomValue(hash, slot, blockHash, userSecret,
                                                           wheelState.probabilities);
    wheelState := wheelState.(lastSlot := slot);
    wheelState := wheelState.(lastBlockHash := blockHash);
    wheelState := wheelState.(lastSpinResult := Some(randomValue));
    wheelState := wheelState.(totalSpins := WrappingIncrement(wheelState.totalSpins));
    if randomValue >= |wheelState.prizes| {
      return Err(Panic);
    }
    r := Ok(wheelState);
  }

  /** On a well-formed account with the player's signature and the committed
      secret, reveal succeeds and keeps the account well-formed; the result
      names a prize, the draw falls in that prize's cumulative interval and
      the prize has a non-zero weight. */
  lemma RevealOnWellFormed(hash: Hasher, s: WheelState, userSecret: Bytes32,
                           slot: u64, blockHash: Bytes32)
    requires WellFormed(s) && hash(userSecret) == s.userCommitment
    ensures var r := RevealSpin(hash, s, true, userSecret, slot, blockHash);
      && r.Ok?
      && WellFormed(r.value)
      && var draw := Draw(hash(Preimage(slot, blockHash, userSecret)));
         var i := SpinIndex(hash, slot, blockHash, userSecret, s.probabilities);
         && r.value.lastSpinResult == Some(i)
         && i < |s.prizes|
         && PrefixSum(s.probabilities, i) <= draw < PrefixSum(s.probabilities, i + 1)
         && s.probabilities[i] > 0
  {
    var draw := Draw(hash(Preimage(slot, blockHash, userSecret)));
    SelectIndexWhenWeightsSumTo100(draw, s.probabilities);
  }

  /** The prize lookup after selection stays in bounds on every account the
      wrapping weight check admits, overweight ones such as 56, 200, 100
      included: a signed reveal of the committed secret succeeds. */
  lemma RevealInBoundsAsWritten(hash: Hasher, s: WheelState, userSecret: Bytes32,
                                slot: u64, blockHash: Bytes32)
    requires |s.prizes| == |s.probabilities| && WeightsPassAsWritten(s.probabilities)
    requires hash(userSecret) == s.userCommitment
    ensures RevealSpin(hash, s, true, userSecret, slot, blockHash).Ok?
  {
    assert |s.probabilities| > 0;
    SelectIndexInRange(Draw(hash(Preimage(slot, blockHash, userSecret))), s.probabilities);
  }

  /** The commitment survives a reveal, so the same secret can be revealed
      again and counts another spin. */
  lemma RevealCanRepeat(hash: Hasher, s: WheelState, userSecret: Bytes32,
                        slot: u64, blockHash: Bytes32, slot': u64, blockHash': Bytes32)
    requires WellFormed(s) && hash(userSecret) == s.userCommitment
    ensures var r := RevealSpin(hash, s, true, userSecret, slot, blockHash);
      && r.Ok?
      && var r' := RevealSpin(hash, r.value, true, userSecret, slot', blockHash');
         && r'.Ok?
         && r'.value.totalSpins == (s.totalSpins + 2) % TWO_TO_64
  {
    RevealOnWellFormed(hash, s, userSecret, slot, blockHash);
    var s1 := RevealSpin(hash, s, true, userSecret, slot, blockHash).value;
    RevealOnWellFormed(hash, s1, userSecret, slot', blockHash');
  }

  /** `process_claim_prize`: needs the player's signature, then returns the
      prize the last spin selected, or InvalidAccountData when there has been
      no spin. It returns no new state: claim never writes the account. */
  function ClaimPrize(state: WheelState, playerIsSigner: bool): (r: Result<string>)
    ensures !playerIsSigner ==> r == Err(MissingRequiredSignature)
    ensures playerIsSigner && state.lastSpinResult == None ==> r == Err(InvalidAccountData)
    ensures r.Ok? <==> && playerIsSigner && state.lastSpinResult.Some?
                       && state.lastSpinResult.value < |state.prizes|
    ensures r.Ok? ==> r.value == state.prizes[state.lastSpinResult.value]
  {
    if !playerIsSigner then Err(MissingRequiredSignature)
    else match state.lastSpinResult
      case Some(prizeIndex) =>
        if prizeIndex < |state.prizes| then Ok(state.prizes[prizeIndex]) else Err(Panic)
      case None => Err(InvalidAccountData)
  }

  /** After a successful reveal, claim returns the selected prize. */
  lemma ClaimAfterReveal(hash: Hasher, s: WheelState, userSecret: Bytes32,
                         slot: u64, blockHash: Bytes32)
    requires WellFormed(s) && hash(userSecret) == s.userCommitment
    ensures var r := RevealSpin(hash, s, true, userSecret, slot, blockHash);
      && r.Ok?
      && ClaimPrize(r.value, true)
           == Ok(s.prizes[SpinIndex(hash, slot, blockHash, userSecret, s.probabilities)])
  {
    RevealOnWellFormed(hash, s, userSecret, slot, blockHash);
  }

  /** A commit of Hash(secret) on a well-formed account lets a signed reveal
      of that secret succeed. */
  lemma RevealAfterCommit(hash: Hasher, s: WheelState, userSecret: Bytes32,
                          slot: u64, blockHash: Bytes32)
    requires WellFormed(s)
    ensures RevealSpin(hash, s.(userCommitment := hash(userSecret)), true,
                       userSecret, slot, blockHash).Ok?
  {
    RevealOnWellFormed(hash, s.(userCommitment := hash(userSecret)), userSecret, slot, blockHash);
  }
}

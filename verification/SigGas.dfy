/** Gas for signature verification over arbitrarily nested multisigs. */
module SigGas {
  import opened Wrappers

  datatype PubKey = Secp256k1 | EthSecp256k1 | Ed25519 | Multisig(keys: seq<PubKey>) | OtherKey

  datatype SigData = SingleSig | MultiSig(bits: seq<bool>, sigs: seq<SigData>)

  datatype AuthParams = AuthParams(sigVerifyCostED25519: nat, sigVerifyCostSecp256k1: nat)

  datatype Outcome = Success | InvalidPubKey | WrongSignatureData | OutOfGas | IndexOutOfRange

  const SECP256K1_VERIFY_COST := 21000

  /** A gas meter; going over the limit panics after the gas has been added. */
  class GasMeter {
    const limit: Option<nat>
    var consumed: nat

    constructor (limit: Option<nat>)
      ensures this.limit == limit && consumed == 0
    {
      this.limit, consumed := limit, 0;
    }

    method ConsumeGas(amount: nat) returns (o: Outcome)
      modifies this
      ensures (o, consumed) == Spend(limit, old(consumed), amount)
    {
      consumed := consumed + amount;
      if limit.Some? && consumed > limit.value {
        return OutOfGas;
      }
      return Success;
    }
  }

  // ----- the outcome and the meter after it, as functions

  function Spend(limit: Option<nat>, used: nat, amount: nat): (Outcome, nat) {
    (if limit.Some? && used + amount > limit.value then OutOfGas else Success, used + amount)
  }

  function VerifyGas(key: PubKey, data: SigData, p: AuthParams, limit: Option<nat>, used: nat): (Outcome, nat)
    decreases key
  {
    match key
    case Secp256k1 => Spend(limit, used, p.sigVerifyCostSecp256k1)
    case EthSecp256k1 => Spend(limit, used, SECP256K1_VERIFY_COST)
    case Ed25519 =>
      var (o, now) := Spend(limit, used, p.sigVerifyCostED25519);
      (if o == Success then InvalidPubKey else o, now)
    case Multisig(_) =>
      if data.MultiSig? then BitsGas(key, data, 0, 0, p, limit, used) else (WrongSignatureData, used)
    case OtherKey => (InvalidPubKey, used)
  }

  /** The bit loop from bit `i` on, with `sigIndex` signatures taken. */
  function BitsGas(key: PubKey, data: SigData, i: nat, sigIndex: nat, p: AuthParams, limit: Option<nat>,
          used: nat): (Outcome, nat)
    requires key.Multisig? && data.MultiSig? && i <= |data.bits|
    decreases key, |data.bits| - i + 1
  {
    if i == |data.bits| then (Success, used)
    else if !data.bits[i] then BitsGas(key, data, i + 1, sigIndex, p, limit, used)
    else if i >= |key.keys| || sigIndex >= |data.sigs| then (IndexOutOfRange, used)
    else
      var (o, now) := VerifyGas(key.keys[i], data.sigs[sigIndex], p, limit, used);
      if o != Success then (o, now) else BitsGas(key, data, i + 1, sigIndex + 1, p, limit, now)
  }

  // ----- the two mutually recursive procedures

  method SigVerificationGasConsumer(meter: GasMeter, key: PubKey, data: SigData, p: AuthParams) returns (o: Outcome)
    modifies meter
    ensures (o, meter.consumed) == VerifyGas(key, data, p, meter.limit, old(meter.consumed))
    decreases key
  {
    match key
    case Secp256k1 =>
      o := meter.ConsumeGas(p.sigVerifyCostSecp256k1);
    case EthSecp256k1 =>
      o := meter.ConsumeGas(SECP256K1_VERIFY_COST);
    case Ed25519 =>
      o := meter.ConsumeGas(p.sigVerifyCostED25519);
      if o == Success {
        o := InvalidPubKey;
      }
    case Multisig(_) =>
      if !data.MultiSig? {
        return WrongSignatureData;
      }
      o := ConsumeMultisignatureVerificationGas(meter, data, key, p);
    case OtherKey =>
      o := InvalidPubKey;
  }

  method ConsumeMultisignatureVerificationGas(meter: GasMeter, data: SigData, key: PubKey, p: AuthParams)
    returns (o: Outcome)
    requires key.Multisig? && data.MultiSig?
    modifies meter
    ensures (o, meter.consumed) == BitsGas(key, data, 0, 0, p, meter.limit, old(meter.consumed))
    decreases key, 0
  {
    var size := |data.bits|;
    var sigIndex := 0;
    for i := 0 to size
      invariant BitsGas(key, data, i, sigIndex, p, meter.limit, meter.consumed)
                == BitsGas(key, data, 0, 0, p, meter.limit, old(meter.consumed))
    {
      if !data.bits[i] {
        continue;
      }
      if i >= |key.keys| || sigIndex >= |data.sigs| {
        return IndexOutOfRange;
      }
      var err := SigVerificationGasConsumer(meter, key.keys[i], data.sigs[sigIndex], p);
      if err != Success {
        return err;
      }
      sigIndex := sigIndex + 1;
    }
    return Success;
  }

  // ----- what is verified and what it costs, without a meter

  function Popcount(bits: seq<bool>): nat {
    if bits == [] then 0 else Popcount(bits[..|bits| - 1]) + (if bits[|bits| - 1] then 1 else 0)
  }

  lemma {:induction false} PopcountMonotone(bits: seq<bool>, i: nat, j: nat)
    requires i <= j <= |bits|
    ensures Popcount(bits[..i]) <= Popcount(bits[..j])
    decreases j
  {
    if i < j {
      assert bits[..j][..j - 1] == bits[..j - 1];
      PopcountMonotone(bits, i, j - 1);
    }
  }

  /** A set bit's signature index is below the number of set bits. */
  lemma PrefixPopcountInRange(bits: seq<bool>, i: nat)
    requires i < |bits| && bits[i]
    ensures Popcount(bits[..i]) < Popcount(bits)
  {
    assert bits[..i + 1][..i] == bits[..i];
    PopcountMonotone(bits, i + 1, |bits|);
    assert bits[..|bits|] == bits;
  }

  /** Every level has a key for each set bit and at least as many signatures as set bits. */
  predicate Shaped(key: PubKey, data: SigData)
    decreases key, 0
  {
    key.Multisig? ==>
      && data.MultiSig?
      && Popcount(data.bits) <= |data.sigs|
      && forall i | 0 <= i < |data.bits| && data.bits[i] ::
           && i < |key.keys|
           && (PrefixPopcountInRange(data.bits, i);
               Shaped(key.keys[i], data.sigs[Popcount(data.bits[..i])]))
  }

  /** The leaf keys whose signatures are present, bit `i` taking signature number `Popcount(bits[..i])`. */
  function Leaves(key: PubKey, data: SigData): seq<PubKey>
    requires Shaped(key, data)
    decreases key
  {
    if key.Multisig? then LeavesFrom(key, data, 0) else [key]
  }

  function LeavesFrom(key: PubKey, data: SigData, i: nat): seq<PubKey>
    requires key.Multisig? && Shaped(key, data) && i <= |data.bits|
    decreases key, |data.bits| - i + 1
  {
    if i == |data.bits| then []
    else if !data.bits[i] then LeavesFrom(key, data, i + 1)
    else
      PrefixPopcountInRange(data.bits, i);
      Leaves(key.keys[i], data.sigs[Popcount(data.bits[..i])]) + LeavesFrom(key, data, i + 1)
  }

  predicate Supported(leaf: PubKey) { leaf.Secp256k1? || leaf.EthSecp256k1? }

  function LeafCost(leaf: PubKey, p: AuthParams): nat {
    if leaf.Secp256k1? then p.sigVerifyCostSecp256k1 else if leaf.EthSecp256k1? then SECP256K1_VERIFY_COST else 0
  }

  function Cost(leaves: seq<PubKey>, p: AuthParams): nat {
    if leaves == [] then 0 else LeafCost(leaves[0], p) + Cost(leaves[1..], p)
  }

  lemma {:induction false} CostAppend(a: seq<PubKey>, b: seq<PubKey>, p: AuthParams)
    ensures Cost(a + b, p) == Cost(a, p) + Cost(b, p)
  {
    if a == [] {
      assert a + b == b;
    } else {
      assert (a + b)[1..] == a[1..] + b;
      CostAppend(a[1..], b, p);
    }
  }

  predicate AllSupported(leaves: seq<PubKey>) { forall l | l in leaves :: Supported(l) }

  /** The leaves can be paid for; with none there is nothing to pay. */
  predicate Payable(leaves: seq<PubKey>, p: AuthParams, limit: Option<nat>, used: nat) {
    leaves == [] || limit.None? || used + Cost(leaves, p) <= limit.value
  }

  /** For well-shaped signatures nothing is out of range; verification succeeds exactly when every
      selected leaf is of a supported type and the meter can pay for all of them, and then the gas
      consumed is the sum of their costs. */
  lemma {:induction false} GasIsSumOfLeaves(key: PubKey, data: SigData, p: AuthParams, limit: Option<nat>, used: nat)
    requires Shaped(key, data)
    ensures var (o, now) := VerifyGas(key, data, p, limit, used);
            var leaves := Leaves(key, data);
            && o != IndexOutOfRange && o != WrongSignatureData
            && (o == Success <==> AllSupported(leaves) && Payable(leaves, p, limit, used))
            && (o == Success ==> now == used + Cost(leaves, p))
    decreases key
  {
    if key.Multisig? {
      BitsGasIsSumOfLeaves(key, data, 0, p, limit, used);
    } else {
      assert Cost([key], p) == LeafCost(key, p);
      assert key in [key];
    }
  }

  lemma {:induction false} BitsGasIsSumOfLeaves(key: PubKey, data: SigData, i: nat, p: AuthParams, limit: Option<nat>,
          used: nat)
    requires key.Multisig? && Shaped(key, data) && i <= |data.bits|
    ensures var (o, now) := BitsGas(key, data, i, Popcount(data.bits[..i]), p, limit, used);
            var leaves := LeavesFrom(key, data, i);
            && o != IndexOutOfRange && o != WrongSignatureData
            && (o == Success <==> AllSupported(leaves) && Payable(leaves, p, limit, used))
            && (o == Success ==> now == used + Cost(leaves, p))
    decreases key, |data.bits| - i + 1
  {
    hide Shaped, AllSupported, Payable, Cost, Popcount, VerifyGas, Leaves;
    ShapedIsMulti(key, data);
    if i == |data.bits| {
      NoLeaves(p, limit, used);
    } else {
      PopcountStep(data.bits, i);
      if !data.bits[i] {
        BitsGasIsSumOfLeaves(key, data, i + 1, p, limit, used);
      } else {
        var s := Popcount(data.bits[..i]);
        ChildShaped(key, data, i);
        var first, rest := Leaves(key.keys[i], data.sigs[s]), LeavesFrom(key, data, i + 1);
        GasIsSumOfLeaves(key.keys[i], data.sigs[s], p, limit, used);
        var (o, now) := VerifyGas(key.keys[i], data.sigs[s], p, limit, used);
        Split(first, rest, p, limit, used);
        if o == Success {
          BitsGasIsSumOfLeaves(key, data, i + 1, p, limit, now);
        }
      }
    }
  }

  lemma NoLeaves(p: AuthParams, limit: Option<nat>, used: nat)
    ensures AllSupported([]) && Payable([], p, limit, used) && Cost([], p) == 0
  {
  }

  /** Two groups of leaves are fine together exactly when the first is fine and the second is fine after it. */
  lemma Split(first: seq<PubKey>, rest: seq<PubKey>, p: AuthParams, limit: Option<nat>, used: nat)
    ensures Cost(first + rest, p) == Cost(first, p) + Cost(rest, p)
    ensures AllSupported(first + rest) <==> AllSupported(first) && AllSupported(rest)
    ensures Payable(first + rest, p, limit, used) <==>
              Payable(first, p, limit, used) && Payable(rest, p, limit, used + Cost(first, p))
  {
    CostAppend(first, rest, p);
    assert forall l | l in first :: l in first + rest;
    assert forall l | l in rest :: l in first + rest;
    if first == [] {
      assert first + rest == rest;
    }
    if rest == [] {
      assert first + rest == first;
    }
  }

  lemma ShapedIsMulti(key: PubKey, data: SigData)
    requires key.Multisig? && Shaped(key, data)
    ensures data.MultiSig?
  {
  }

  lemma ChildShaped(key: PubKey, data: SigData, i: nat)
    requires key.Multisig? && Shaped(key, data) && i < |data.bits| && data.bits[i]
    ensures i < |key.keys| && Popcount(data.bits[..i]) < |data.sigs|
    ensures Shaped(key.keys[i], data.sigs[Popcount(data.bits[..i])])
  {
    PrefixPopcountInRange(data.bits, i);
  }

  /** Nothing but well-shaped signatures gets through: a missing key or signature panics. */
  lemma {:induction false} SuccessIsShaped(key: PubKey, data: SigData, p: AuthParams, limit: Option<nat>, used: nat)
    requires VerifyGas(key, data, p, limit, used).0 == Success
    ensures Shaped(key, data)
    decreases key
  {
    if key.Multisig? {
      assert Popcount(data.bits[..0]) == 0;
      BitsSuccessIsShaped(key, data, 0, p, limit, used);
      forall i | 0 <= i < |data.bits| && data.bits[i]
        ensures i < |key.keys| && Popcount(data.bits[..i]) < |data.sigs|
            && Shaped(key.keys[i], data.sigs[Popcount(data.bits[..i])])
      {
        assert ChildGood(key, data, i);
      }
    }
  }

  predicate ChildGood(key: PubKey, data: SigData, i: nat)
    requires key.Multisig? && data.MultiSig? && i < |data.bits|
  {
    data.bits[i] ==>
      i < |key.keys| && Popcount(data.bits[..i]) < |data.sigs|
          && Shaped(key.keys[i], data.sigs[Popcount(data.bits[..i])])
  }

  lemma {:induction false} BitsSuccessIsShaped(key: PubKey, data: SigData, i: nat, p: AuthParams, limit: Option<nat>,
          used: nat)
    requires key.Multisig? && data.MultiSig? && i <= |data.bits| && Popcount(data.bits[..i]) <= |data.sigs|
    requires BitsGas(key, data, i, Popcount(data.bits[..i]), p, limit, used).0 == Success
    ensures Popcount(data.bits) <= |data.sigs|
    ensures forall j | i <= j < |data.bits| :: ChildGood(key, data, j)
    decreases key, |data.bits| - i + 1
  {
    hide Shaped, Popcount;
    if i == |data.bits| {
      assert data.bits[..i] == data.bits;
    } else {
      PopcountStep(data.bits, i);
      if !data.bits[i] {
        BitsSuccessIsShaped(key, data, i + 1, p, limit, used);
      } else {
        var s := Popcount(data.bits[..i]);
        SuccessIsShaped(key.keys[i], data.sigs[s], p, limit, used);
        var (_, now) := VerifyGas(key.keys[i], data.sigs[s], p, limit, used);
        BitsSuccessIsShaped(key, data, i + 1, p, limit, now);
      }
    }
  }

  lemma PopcountStep(bits: seq<bool>, i: nat)
    requires i < |bits|
    ensures Popcount(bits[..i + 1]) == Popcount(bits[..i]) + if bits[i] then 1 else 0
  {
    assert bits[..i + 1][..i] == bits[..i];
  }

  /** What one key costs and how it ends: an Ethereum key 21000 gas, a secp256k1 key what the parameters
      say; an ed25519 key consumes its gas and is refused; any other is refused without gas. Running over
      the limit comes first. */
  lemma SingleKeyGas(key: PubKey, data: SigData, p: AuthParams, limit: Option<nat>, used: nat)
    requires !key.Multisig?
    ensures var (o, now) := VerifyGas(key, data, p, limit, used);
            var cost := match key
                        case Secp256k1 => p.sigVerifyCostSecp256k1
                        case EthSecp256k1 => 21000
                        case Ed25519 => p.sigVerifyCostED25519
                        case _ => 0;
            && now == used + cost
            && o == (if key.OtherKey? then InvalidPubKey
                     else if limit.Some? && now > limit.value then OutOfGas
                     else if key.Ed25519? then InvalidPubKey
                     else Success)
  {
  }

  /** A multisig key with a single signature is refused before any gas is consumed. */
  lemma SingleSignatureRefused(key: PubKey, p: AuthParams, limit: Option<nat>, used: nat)
    requires key.Multisig?
    ensures VerifyGas(key, SingleSig, p, limit, used) == (WrongSignatureData, used)
  {
  }
}

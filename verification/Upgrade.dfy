/** The v5 migration, client of the codec: old parameters are parsed and carried over, and the
    stored precompile lists are cut into addresses. */
module Upgrade {
  import opened Wrappers
  import opened Varint
  import opened Wire
  import opened Messages
  import opened MessageUnmarshal
  import opened CodecTheorems

  /** The fields of the new module's parameters the migration touches; `rest` is everything else. */
  datatype EvmParams = EvmParams(
    evmDenom: bytes, activeStaticPrecompiles: seq<bytes>, evmChannels: seq<bytes>, allowUnprotectedTxs: bool,
    rest: bytes)

  /** `Refused`: the EVM module does not accept the parameters. */
  datatype Outcome = Done | Failed(error: Error) | Refused | Panicked

  const ADDRESS_LENGTH := 42

  /** What the migration stores for the bytes found under the old parameters' key. */
  function Migrated<C>(cc: ChainCodec<C>, defaults: EvmParams, denom: bytes,
          oldData: Option<bytes>): Result<EvmParams, Error>
  {
    var prior :- if oldData.Some? then ParseParams(cc, ZeroParams(cc), oldData.value) else Ok(ZeroParams(cc));
    Ok(defaults.(evmDenom := denom, activeStaticPrecompiles := prior.activeStaticPrecompiles,
                 evmChannels := prior.evmChannels, allowUnprotectedTxs := prior.allowUnprotectedTxs))
  }

  /** Whatever parameters the old version had marshalled, their precompiles, channels and
      unprotected-transaction flag come out of the migration unchanged. */
  lemma MigrationCarriesOver<C(!new)>(cc: ChainCodec<C>, defaults: EvmParams, denom: bytes, prior: Params<C>)
    requires Lawful(cc) && |EncParams(cc, prior)| < TWO63
    ensures var r := Migrated(cc, defaults, denom, Some(EncParams(cc, prior)));
            && r.Ok?
            && r.value == EvmParams(denom, prior.activeStaticPrecompiles, prior.evmChannels, prior.allowUnprotectedTxs,
                defaults.rest)
  {
    hide ParseParams, EncParams;
    ParamsRoundTrip(cc, prior);
  }

  /** With nothing stored the lists come out empty and the flag off; with bytes that do not parse, the
      parser's error does. All else is the new module's defaults, but for the denom. */
  lemma MigrationOfNothing<C>(cc: ChainCodec<C>, defaults: EvmParams, denom: bytes, oldData: Option<bytes>)
    ensures oldData.None? ==>
              Migrated(cc, defaults, denom, oldData) == Ok(EvmParams(denom, [], [], false, defaults.rest))
    ensures oldData.Some? && ParseParams(cc, ZeroParams(cc), oldData.value).Err? ==>
              Migrated(cc, defaults, denom, oldData) == Err(ParseParams(cc, ZeroParams(cc), oldData.value).error)
    ensures Migrated(cc, defaults, denom, oldData).Ok? ==>
              var migrated := Migrated(cc, defaults, denom, oldData).value;
              migrated.evmDenom == denom && migrated.rest == defaults.rest
  {
    hide ParseParams;
  }

  // ----- precompile lists

  function Chunks(d: bytes): seq<bytes>
    requires |d| % ADDRESS_LENGTH == 0
  {
    if d == [] then [] else [d[..ADDRESS_LENGTH]] + Chunks(d[ADDRESS_LENGTH..])
  }

  function Concat(xs: seq<bytes>): bytes {
    if xs == [] then [] else xs[0] + Concat(xs[1..])
  }

  /** The stored list is read back as the addresses it was built from. */
  lemma {:induction false} ChunksOfConcat(xs: seq<bytes>)
    requires forall x | x in xs :: |x| == ADDRESS_LENGTH
    ensures |Concat(xs)| % ADDRESS_LENGTH == 0 && Chunks(Concat(xs)) == xs
  {
    if xs != [] {
      ChunksOfConcat(xs[1..]);
      var d := Concat(xs);
      assert d[..ADDRESS_LENGTH] == xs[0] && d[ADDRESS_LENGTH..] == Concat(xs[1..]);
    }
  }

  lemma {:induction false} ChunksExtend(d: bytes, k: nat)
    requires |d| % ADDRESS_LENGTH == 0 && k % ADDRESS_LENGTH == 0 && k < |d|
    ensures k + ADDRESS_LENGTH <= |d|
    ensures |d[..k]| % ADDRESS_LENGTH == 0 && |d[..k + ADDRESS_LENGTH]| % ADDRESS_LENGTH == 0
    ensures Chunks(d[..k + ADDRESS_LENGTH]) == Chunks(d[..k]) + [d[k..k + ADDRESS_LENGTH]]
    decreases k
  {
    if k > 0 {
      var e := d[ADDRESS_LENGTH..];
      ChunksExtend(e, k - ADDRESS_LENGTH);
      assert d[..k][..ADDRESS_LENGTH] == d[..ADDRESS_LENGTH] == d[..k + ADDRESS_LENGTH][..ADDRESS_LENGTH];
      assert d[..k][ADDRESS_LENGTH..] == e[..k - ADDRESS_LENGTH];
      assert d[..k + ADDRESS_LENGTH][ADDRESS_LENGTH..] == e[..k];
      assert e[k - ADDRESS_LENGTH..k] == d[k..k + ADDRESS_LENGTH];
    } else {
      assert d[..ADDRESS_LENGTH][..ADDRESS_LENGTH] == d[..ADDRESS_LENGTH];
      assert d[..ADDRESS_LENGTH][ADDRESS_LENGTH..] == [];
    }
  }

  // ----- the stores

  const KEY_DYNAMIC: string := "DynamicPrecompiles"
  const KEY_NATIVE: string := "NativePrecompiles"

  /** The two modules' stores as the upgrade handler sees them. */
  class Stores<C, A(==)> {
    const chainCodec: ChainCodec<C>
    const toAddress: bytes -> A
    const defaults: EvmParams
    const coinDenom: bytes
    const keyPrefixParams: string
    const acceptable: EvmParams -> bool  // what `SetParams` of the EVM module accepts
    var evmStore: map<string, bytes>
    var evmParams: EvmParams
    var erc20Store: map<string, bytes>
    var dynamicPrecompiles: set<A>
    var nativePrecompiles: set<A>
    var permissionlessRegistration: bool

    constructor (chainCodec: ChainCodec<C>, toAddress: bytes -> A, defaults: EvmParams, coinDenom: bytes,
                 keyPrefixParams: string, acceptable: EvmParams -> bool,
                 evmStore: map<string, bytes>, erc20Store: map<string, bytes>)
      ensures this.chainCodec == chainCodec && this.toAddress == toAddress
      ensures this.defaults == defaults && this.coinDenom == coinDenom
      ensures this.keyPrefixParams == keyPrefixParams && this.acceptable == acceptable
      ensures this.evmStore == evmStore && this.erc20Store == erc20Store
      ensures dynamicPrecompiles == {} && nativePrecompiles == {} && !permissionlessRegistration
    {
      this.chainCodec, this.toAddress, this.defaults, this.coinDenom := chainCodec, toAddress, defaults, coinDenom;
      this.keyPrefixParams, this.acceptable := keyPrefixParams, acceptable;
      this.evmStore, this.erc20Store, this.evmParams := evmStore, erc20Store, defaults;
      dynamicPrecompiles, nativePrecompiles, permissionlessRegistration := {}, {}, false;
    }

    method MigrateEVMParams() returns (outcome: Outcome)
      requires keyPrefixParams in evmStore ==> |evmStore[keyPrefixParams]| < TWO63
      modifies this`evmParams
      ensures var oldData := if keyPrefixParams in evmStore then Some(evmStore[keyPrefixParams]) else None;
              match Migrated(chainCodec, defaults, coinDenom, oldData)
              case Ok(p) =>
                if acceptable(p) then outcome == Done && evmParams == p
                else outcome == Refused && evmParams == old(evmParams)
              case Err(e) => outcome == Failed(e) && evmParams == old(evmParams)
    {
      hide ParseParams;
      var oldParams := ZeroParams(chainCodec);
      if keyPrefixParams in evmStore {
        var parsed := UnmarshalParams(chainCodec, oldParams, evmStore[keyPrefixParams]);
        if parsed.Err? {
          return Failed(parsed.error);
        }
        oldParams := parsed.value;
      }
      var params := defaults;
      params := params.(evmDenom := coinDenom);
      params := params.(activeStaticPrecompiles := oldParams.activeStaticPrecompiles);
      params := params.(evmChannels := oldParams.evmChannels);
      params := params.(allowUnprotectedTxs := oldParams.allowUnprotectedTxs);
      if !acceptable(params) {
        return Refused;
      }
      evmParams := params;
      return Done;
    }

    function Addresses(d: bytes): set<A>
      requires |d| % ADDRESS_LENGTH == 0
    {
      set c | c in Chunks(d) :: toAddress(c)
    }

    /** The addresses a stored list stands for; a slice past its end panics (its capacity is taken to be its length). */
    method ReadAddresses(oldData: bytes) returns (r: Option<set<A>>)
      ensures r == if |oldData| % ADDRESS_LENGTH != 0 then None
                   else Some(Addresses(oldData))
    {
      var found: set<A> := {};
      var i := 0;
      while i < |oldData|
        invariant i % ADDRESS_LENGTH == 0 && i <= |oldData|
        invariant |oldData| % ADDRESS_LENGTH == 0
            ==> |oldData[..i]| % ADDRESS_LENGTH == 0 && found == Addresses(oldData[..i])
      {
        if |oldData| % ADDRESS_LENGTH == 0 {
          ChunksExtend(oldData, i);
        }
        if i + ADDRESS_LENGTH > |oldData| {
          return None;
        }
        found := found + {toAddress(oldData[i..i + ADDRESS_LENGTH])};
        i := i + ADDRESS_LENGTH;
      }
      assert i >= |oldData| && (|oldData| % ADDRESS_LENGTH == 0 ==> i == |oldData|);
      assert oldData[..|oldData|] == oldData;
      return Some(found);
    }

    method MigrateERC20() returns (outcome: Outcome)
      modifies this`dynamicPrecompiles, this`nativePrecompiles, this`erc20Store, this`permissionlessRegistration
      ensures var dyn := if KEY_DYNAMIC in old(erc20Store) then old(erc20Store)[KEY_DYNAMIC] else [];
              var nat' := if KEY_NATIVE in old(erc20Store) then old(erc20Store)[KEY_NATIVE] else [];
              if |dyn| % ADDRESS_LENGTH != 0 || |nat'| % ADDRESS_LENGTH != 0 then outcome == Panicked
              else
                && outcome == Done && permissionlessRegistration
                && dynamicPrecompiles == old(dynamicPrecompiles) + Addresses(dyn)
                && nativePrecompiles == old(nativePrecompiles) + Addresses(nat')
                && (forall k | k in erc20Store :: k in old(erc20Store) && erc20Store[k] == old(erc20Store)[k])
                && (forall k | k in old(erc20Store) ::
                      k in erc20Store <==> !((k == KEY_DYNAMIC && dyn != []) || (k == KEY_NATIVE && nat' != [])))
    {
      var oldData: bytes := if KEY_DYNAMIC in erc20Store then erc20Store[KEY_DYNAMIC] else [];
      if |oldData| > 0 {
        var found := ReadAddresses(oldData);
        if found.None? {
          return Panicked;
        }
        dynamicPrecompiles := dynamicPrecompiles + found.value;
        erc20Store := erc20Store - {KEY_DYNAMIC};
      }
      oldData := if KEY_NATIVE in erc20Store then erc20Store[KEY_NATIVE] else [];
      if |oldData| > 0 {
        var found := ReadAddresses(oldData);
        if found.None? {
          return Panicked;
        }
        nativePrecompiles := nativePrecompiles + found.value;
        erc20Store := erc20Store - {KEY_NATIVE};
      }
      assert Addresses([]) == {};
      permissionlessRegistration := true;
      return Done;
    }
  }
}

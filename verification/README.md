# Verification model of the v5 migration codec, the fee abstraction module, two ante checks and the oracle

This project models four parts of the chain in Dafny and proves properties of them.

* **The protobuf codec of the v5 migration** (`Varint`, `Wire`, `Messages`, `CodecTheorems`, `CodecLayout`, `Marshal`,
  `MessageMarshal`, `Unmarshal`, `MessageUnmarshal`, `Upgrade`). A list of fields is the meaning of a message on the
  wire ("Base 128 Varints", "Length-Delimited Records", "Groups" and "Last One Wins" of the Protocol Buffers
  Encoding guide). The marshallers are methods that fill an array from its end; the parsers are loops over an index.
  Both are proved equal to functions on byte sequences, and the round trips, the merge law, the fold law and the
  treatment of unknown fields are lemmas about these functions. The migration is a client of the codec.
* **Fee abstraction** (`Decimal`, `FeeMath`, `FeeState`, `FeePrices`, `FeeDrift`, `FeePromises`, `FeeConversion`,
  `FeeKeeper`). Decimals are integers scaled by 10^18, with the rounding of each operation written out. The keeper is a
  class; its methods are proved against a state machine of block and governance steps, over whose runs the invariants
  are proved.
* **Two ante checks**: gas of nested multisigs (`SigGas`) and the stake scan for votes (`VoteStake`).
* **The oracle** (`Ordering`, `OracleBallot`, `OracleTally`, `OracleState`, `OracleSlash`, `OracleKeeper`,
  `OracleGrouping`, `OracleRates`, `OracleVotes`, `OracleVerdict`, `OracleWhitelist`, `OracleRuns`,
  `OracleClose`, `OracleCounters`, `OracleExamples`).
  A `range` over a Go map is a loop that picks its next key arbitrarily, and the unstable sort returns an arbitrary
  ascending arrangement. The end of block is proved to reach one state that is a function of the old one, so all nodes
  agree. Conservation laws are proved over all runs.

## Where code and documentation disagree

The model follows the code.

* `x/feeabstraction/README.md:36` gives a token's price as its USD price over that of the gas token;
  `x/feeabstraction/types/fee.go:20` computes the native price over the token's, and so does the model.
  `FeePromises.FormulasDiffer` gives an input, `FeePromises.FormulasAgreeIff` says exactly when the two agree.
* The comment on `ClampPrice` promises a price within the factor of the previous one. To the last digit that holds
  exactly under the condition of `FeeMath.ClampPromiseToTheDigit`, `FeeMath.ClampExceedsFactor` being an input where it
  fails; up to half a unit it holds exactly for factors other than zero, which switches the clamp off
  (`FeeMath.ClampPromise`).
* `x/feeabstraction/README.md:45` says a token whose price goes to zero is disabled. The code disables it when its TWAP
  is zero or missing; a price that rounds to zero leaves it enabled. `FeePromises.ZeroPriceDisables` says for every
  block exactly when that happens. `FeePromises.EnabledAtPriceZero` and `FeePromises.PriceZeroIsReachable` give blocks
  and runs in which it does.
* A success count reads as being in band on every target. `OracleVerdict.SuccessAgainstInBand` says exactly when it
  is, and `OracleExamples.InBandEverywhereYetMiss` gives a reachable state where it is not.
* The refresh of the vote targets is meant to leave the whitelist as targets. `OracleWhitelist.WhitelistExactness` says
  for every whitelist exactly when it does; `OracleExamples.FailingBallotKeepsStaleTarget` and
  `OracleWhitelist.RepeatedNameKeepsStaleTarget` give states where it does not.
* The error log in the slash walk says a counter without votes should never happen. Genesis stores counters unchecked:
  `OracleRuns.EmptyCountersAre` says exactly which are empty in a reachable state, and `OracleRuns.EmptyCounterIsMet`
  gives a run in which the walk meets one. From a genesis without any, `OracleRuns.ZeroVotesUnreachable` rules them out.

## Parameters of the model

Taken as inputs: the TWAPs of each block (or their failure), the staking view (validators in power order, bonded and
jailed flags, total bonded power, refused slashes), block height and time, bank and ERC20 balances, delegations and
address and coin parsing, the permission to feed, the EVM coin denom, default and acceptable parameters, and the codec
of the chain configuration.

## Model

| member | source | states |
|---|---|---|
| Varint.EncodeVarint | app/upgrades/v5_0/evm.pb.go:1838-1848 | writes exactly the base-128 digits of `v` right in front of `offset`, returns where they start, and leaves every other byte of the buffer as it was |
| Varint.SovIsDigitCount | app/upgrades/v5_0/evm.pb.go:2185-2187 | for every 64-bit value the bit-length formula is the number of digits the encoder writes |
| CodecLayout.DigitsAre | app/upgrades/v5_0/evm.pb.go:1838-1848 | the digits of every value: their weighted sum is the value, all but the last carry the continuation bit, and none is superfluous |
| CodecLayout.VarintReads | app/upgrades/v5_0/evm.pb.go:4637-4650 | a varint ending within ten bytes reads as its digits' value; ten continued bytes are an overflow, and running out before is an unexpected end |
| Varint.Uint64RoundTrip | app/upgrades/v5_0/evm.pb.go:1838-1848 | reading the digits written for any 64-bit value gives the value and its digit count, whatever bytes follow |
| Varint.DecodeVarint | app/upgrades/v5_0/evm.pb.go:4636-4650 | the read loop returns the digits' value modulo 2^64 and the index behind them, or the error of running out of bytes or of an eleventh digit |
| Varint.OrOfShifted | app/upgrades/v5_0/evm.pb.go:4646 | or-ing a group shifted to place n into any word below 2^n is addition; both loops use the bitwise or itself |
| Wire.TagRoundTrip | app/upgrades/v5_0/evm.pb.go:2211-2218 | a written tag is read back as its field number and wire type for every legal field number |
| CodecLayout.TagReads | app/upgrades/v5_0/evm.pb.go:2211-2218 | what a tag gives, and which numbers and wire types are refused, in terms of its value |
| CodecLayout.RecordReads | app/upgrades/v5_0/evm.pb.go:2239-2251 | what a record gives, and which lengths are invalid or cut short |
| CodecLayout.WrongTypeRefused | app/upgrades/v5_0/evm.pb.go:2221-2223 | a declared field of another wire type is refused |
| CodecLayout.SkipRefuses | app/upgrades/v5_0/evm.pb.go:4690-4699 | skipping refuses wire types six and seven and a group end where none is open |
| Wire.ParseOfEncoded | app/upgrades/v5_0/evm.pb.go:2191-2454 | parsing the bytes of any list of conforming fields is applying them one after the other |
| Wire.ParseIsFold | app/upgrades/v5_0/evm.pb.go:2191-2454 | if `xs` parses, parsing `xs + ys` is parsing `ys` into the result |
| Wire.ParseConcat | app/upgrades/v5_0/evm.pb.go:2191-2454 | the same for whole buffers: `xs + ys` parses exactly when `ys` parses into the result of `xs`, to the same message |
| Wire.SkipUnknown | app/upgrades/v5_0/evm.pb.go:4631-4708 | skipping consumes exactly the bytes of any well-formed field, arbitrarily nested groups included, at any depth |
| Wire.UnknownFieldIgnored | app/upgrades/v5_0/evm.pb.go:3549-3562 | an undeclared well-formed field or balanced group between parsed bytes and any others changes neither success nor the message |
| Unmarshal.TagAt | app/upgrades/v5_0/evm.pb.go:2195-2218 | reads a tag at an index: number, wire type, next index; end-group and non-positive numbers are errors |
| Unmarshal.RecordAt | app/upgrades/v5_0/evm.pb.go:2224-2251 | reads a length-delimited record: negative and overflowing lengths and records past the end are the errors the code reports |
| Unmarshal.SkipEvm | app/upgrades/v5_0/evm.pb.go:4631-4708 | the skipping loop terminates, reads only inside the buffer, and returns what the recursive skip over the bytes returns |
| MessageUnmarshal.UnmarshalState | app/upgrades/v5_0/evm.pb.go:3456-3569 | the parser's loop, from any starting message and on any bytes, returns the message or the error that folding the fields over the message defines |
| MessageUnmarshal.UnmarshalAccessTuple | app/upgrades/v5_0/evm.pb.go:4197-4310 | the parser's loop, from any starting message and on any bytes, returns the message or the error that folding the fields over the message defines |
| MessageUnmarshal.UnmarshalAccessControlType | app/upgrades/v5_0/evm.pb.go:2571-2671 | the parser's loop, from any starting message and on any bytes, returns the message or the error that folding the fields over the message defines |
| MessageUnmarshal.UnmarshalAccessControl | app/upgrades/v5_0/evm.pb.go:2455-2570 | the parser's loop, from any starting message and on any bytes, returns the message or the error that folding the fields over the message defines |
| MessageUnmarshal.UnmarshalLog | app/upgrades/v5_0/evm.pb.go:3686-3974 | the parser's loop, from any starting message and on any bytes, returns the message or the error that folding the fields over the message defines |
| MessageUnmarshal.UnmarshalTransactionLogs | app/upgrades/v5_0/evm.pb.go:3570-3685 | the parser's loop, from any starting message and on any bytes, returns the message or the error that folding the fields over the message defines |
| MessageUnmarshal.UnmarshalTxResult | app/upgrades/v5_0/evm.pb.go:3975-4196 | the parser's loop, from any starting message and on any bytes, returns the message or the error that folding the fields over the message defines |
| MessageUnmarshal.UnmarshalParams | app/upgrades/v5_0/evm.pb.go:2191-2454 | the parser's loop, from any starting message and on any bytes, returns the message or the error that folding the fields over the message defines |
| MessageMarshal.SizeState | app/upgrades/v5_0/evm.pb.go:2012-2027 | the computed size is the length of the encoding |
| MessageMarshal.StateToSizedBuffer | app/upgrades/v5_0/evm.pb.go:1463-1483 | on any buffer with room writes the encoding into its last `Size()` bytes, leaves all bytes before and behind untouched, and returns `Size()` |
| MessageMarshal.MarshalState | app/upgrades/v5_0/evm.pb.go:1448-1456 | returns exactly the encoding |
| MessageMarshal.SizeAccessTuple | app/upgrades/v5_0/evm.pb.go:2120-2137 | the computed size is the length of the encoding |
| MessageMarshal.AccessTupleToSizedBuffer | app/upgrades/v5_0/evm.pb.go:1698-1720 | on any buffer with room writes the encoding into its last `Size()` bytes, leaves all bytes before and behind untouched, and returns `Size()` |
| MessageMarshal.MarshalAccessTuple | app/upgrades/v5_0/evm.pb.go:1683-1691 | returns exactly the encoding |
| MessageMarshal.SizeAccessControlType | app/upgrades/v5_0/evm.pb.go:1900-1916 | the computed size is the length of the encoding |
| MessageMarshal.AccessControlTypeToSizedBuffer | app/upgrades/v5_0/evm.pb.go:1147-1167 | on any buffer with room writes the encoding into its last `Size()` bytes, leaves all bytes before and behind untouched, and returns `Size()` |
| MessageMarshal.MarshalAccessControlType | app/upgrades/v5_0/evm.pb.go:1132-1140 | returns exactly the encoding |
| MessageMarshal.SizeAccessControl | app/upgrades/v5_0/evm.pb.go:1887-1898 | the computed size is the length of the encoding |
| MessageMarshal.AccessControlToSizedBuffer | app/upgrades/v5_0/evm.pb.go:1104-1130 | on any buffer with room writes the encoding into its last `Size()` bytes, leaves all bytes before and behind untouched, and returns `Size()` |
| MessageMarshal.MarshalAccessControl | app/upgrades/v5_0/evm.pb.go:1089-1097 | returns exactly the encoding |
| MessageMarshal.SizeLog | app/upgrades/v5_0/evm.pb.go:2048-2089 | the computed size is the length of the encoding |
| MessageMarshal.LogToSizedBuffer | app/upgrades/v5_0/evm.pb.go:1544-1612 | on any buffer with room writes the encoding into its last `Size()` bytes, leaves all bytes before and behind untouched, and returns `Size()` |
| MessageMarshal.MarshalLog | app/upgrades/v5_0/evm.pb.go:1529-1537 | returns exactly the encoding |
| MessageMarshal.SizeTransactionLogs | app/upgrades/v5_0/evm.pb.go:2029-2046 | the computed size is the length of the encoding |
| MessageMarshal.TransactionLogsToSizedBuffer | app/upgrades/v5_0/evm.pb.go:1500-1527 | on any buffer with room writes the encoding into its last `Size()` bytes, leaves all bytes before and behind untouched, and returns `Size()` |
| MessageMarshal.MarshalTransactionLogs | app/upgrades/v5_0/evm.pb.go:1485-1493 | returns exactly the encoding |
| MessageMarshal.SizeTxResult | app/upgrades/v5_0/evm.pb.go:2091-2118 | the computed size is the length of the encoding |
| MessageMarshal.TxResultToSizedBuffer | app/upgrades/v5_0/evm.pb.go:1629-1681 | on any buffer with room writes the encoding into its last `Size()` bytes, leaves all bytes before and behind untouched, and returns `Size()` |
| MessageMarshal.MarshalTxResult | app/upgrades/v5_0/evm.pb.go:1614-1622 | returns exactly the encoding |
| MessageMarshal.SizeParams | app/upgrades/v5_0/evm.pb.go:1849-1885 | the computed size is the length of the encoding |
| MessageMarshal.ParamsToSizedBuffer | app/upgrades/v5_0/evm.pb.go:1017-1087 | on any buffer with room writes the encoding into its last `Size()` bytes, leaves all bytes before and behind untouched, and returns `Size()` |
| MessageMarshal.MarshalParams | app/upgrades/v5_0/evm.pb.go:1002-1010 | returns exactly the encoding |
| CodecTheorems.StateMerges | app/upgrades/v5_0/evm.pb.go:3456-3569 | parsing an encoded message into any existing one succeeds and gives their merge: set scalars win, repeated fields are joined, sub-messages merged |
| CodecTheorems.StateRoundTrip | app/upgrades/v5_0/evm.pb.go:1463-1483 | for every message value, parsing its encoding into the zero message gives it back |
| CodecTheorems.AccessTupleMerges | app/upgrades/v5_0/evm.pb.go:4197-4310 | parsing an encoded message into any existing one succeeds and gives their merge: set scalars win, repeated fields are joined, sub-messages merged |
| CodecTheorems.AccessTupleRoundTrip | app/upgrades/v5_0/evm.pb.go:1698-1720 | for every message value, parsing its encoding into the zero message gives it back, empty repeated strings included |
| CodecTheorems.AccessControlTypeMerges | app/upgrades/v5_0/evm.pb.go:2571-2671 | parsing an encoded message into any existing one succeeds and gives their merge: set scalars win, repeated fields are joined, sub-messages merged |
| CodecTheorems.AccessControlTypeRoundTrip | app/upgrades/v5_0/evm.pb.go:1147-1167 | for every message value, parsing its encoding into the zero message gives it back, negative enum values included |
| CodecTheorems.AccessControlMerges | app/upgrades/v5_0/evm.pb.go:2455-2570 | parsing an encoded message into any existing one succeeds and gives their merge: set scalars win, repeated fields are joined, sub-messages merged |
| CodecTheorems.AccessControlRoundTrip | app/upgrades/v5_0/evm.pb.go:1104-1130 | for every message value, parsing its encoding into the zero message gives it back |
| CodecTheorems.LogMerges | app/upgrades/v5_0/evm.pb.go:3686-3974 | parsing an encoded message into any existing one succeeds and gives their merge: set scalars win, repeated fields are joined, sub-messages merged |
| CodecTheorems.LogRoundTrip | app/upgrades/v5_0/evm.pb.go:1544-1612 | for every message value, parsing its encoding into the zero message gives it back |
| CodecTheorems.TransactionLogsMerges | app/upgrades/v5_0/evm.pb.go:3570-3685 | parsing an encoded message into any existing one succeeds and gives their merge: set scalars win, repeated fields are joined, sub-messages merged |
| CodecTheorems.TransactionLogsRoundTrip | app/upgrades/v5_0/evm.pb.go:1500-1527 | for every message value, parsing its encoding into the zero message gives it back, nested repeated messages included |
| CodecTheorems.TxResultMerges | app/upgrades/v5_0/evm.pb.go:3975-4196 | parsing an encoded message into any existing one succeeds and gives their merge: set scalars win, repeated fields are joined, sub-messages merged |
| CodecTheorems.TxResultRoundTrip | app/upgrades/v5_0/evm.pb.go:1629-1681 | for every message value, parsing its encoding into the zero message gives it back |
| CodecTheorems.ParamsMerges | app/upgrades/v5_0/evm.pb.go:2191-2454 | parsing an encoded message into any existing one succeeds and gives their merge: set scalars win, repeated fields are joined, sub-messages merged |
| CodecTheorems.ParamsRoundTrip | app/upgrades/v5_0/evm.pb.go:1017-1087 | for every message value, parsing its encoding into the zero message gives it back, for every lawful codec of the chain configuration |
| CodecTheorems.ConcatenatedParams | app/upgrades/v5_0/evm.pb.go:2191-2454 | two encodings one after the other parse to the merge of the two messages |
| CodecLayout.StateWire | app/upgrades/v5_0/evm.pb.go:1463-1483 | the encoding tag byte by tag byte, in order, with what is left out when it is zero or empty |
| CodecLayout.AccessTupleWire | app/upgrades/v5_0/evm.pb.go:1698-1720 | the encoding tag byte by tag byte, in order, with what is left out when it is zero or empty |
| CodecLayout.AccessControlTypeWire | app/upgrades/v5_0/evm.pb.go:1147-1167 | the encoding tag byte by tag byte, in order, with what is left out when it is zero or empty |
| CodecLayout.AccessControlWire | app/upgrades/v5_0/evm.pb.go:1104-1130 | the encoding tag byte by tag byte, in order, with what is left out when it is zero or empty |
| CodecLayout.LogWire | app/upgrades/v5_0/evm.pb.go:1544-1612 | the encoding tag byte by tag byte, in order, with what is left out when it is zero or empty |
| CodecLayout.TransactionLogsWire | app/upgrades/v5_0/evm.pb.go:1500-1527 | the encoding tag byte by tag byte, in order, with what is left out when it is zero or empty |
| CodecLayout.TxResultWire | app/upgrades/v5_0/evm.pb.go:1629-1681 | the encoding tag byte by tag byte, in order, with what is left out when it is zero or empty |
| CodecLayout.ParamsWire | app/upgrades/v5_0/evm.pb.go:1017-1087 | the encoding tag byte by tag byte, in order, with what is left out when it is zero or empty |
| Upgrade.MigrationCarriesOver | app/upgrades/v5_0/upgrade.go:124-138 | whatever parameters the old version had marshalled, precompiles, channels and the unprotected-transaction flag come out unchanged |
| Upgrade.MigrationOfNothing | app/upgrades/v5_0/upgrade.go:123-138 | with nothing stored the lists are empty and the flag off; unreadable bytes give the parser's error; all else is the defaults but for the denom |
| Upgrade.Stores.MigrateEVMParams | app/upgrades/v5_0/upgrade.go:110-139 | stores the migrated parameters (of the zero values if nothing was stored) if the EVM module accepts them; a refusal or a parser error is reported and stores nothing |
| Upgrade.Stores.ReadAddresses | app/upgrades/v5_0/upgrade.go:74-78 | yields the address of each 42-byte chunk; a list of any other length panics |
| Upgrade.ChunksOfConcat | app/upgrades/v5_0/upgrade.go:74-78 | a stored list is read back as the addresses it was built from, in order |
| Upgrade.Stores.MigrateERC20 | app/upgrades/v5_0/upgrade.go:58-107 | both lists end up in the new sets, exactly the non-empty old keys are deleted, registration becomes permissionless; it panics exactly when a list is not a multiple of 42 bytes |
| FeeMath.PriceErrorBound | x/feeabstraction/types/fee.go:10-24 | refused exactly for a zero operand; otherwise price times the token's value is the native value up to the rounding of one quotient |
| FeeMath.ClampStaysInBand | x/feeabstraction/types/fee.go:59-72 | a clamped price is within the factor of the previous one up to half a unit of rounding |
| FeeMath.ClampPromise | x/feeabstraction/types/fee.go:52-57 | up to half a unit of rounding the documented band holds for every new price if and only if the factor is not zero |
| FeeMath.ClampPromiseToTheDigit | x/feeabstraction/types/fee.go:52-72 | to the last digit it holds for every new price if and only if the factor is not zero and what its share of the previous price leaves over is below half a unit, or half a unit that both bounds round inwards |
| FeeMath.ClampExceedsFactor | x/feeabstraction/types/fee.go:61-70 | one clamped price that is outside the factor |
| FeeMath.ClampIdempotentMonotone | x/feeabstraction/types/fee.go:54-73 | clamping twice is clamping once, and clamping keeps the order of prices |
| FeeMath.ClampKeepsPositive | x/feeabstraction/types/fee.go:54-73 | positive prices stay positive for all inputs if and only if the factor is strictly between 0 and 1/2 |
| FeePromises.ZeroPriceDisables | x/feeabstraction/keeper/oracle.go:73-109 | for every invariant state and block: all enabled tokens end with a price if and only if none is starved, that is, its quotient rounds to zero and no clamp bound above zero holds it up |
| FeePromises.PricedTokensStayPriced | x/feeabstraction/keeper/oracle.go:103-108 | where every enabled token is priced before the block, none loses its price if and only if the factor is strictly between 0 and 1/2 |
| FeePromises.PriceZeroIsReachable | x/feeabstraction/keeper/msg_server.go:28-54 | a run that ends in an enabled token of price zero under any factor governance sets last |
| FeePromises.EnabledAtPriceZero | x/feeabstraction/keeper/oracle.go:97-108 | for every other valid factor, a valid genesis and non-zero TWAPs whose one block ends in an enabled token of price zero |
| FeePromises.FormulasAgreeIff | x/feeabstraction/types/fee.go:20 | the computed price equals the documented quotient exactly when an operand is zero or the values differ by at most the larger of them divided by twice ten to the eighteenth |
| FeePromises.FormulasDiffer | x/feeabstraction/types/fee.go:20 | the two at one input: a half against two |
| FeeMath.ChargeInTwoRoundings | x/feeabstraction/keeper/fee.go:102-113 | with an 18-decimal base the division to full tokens is exact, so a charge is rounded exactly twice |
| FeeMath.ChargeErrorBound | x/feeabstraction/types/fee.go:28-50 | the charge is off the exact rational amount by at most 1/2 + 10^(d-18)/2 |
| FeeMath.ChargeMonotone | x/feeabstraction/types/fee.go:28-50 | a larger fee or a higher price never charges less |
| FeeState.ValidateCollection | x/feeabstraction/types/params.go:125-144 | accepts exactly collections of valid tokens with distinct denoms |
| FeeState.RepriceAllPointwise | x/feeabstraction/keeper/oracle.go:59-113 | repricing succeeds exactly when every token can be repriced on its own, and then gives each its own result in place |
| FeeState.BeginBlockFailsIff | x/feeabstraction/keeper/oracle.go:97-101 | the block step fails exactly when the native price is zero and some enabled token has a non-zero TWAP |
| FeeState.BeginBlockKeepsTokens | x/feeabstraction/keeper/oracle.go:73-109 | order and identity of the tokens are kept, none is enabled, and exactly those without a TWAP are disabled, at price zero |
| FeePrices.BlockMovesPrices | x/feeabstraction/keeper/oracle.go:31-109 | for every invariant state and block, in products: an enabled token with a TWAP moves to the quotient of the native value (its TWAP or the fallback) by it, or to the bound it passed; without one it is disabled at zero; a disabled one stays |
| FeePrices.DisabledBlock | x/feeabstraction/keeper/abci.go:26-28 | a disabled module changes nothing |
| FeeState.ParamsTakeEffectIff | x/feeabstraction/keeper/msg_server.go:28-54 | exactly when a parameter message takes effect, value by value, and that only the parameters change |
| FeeState.TokensTakeEffectIff | x/feeabstraction/keeper/msg_server.go:57-93 | exactly when a token message takes effect, token by token, and that the registry is then its list |
| FeeState.FailureKeepsState | x/feeabstraction/keeper/msg_server.go:28-93 | in a run a failing block or message leaves parameters and registry as they were |
| FeeState.ReachableInv | x/feeabstraction/keeper/msg_server.go:57-93 | over every interleaving of blocks, updates and failures from a valid genesis: denoms distinct, decimals in 1..18, prices non-negative |
| FeeState.ReachablePriced | x/feeabstraction/keeper/oracle.go:71-113 | while every factor set is strictly between 0 and 1/2 every reachable enabled token has a positive price |
| FeeDrift.Drift | x/feeabstraction/keeper/oracle.go:71-113 | after any n blocks a token that stayed enabled and priced lies between p0(1-c)^n and p0(1+c)^n up to the accumulated half-unit roundings, whatever the TWAPs |
| FeeDrift.GeoClosedForm | x/feeabstraction/types/fee.go:60-61 | the accumulated roundings in closed form |
| FeeConversion.PaymentIsCovered | x/feeabstraction/keeper/fee.go:52-75 | success gives one positive coin the account can then pay from its bank balance; if native funds were short, that of the first enabled, non-zero, affordable token in list order |
| FeeConversion.FeesPassThrough | x/feeabstraction/keeper/fee.go:28-56 | fees go through unchanged, and no balance moves, in each of the five cases that need no conversion |
| FeeConversion.TransferIsExact | x/feeabstraction/keeper/fee.go:145-176 | exactly the coin paid moves from the ERC20 side to the bank side, if the bank was short, and nothing else moves |
| FeeConversion.AffordableMeans | x/feeabstraction/keeper/fee.go:145-165 | what an account can pay: its bank balance, or its ERC20 balance of a registered pair |
| FeeConversion.RefusedIff | x/feeabstraction/keeper/fee.go:28-136 | for every state and fee list, exactly when a fee is refused |
| FeeConversion.WhyRefused | x/feeabstraction/keeper/fee.go:96-136 | which error a refusal reports |
| FeeConversion.HoldingsConserved | x/feeabstraction/keeper/fee.go:142-181 | bank plus ERC20 holdings of every account and denom are conserved, other accounts untouched, and a refusal changes no balance |
| FeeConversion.ReachableErrors | x/feeabstraction/keeper/fee.go:103-111 | with a reachable registry a refusal is never the decimals error nor a negative coin |
| FeeKeeper.Keeper.InitGenesis | x/feeabstraction/keeper/genesis.go:10-23 | stores exactly a valid genesis, refuses an invalid one, and panics exactly for valid parameters with a missing collection |
| FeeKeeper.Keeper.CalculatePriceTokens | x/feeabstraction/keeper/oracle.go:59-113 | the loop computes the repricing of the stored list, or the first error |
| FeeKeeper.Keeper.CalculateFeeTokenPrices | x/feeabstraction/keeper/oracle.go:15-56 | stores the repriced tokens, or changes nothing and reports the error |
| FeeKeeper.Keeper.BeginBlocker | x/feeabstraction/keeper/abci.go:13-36 | is the block step of the runs: nothing while disabled |
| FeeKeeper.Keeper.UpdateParams | x/feeabstraction/keeper/msg_server.go:28-54 | is the governance step of the runs: the four checks in order, then exactly the parameters change |
| FeeKeeper.Keeper.UpdateFeeTokens | x/feeabstraction/keeper/msg_server.go:57-93 | is the governance step of the runs: authority, validity, known oracle denoms, then exactly the tokens change |
| FeeKeeper.Keeper.ConvertERC20ToNative | x/feeabstraction/keeper/fee.go:142-181 | true exactly when the amount is affordable; then, if the bank was short, the amount has moved from the ERC20 side; otherwise nothing moved |
| FeeKeeper.Keeper.ConvertERC20ForFees | x/feeabstraction/keeper/fee.go:88-137 | result and balances are those of taking the first token the walk ends at |
| FeeKeeper.Keeper.ConvertNativeFee | x/feeabstraction/keeper/fee.go:21-76 | result and balances are those of the specification the three conversion lemmas are about |
| SigGas.SigVerificationGasConsumer | ante/sigverify.go:36-65 | outcome and meter are those of the pure gas function, for every nesting of keys and signatures |
| SigGas.ConsumeMultisignatureVerificationGas | ante/sigverify.go:68-92 | the same for the bit loop; the mutual recursion terminates |
| SigGas.PrefixPopcountInRange | ante/sigverify.go:73-88 | the signature index of a set bit is the number of set bits before it and below their total |
| SigGas.GasIsSumOfLeaves | ante/sigverify.go:68-92 | for well-shaped nested multisigs no index is out of range; success is exactly all selected leaves supported and payable, and then the gas is the sum of their costs |
| SigGas.SuccessIsShaped | ante/sigverify.go:75-89 | nothing but well-shaped signatures succeeds |
| SigGas.SingleKeyGas | ante/sigverify.go:40-64 | cost and outcome for each kind of single key, 21000 for an Ethereum key |
| SigGas.SingleSignatureRefused | ante/sigverify.go:54-59 | a multisig key with a single signature is refused without gas |
| VoteStake.HasEnoughStake | ante/gov_vote_ante.go:84-105 | the early-exit scan accepts exactly when the first hundred delegations, missing validators counting zero, sum to the minimum |
| VoteStake.ValidateVoteMsgs | ante/gov_vote_ante.go:59-145 | a transaction passes exactly when every direct or once-wrapped vote may vote and every wrapped message can be unpacked; otherwise it fails with the first error met |
| VoteStake.MessagePassesIff | ante/gov_vote_ante.go:60-143 | exactly which messages pass: valid addresses, no minimum or the first hundred delegations reaching it, wrappers one level deep |
| VoteStake.SumIs | ante/gov_vote_ante.go:92-100 | each delegation counts once, one without a validator as nothing |
| VoteStake.StakeBehindTheLimitIgnored | ante/gov_vote_ante.go:102-104 | whatever delegations follow a voter's first hundred, no message passes or fails because of them |
| Ordering.CollectAndSort | x/oracle/abci.go:88-92 | collecting a map's keys in any order and sorting them gives one list, determined by the key set |
| Ordering.LessMeans | x/oracle/tally.go:63 | one string comes before another exactly if it is a proper prefix or has the smaller character where they first differ |
| OracleBallot.Sort | x/oracle/keeper/ballot.go:46-49 | some ascending arrangement of exactly the same votes; nothing is promised about equal rates |
| OracleBallot.WeightedMedian | x/oracle/types/ballot.go:101-122 | the scan returns the least voted rate up to which the votes hold half the power, zero for an empty ballot |
| OracleBallot.MedianOfRearranged | x/oracle/types/ballot.go:101-122 | the median is the same for every arrangement of the votes |
| OracleBallot.PowerStep | x/oracle/types/ballot.go:88-96 | each vote adds its power to the ballot's |
| OracleBallot.MedianHalves | x/oracle/types/ballot.go:107-119 | less than half the power lies below the median, at least half up to it, an odd unit aside |
| OracleBallot.ToCrossRate | x/oracle/types/ballot.go:131-162 | vote by vote: a countable vote keeps its power and its cross rate times its rate is the base up to one rounding; any other loses rate and power |
| OracleBallot.CollectRates | x/oracle/types/ballot.go:57-67 | the loop computes the reference rates |
| OracleBallot.DeviationIs | x/oracle/types/ballot.go:165-193 | the deviation is the root of the mean square distance from the median, up to rounding |
| OracleBallot.ToMapOfRearranged | x/oracle/types/ballot.go:57-67 | the reference rates are the same for every sorted arrangement |
| OracleTally.Tally | x/oracle/tally.go:82-111 | returns the median and the claims with every vote counted against the band around it |
| OracleTally.BandIs | x/oracle/tally.go:85-100 | the interval lies evenly around the median and reaches as far as the deviation or half the reward band's share, whichever is more |
| OracleTally.WinsAre | x/oracle/tally.go:94-106 | a validator's wins are its votes with a rate in the interval, bounds included |
| OracleTally.PassesIff | x/oracle/tally.go:72-77 | a ballot passes exactly if it has power and reaches the threshold's share of the bonded power, rounded to even |
| OracleTally.TallyPointwise | x/oracle/tally.go:94-108 | each claim gains exactly its own in-band votes and their power, `didVote` is set for exactly the voters, and keys are added only for voters |
| OracleTally.TallyOfRearranged | x/oracle/tally.go:94-108 | the claims after a tally do not depend on the order of the ballot |
| OracleTally.TallyCommutes | x/oracle/abci.go:132-135 | ballots may be tallied in either order |
| OracleTally.TallyConservesWeight | x/oracle/tally.go:94-108 | with claimants voting no claim is added, and total weight grows by exactly the power of the votes in band |
| OracleTally.PickReferenceDenom | x/oracle/tally.go:15-68 | for every visiting order: what is left of the votes is exactly the passing targets, the second map exactly the failing ones, the targets lose exactly these, and the reference has maximal power with ties broken by name |
| OracleTally.ReferenceUnique | x/oracle/tally.go:57-66 | at most one denom can be the reference |
| OracleTally.ReferenceOutranks | x/oracle/tally.go:57-66 | no ballot outranks the reference; one of the same power has a later name |
| OracleClose.ReferenceIsHighest | x/oracle/tally.go:57-66 | the same for the reference of every close |
| OracleClose.BallotsSplit | x/oracle/tally.go:35-55 | which ballots of a close pass, which fail and which targets are left, by power |
| OracleGrouping.GroupingIsPartition | x/oracle/keeper/ballot.go:18-38 | a vote stands in a denom's ballot as often as the claimants' tuples for it yield that vote, with power zero for non-positive rates |
| OracleGrouping.BallotPowerIsBounded | x/oracle/keeper/ballot.go:18-38 | if no vote lists a denom twice, no ballot has more power than all claims together |
| OracleKeeper.CollectClaims | x/oracle/abci.go:43-61 | one claim per bonded validator |
| OracleClose.ClaimsStartFromStaking | x/oracle/abci.go:51-60 | a claim starts with its validator's power, without wins or votes, and pays to itself |
| OracleKeeper.OrganizeBallotByDenom | x/oracle/keeper/ballot.go:15-52 | for every order of the ballot map: the grouped ballots, each sorted |
| OracleKeeper.TallyPassingBallots | x/oracle/abci.go:80-122 | claims and rates after the passing ballots are those of the order-free specification |
| OracleKeeper.TallyBelowBallots | x/oracle/abci.go:124-135 | claims after the failing ballots are those of the order-free specification |
| OracleKeeper.FinalClaimsAreKeyed | x/oracle/abci.go:138-159 | the claims looked at in the end are exactly the bonded validators', each paying into its own counter |
| OracleKeeper.Keeper.IncrementCount | x/oracle/keeper/keeper.go:207-237 | moves one of the three counts of one operator by one |
| OracleKeeper.Keeper.ValidateMissVoting | x/oracle/abci.go:138-159 | for every order of the claim map: each claimant's counter moves by its verdict, all others stay |
| OracleKeeper.Keeper.ApplyWhitelist | x/oracle/keeper/ballot.go:56-83 | stores the whitelist as targets exactly when the map it is given looks out of date |
| OracleKeeper.Keeper.EndBlocker | x/oracle/abci.go:16-202 | determinism: for every order of every map ranged over and every arrangement of tied rates, rates, counters, votes and targets end as one function of the old state |
| OracleClose.EndBlockIs | x/oracle/abci.go:27 | away from a period's last block nothing changes; in it votes are cleared and targets stored under their names |
| OracleClose.PeriodEndsBeforeMultiples | x/oracle/utils/period.go:13-16 | a block is a period's last exactly if the next height is a multiple of it |
| OracleCounters.CloseMovesCounts | x/oracle/abci.go:138-159 | at a close success, abstain or miss of a bonded validator grows by one exactly according to its verdict; others stay |
| OracleCounters.CountsAreVerdicts | x/oracle/abci.go:138-159 | in every reachable state each of the three counts is the number of closes with that verdict since the last reset, plus genesis |
| OracleKeeper.Keeper.BeginBlocker | x/oracle/abci.go:205-229 | at the end of a slash window slashes, resets and removes excess feeds, otherwise changes nothing; a walk that breaks off leaves what it had done so far |
| OracleKeeper.Keeper.SlashAndResetCounters | x/oracle/keeper/slash.go:15-80 | calls made, counters left and outcome are those of the walk in key order |
| OracleKeeper.Keeper.RemoveExcessFeeds | x/oracle/keeper/keeper.go:240-277 | exactly the rates of denoms that are not targets are deleted |
| OracleSlash.RateDecisionExact | x/oracle/keeper/slash.go:43-46 | truncating the rate to eighteen digits never changes the decision |
| OracleSlash.SlashingIsExact | x/oracle/keeper/slash.go:30-79 | the walk finishes exactly when every validator with too few successes is known and no slash is refused; then each bonded, unjailed one is slashed once, by the slash fraction, for its own power, two blocks back, nobody else, and exactly the counters without a vote are left |
| OracleSlash.BrokenOffAt | x/oracle/keeper/slash.go:54-62 | a walk that breaks off does so at the first unmanageable offender in key order; those before it are dealt with, nothing happens to it and those behind |
| OracleSlash.BeginBlockIs | x/oracle/abci.go:217-226 | when the walk is made, and exactly what rates, votes and targets are left |
| OracleRates.PublishedRates | x/oracle/abci.go:94-121 | a close publishes a rate for exactly the passing denoms with a non-zero median, stamped with the block, and keeps all others; the reference has its ballot's median, any other rate times its cross median is the reference's up to rounding |
| OracleRates.UnanimousRate | x/oracle/abci.go:98-117 | where the countable votes agree on one rate and one reference rate and decide the ballot, that rate is published, within an explicit error |
| OracleRates.CrossMedianNonNegative | x/oracle/types/ballot.go:131-162 | seen through the reference rates no ballot has a negative median |
| OracleVerdict.VerdictIs | x/oracle/abci.go:138-159 | the verdict on a bonded validator in terms of its wins on passing and on failing ballots |
| OracleVerdict.AbsentVerdict | x/oracle/abci.go:139-153 | a validator without a vote abstains, except that it succeeds exactly when no target is left |
| OracleVerdict.SuccessAgainstInBand | x/oracle/abci.go:139-145 | for every state: success is having as many spare wins (on failing ballots, or repeated on one ballot) as targets not won; without spare wins it is being in band on every target left, and an in-band validator succeeds exactly without them |
| OracleVerdict.SpareWinsAreBelow | x/oracle/abci.go:132-135 | where no vote lists a denom twice the spare wins are those on failing ballots |
| OracleExamples.InBandEverywhereYetMiss | x/oracle/abci.go:132-145 | a state in which a validator in band on every target left is charged with a miss |
| OracleExamples.ExampleIsReachable | x/oracle/keeper/msg_server.go:31-82 | an empty genesis, one close and two accepted vote messages lead to that state |
| OracleWhitelist.WhitelistIsCovered | x/oracle/keeper/ballot.go:56-83 | after every close each whitelisted name is a stored target |
| OracleWhitelist.WhitelistExactness | x/oracle/keeper/ballot.go:56-83 | for every whitelist the stored targets are exactly its names if and only if they were before, or the map without the failing targets misses a name or differs from the list in length |
| OracleWhitelist.DistinctWhitelistExactness | x/oracle/tally.go:50-55 | for distinct names: if and only if no ballot failed or what the failing ones left is not the whitelist |
| OracleWhitelist.SkippedWhen | x/oracle/keeper/ballot.go:57-71 | exactly when the refresh is skipped; for distinct names exactly when the map it is given is the whitelist |
| OracleExamples.FailingBallotKeepsStaleTarget | x/oracle/tally.go:50-55 | in the same state a failing ballot keeps a target that left the whitelist |
| OracleWhitelist.RepeatedNameKeepsStaleTarget | x/oracle/keeper/ballot.go:59-61 | a concrete whitelist with a repeated name that keeps a stale target without any vote |
| OracleRuns.CloseCountsOnce | x/oracle/abci.go:138-159 | a close moves the counters of exactly the bonded validators, each by one |
| OracleRuns.CountersAreConserved | x/oracle/abci.go:43-61 | in every reachable state success + abstain + miss is the number of closes with the validator bonded since the last reset, plus the genesis count if there was none |
| OracleRuns.EmptyCountersAre | x/oracle/keeper/slash.go:35-40 | in every reachable state exactly those counters are without votes that genesis stored so and whose validator was bonded at no close since |
| OracleRuns.EmptyCounterIsMet | x/oracle/genesis.go:50-60 | a genesis and a slash window in which the walk meets an empty counter and leaves it |
| OracleRuns.ZeroVotesUnreachable | x/oracle/keeper/slash.go:35-40 | from a genesis without empty counters no walk meets one, and every finished slash window removes all counters |
| OracleRuns.FullWindow | x/oracle/abci.go:205-229 | a validator bonded throughout a slash window is judged at its end on exactly slashWindow / votePeriod periods |
| OracleRuns.VotesStayKeyed | x/oracle/keeper/msg_server.go:72-78 | in every reachable state votes are stored under their voter, which the end of block relies on |
| OracleRuns.VotesAreSound | x/oracle/keeper/msg_server.go:53-78 | in every state reached from a sound genesis, or from any once a period has closed, votes are stored under their voter and list each denom once, at a positive rate, and targets only |
| OracleRuns.ReachableClose | x/oracle/abci.go:73-145 | at every close of such a run each ballot is a target's and has at most the power of all claims, and an in-band validator succeeds exactly without a win on a failing ballot |
| OracleVotes.ParseExchangeRateTuples | x/oracle/types/vote.go:72-97 | accepts exactly readable coins of distinct denoms, in order |
| OracleClose.AcceptedIff | x/oracle/keeper/msg_server.go:47-81 | exactly which vote messages are accepted, coin by coin, and that only the validator's own vote changes, to these coins |
| OracleClose.VoteRefusal | x/oracle/keeper/msg_server.go:47-76 | which error a refused vote reports |
| OracleVotes.VoteIsLastAccepted | x/oracle/keeper/msg_server.go:78 | after any messages a validator's vote is its last accepted one |
| OracleVotes.SoundVotesCount | x/oracle/keeper/ballot.go:22-36 | where votes are sound every vote in a ballot is for a target, at a positive rate, and counts with its voter's full power |
| OracleKeeper.Keeper.AggregateExchangeRateVote | x/oracle/keeper/msg_server.go:31-82 | permission, parsing, known denoms and positive rates are checked in this order; on success exactly the validator's own vote is replaced, otherwise nothing |

## Left out

- MessageUnmarshal.UnmarshalParams: takes and returns the message as a value, as the other parsers do; the fields already assigned when a parse fails, and pointers shared between parsed logs, are not captured.
- MessageMarshal.ParamsToSizedBuffer: the chain configuration is written by its own codec, a parameter assumed lawful; its fields of the foreign integer type are not modelled.
- TraceConfig: its methods repeat the pattern of the eight messages modelled.
- Nil messages: sizing and marshalling a nil pointer are not modelled; nil and empty strings, byte slices and lists are one value.
- Buffers of 2^63 bytes and more: the codec's methods and round trips ask for less, as Go's lengths do; index arithmetic that wraps in 64 bits below that is modelled.
- Decimal bit-length panics: decimals are unbounded; the one overflow the code recovers from in a voter's rate, a cross rate's quotient, is a parameter.
- OracleBallot.StandardDeviation: the root is taken in floating point and printed with six digits, so it is an arbitrary function of the variance; recovering from an overflowing square is not modelled.
- 64-bit wrap-around of powers, weights, counters and gas: they are unbounded naturals.
- OracleSlash: an offender unknown to staking is the panic outcome; a consensus address that cannot be read, the other panic, is not distinguished from it.
- OracleKeeper.Keeper.EndBlocker: asks for votes stored under their voter, which genesis and the message server establish and `OracleRuns.VotesStayKeyed` proves for all runs; price snapshots are left out.
- OracleKeeper.Keeper.ApplyWhitelist: registering bank metadata is string building and left out, as is the panic on an empty name, which the parameters' validation excludes.
- OracleRuns: a block that begins with an error ends the run.
- OracleKeeper.Keeper.AggregateExchangeRateVote: reading addresses and coins from text and whether a feeder may vote (a delegated feeder or the bonded validator itself) are inputs.
- VoteStake.HasEnoughStake: asks for a positive minimum and non-negative tokens; the minimum is a constant of the module and tokens are truncated shares of bonded tokens.
- Upgrade.Stores.ReadAddresses: a slice is taken to have its length as capacity, so cutting a chunk past the end panics.
- Upgrade.Stores.MigrateEVMParams: which parameters the EVM module accepts is an input, and refusing them is taken to store nothing; the key of the old parameters, defined in that module, is an input too.
- FeeConversion: the error value of an ERC20 conversion, and what a failed one may have done inside the ERC20 module, are not modelled.
- Store, bank and staking errors other than those above, events, logging, telemetry, gas metering of stores, queries, CLI and application wiring.
- TWAPs, price snapshots, feeder delegation and the spam counter of the oracle: not needed by any of the properties.

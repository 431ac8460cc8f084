# Waves name-service client: a Dafny model of its deterministic core

This project models the parts of the Waves Domains client that compute something without
the network:

- the **Structured Expression decoder** `extractSEItemValue` (src/utils.ts). It turns the
  evaluator's tagged union (`Unit | String | Int | Array | Tuple`) into plain values and puts
  tuple entries in order by the number after the `_` in each key;
- the **`WavesNameService` logic** (src/index.ts):
  - the constructor's config merge;
  - amount and name validation;
  - the 8-byte big-endian `Long` encoding of the amount;
  - the commitment preimage and the `bid` invoke transaction built by `makeBidTx`;
  - the phase computed by `getStatus`;
  - the auction-id arithmetic of `getCurrentAuctionId`;
  - the registrar filter of `getNamesOwnedBy`.

Files and modules:

| file | module | models |
|---|---|---|
| optional.dfy | `Optional` | `null`/`undefined` as `Option` |
| decimal.dfy | `Decimal` | decimal digit strings, `toString()` of a natural number |
| long_encoding.dfy | `LongEncoding` | `Long.toBytes()`: two's complement, big-endian, 8 bytes |
| se_decoder.dfy | `SEDecoder` | src/utils.ts |
| name_service.dfy | `NameService` | src/index.ts |

Each operation is a pure function. The source's `this.config` is set once and never
changed, so the client is a `Config` record built by `MergeConfig`. The methods take that
record as a parameter.

The crypto library calls are a `CryptoLib` parameter made of four functions:
`stringToBytes`, `keccak`, `blake2b` and `base58Encode`. Their internals are not modelled.
The current time and the first auction's timestamp are integer parameters; the source
would fetch them or read the clock.

The model keeps these behaviours of the code as written:

- An `Array` item decodes to its payload unchanged. Its elements are **not** decoded
  (src/utils.ts:43-44).
- The name check accepts a name if **any** character is in `[a-z0-9_]`. So `"Alice!"` is
  accepted and `makeBidTx("Alice!", "10", …)` builds a transaction
  (`NameService.BidValidationExamples`).
- The code never checks tuple keys. It calls `Number(key.slice(1))`. The model states the
  key shape it relies on as the precondition `WellFormed`, not as a decode error.
- The auction id divides by the module constant `AUCTION_DURATION`, not a configured value.
- `getStatus` starts the period at `auctionId * (BID + REVEAL) + INIT`, not at
  `auctionId * AUCTION_DURATION + INIT`. It compares against the module constant
  `BID_DURATION`, not `config.BID_DURATION`. Both quirks are kept as written.
  `NameService.StatusWithDefaults` shows the result: with the default configuration,
  only the first 180 s of auction 0 report `bid`.

JavaScript's `Array.prototype.sort` is modelled by an insertion sort (`SortByKey`). Its
result does not depend on the algorithm: with distinct keys, only one key-sorted
arrangement of the entries exists (`SEDecoder.SortedUnique`).

## Model

| member | source | states |
|---|---|---|
| `SEDecoder.Extract` | src/utils.ts:30-46 | `Unit` decodes to null and nothing else does. `String` and `Int` payload text is returned unchanged; `Int` is not turned into a number. An `Array` payload is returned with its elements undecoded. A tuple decodes to a list with one value per entry |
| `SEDecoder.SortByKey` | src/utils.ts:35-41 | the entries come out sorted ascending by numeric key suffix, and form a permutation (same multiset) of the input entries |
| `SEDecoder.SortedUnique` | src/utils.ts:36-41 | with distinct key numbers there is only one key-sorted arrangement of a bag of entries, so the sort's result is fully determined |
| `SEDecoder.TupleDecodesInKeyOrder` | src/utils.ts:35-42 | for any key-sorted arrangement `s` of a tuple's entries, the keys in `s` strictly increase, and element i of the decoded tuple is the recursive decode of the item whose key has the i-th smallest number |
| `SEDecoder.ExtractIgnoresEntryOrder` | src/utils.ts:35-41 | two tuples holding the same entries in any order, with distinct suffixes, decode to the same value |
| `SEDecoder.ThreeEntriesOutOfOrder` | src/utils.ts:35-42 | entries arriving second, first, third decode as the values of first, second, third |
| `SEDecoder.ExampleTuple` | src/utils.ts:35-42 | `{_2: "b", _1: "a", _3: "c"}` is well formed and decodes to `["a", "b", "c"]` |
| `Decimal.Render` | src/index.ts:104 | `toString()` of a natural number gives a canonical digit string (no leading zero unless it is "0") whose value is the number |
| `Decimal.RenderValue` | src/index.ts:104 | every canonical digit string is the `toString()` of its own value, so `n1.toString() === n` holds exactly for canonical strings |
| `NameService.MergeConfig` | src/index.ts:86-98 | each field the caller supplies wins over its default. Unsupplied fields get version 2, type 16 and the module constants. The host is `HOST_ENTRIES[network]`, testnet when no network is given, unless the caller supplies a host |
| `NameService.DefaultConfig` | src/index.ts:86-98 | a client constructed with no arguments has version 2, type 16, no network, the testnet host and the module's address and durations |
| `NameService.SuppliedFieldsWin` | src/index.ts:86-98 | a caller that supplies every field gets exactly that configuration back |
| `NameService.IsNaturalNumberText` | src/index.ts:100-105 | a text amount passes `isNaturalNumber` iff it is the canonical decimal of a natural number no larger than 2^53 (both directions) |
| `NameService.IsNaturalNumberInteger` | src/index.ts:100-105 | an integer amount passes iff it lies between 0 and 2^53 |
| `NameService.RejectedAmountExamples` | src/index.ts:100-105 | `"-5"`, `"05"`, `"5.0"`, `"1e3"`, `"-0"` and `""` are rejected |
| `NameService.AcceptedAmountExamples` | src/index.ts:100-105 | `"0"`, `"10"` and `"1000"` are accepted |
| `NameService.HasNameChar` | src/index.ts:116 | the regex match is non-null iff some character of the name is a lowercase letter, a digit or `_` |
| `NameService.NameCheckExamples` | src/index.ts:107-122 | `validate` accepts `"Alice!"` for a name and rejects `"ALICE!"` and the empty name |
| `NameService.GetLong` | src/index.ts:124-133 | on a validated amount the `Long` holds a value in 0..2^53 whose decimal text is the amount's text; for an integer amount it is the integer itself |
| `LongEncoding.ToBytes` | src/index.ts:179-181 | `toBytes()` yields exactly eight bytes |
| `LongEncoding.ToBytesRoundTrip` | src/index.ts:179-181 | reading the eight bytes back as a signed big-endian value gives every signed 64-bit amount back |
| `LongEncoding.FromBytesRoundTrip` | src/index.ts:180 | every eight-byte string is the encoding of the value it decodes to, so the encoding is a bijection onto the signed 64-bit range |
| `LongEncoding.NaturalEncoding` | src/index.ts:179-181 | for 0 ≤ n < 2^63 the bytes are n's plain unsigned base-256 digits and the sign bit is clear |
| `NameService.Preimage` | src/index.ts:182-184 | the preimage is 8 + (name byte count) long. Its first eight bytes decode to the amount and the rest are the name bytes: amount first, then name |
| `NameService.PreimageInjective` | src/index.ts:182-184 | the preimage determines both the amount and the name bytes, because the amount part has a fixed width |
| `NameService.CommitmentBinds` | src/index.ts:182-187 | if keccak, blake2b and base-58 are injective, equal commitments come from equal amounts and equal name bytes |
| `NameService.MakeBidTx` | src/index.ts:168-218 | null exactly when the name has no `[a-z0-9_]` character or the amount is not natural, for any crypto library, so no encoding or hashing happens first. Otherwise: type 16, version and dApp from config, call `bid` with `[integer auctionId, string commitment]`, one payment `{amount, assetId: null}` |
| `NameService.BidCommitsToAmountAndName` | src/index.ts:179-211 | a successful bid's string argument is `base58(blake2b(keccak(p)))`, where the first eight bytes of `p` decode to the amount and the rest are the name's bytes |
| `NameService.BidTxTypeIgnoresConfig` | src/index.ts:189-190 | the transaction's type is the constant 16 for every configured `type` `t`, while the merged configuration keeps `t` |
| `NameService.BidValidationExamples` | src/index.ts:168-176 | `("Alice!", "10")` builds a transaction |
| `NameService.BidRejectionExamples` | src/index.ts:168-176 | `("alice", "-5")`, `("alice", -5)` and `("", "10")` give null |
| `NameService.StatusBoundary` | src/index.ts:353-361 | `getStatus` is `reveal` iff `ts - (auctionId*(BID+REVEAL) + INIT) > BID_DURATION`. Exactly `BID_DURATION` elapsed is still `bid`; one more millisecond is `reveal` |
| `NameService.StatusMonotone` | src/index.ts:353-361 | for a fixed auction id, a later timestamp never goes back from `reveal` to `bid` |
| `NameService.StatusThresholdIsModuleConstant` | src/index.ts:354-358 | moving time between the configured bid and reveal durations (same sum) does not change the phase: the threshold is the module constant |
| `NameService.CurrentAuctionId` | src/index.ts:324-325 | the id is the k with `k*AUCTION_DURATION <= now - init < (k+1)*AUCTION_DURATION`, i.e. floor division |
| `NameService.AuctionIdUnique` | src/index.ts:324-325 | no other k satisfies that bracket |
| `NameService.AuctionIdExamples` | src/index.ts:324-325 | the id is 0 at `init` and just before `init + AUCTION_DURATION`, 1 at `init + AUCTION_DURATION`, and negative exactly when `now < init` |
| `NameService.StatusWithDefaults` | src/index.ts:353-358 | with the default configuration and the id from the clock, the phase is `bid` iff at most `BID_DURATION` has passed since the first auction began |
| `NameService.NamesOwnedBy` | src/index.ts:368-374 | the result is no longer than the NFT list. An entry is in it iff some NFT issued by the registrar has that entry's name as its description |
| `NameService.NamesOwnedByAppend` | src/index.ts:368-374 | the filter keeps order: the names of a concatenation are the concatenation of the names |

## Left out

- Network calls are not modelled: every `fetch` and the code that only formats an expression
  for the evaluator. That covers `lookup`, `reverseLookup`, `evaluateScript`, `getAuction`
  (including how it destructures the response), `getBlockchainTimestamp`, `whoIs`, `reveal`,
  `refund`, `claimNFT`, `reclaim` and the fetch in `getNamesOwnedBy`. Apart from string
  interpolation they contain no logic.
- `async`/`Promise` handling, `Date.now()` and reading `initTimestamp` from the node are not
  modelled. Those timestamps are parameters of `CurrentAuctionId` and `GetStatus`.
- `logger`, `console.*`, and the `try`/`catch` in `makeBidTx` are not modelled. After
  validation, nothing in that block can throw, so the `catch` path is not modelled.
- UTF-8 encoding, Keccak-256, BLAKE2b and base-58 come from a library that is not part of
  this model. They are arbitrary functions in `CryptoLib`. The model fixes only the preimage
  layout and the order of the calls.
- `NameService.IsNaturalNumber`: it rejects every decimal above 2^53. The source relies on
  IEEE-754 doubles, so some larger values still pass: exactly-representable values that
  print back unchanged, such as the text `"9007199254740994"` (2^53 + 2). Below that bound the two agree exactly. Non-integer
  JavaScript numbers and numbers whose `toString()` uses exponent notation are not `NumEntry`
  values here.
- `NameService.GetLong`: it is defined only on validated amounts, the only inputs
  `makeBidTx` passes it. `Long.fromString` wrap-around and `Long.fromNumber` saturation
  on out-of-range input are not modelled.
- `NameService.Validate`: the `default: return true` branch cannot be reached with the
  declared `'name' | 'amount'` type, so it is not modelled. A name is always passed as a
  string (the source casts it).
- `NameService.MergeConfig`: a caller field explicitly set to `undefined` would override
  its default under spread. It is not modelled (`None` means "not supplied").
- `SEDecoder.Extract`: it requires well-formed tuple keys (`_` followed by digits, distinct
  numbers), so the `NaN` comparator for malformed keys is not modelled. Keys with more than
  about 15 digits could round to equal doubles in `Number(...)`; the model compares exact
  values.
- Timestamps, durations and auction ids are JavaScript doubles in the source. The model
  uses exact integers and does not model rounding beyond 2^53.
- The NFT record keeps only the fields the filter reads, plus `assetId` and `name`.
- The demo UI (demo/app.tsx, demo/index.tsx) and the build configuration (vite.config.ts)
  are not part of this model. The source has no status resolver mapping `whoIs` data to a
  registration state (`whoIs` only forwards the evaluator's answer), so none is modelled.

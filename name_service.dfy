/**
 * The deterministic logic of the `WavesNameService` client (src/index.ts):
 * configuration defaulting, bid validation, the sealed-bid commitment and
 * the bid transaction, the auction clock, and the owned-names filter.
 * Network calls are not modelled; the timestamps they would fetch are inputs.
 */
module NameService {
  import opened Optional
  import Decimal
  import opened LongEncoding

  // The module constants of src/index.ts.
  const InvokeTxType: int := 16
  const InvokeFunctionBid: string := "bid"
  const ContractAddress: string := "3MxssetYXJfiGwzo9pqChsSwYj3tCYq5FFH"
  const RegistrarAddress: string := "3NA73oUXjqp7SpudXWV1yMFuKm9awPbqsVz"
  const ProdHost: string := "https://nodes-keeper.wavesnodes.com"
  const TestHost: string := "https://nodes-testnet.wavesnodes.com"
  const StageHost: string := "https://nodes-stagenet.wavesnodes.com"
  const AuctionDuration: int := 518400000
  const InitTimestamp: int := 1664125224707
  const RevealDuration: int := 180000
  const BidDuration: int := 180000

  // ---------------------------------------------------------------------------
  // Configuration

  datatype Network = Mainnet | Testnet | Stagenet

  /** `HOST_ENTRIES[network]`. */
  function HostEntry(network: Network): string {
    match network
    case Mainnet => ProdHost
    case Testnet => TestHost
    case Stagenet => StageHost
  }

  /** The client's `config` after construction; `network` is present only when the caller gave one. */
  datatype Config = Config(
    version: int,
    txType: int,
    network: Option<Network>,
    host: string,
    auctionDuration: int,
    contractAddress: string,
    revealDuration: int,
    initTimestamp: int,
    bidDuration: int)

  /** The constructor's `Partial<Config>` argument: `None` is a field the caller left out. */
  datatype Overrides = Overrides(
    version: Option<int>,
    txType: Option<int>,
    network: Option<Network>,
    host: Option<string>,
    auctionDuration: Option<int>,
    contractAddress: Option<string>,
    revealDuration: Option<int>,
    initTimestamp: Option<int>,
    bidDuration: Option<int>)

  const NoOverrides: Overrides := Overrides(None, None, None, None, None, None, None, None, None)

  /**
   * The constructor: the defaults spread first, the caller's fields after them,
   * so every supplied field wins; the default host follows the network, testnet when none is given.
   */
  function MergeConfig(o: Overrides): (c: Config)
    ensures c.host == o.host.GetOr(HostEntry(o.network.GetOr(Testnet)))
    ensures c.network == o.network
    ensures c.version == o.version.GetOr(2) && c.txType == o.txType.GetOr(16)
    ensures c.auctionDuration == o.auctionDuration.GetOr(AuctionDuration)
    ensures c.contractAddress == o.contractAddress.GetOr(ContractAddress)
    ensures c.revealDuration == o.revealDuration.GetOr(RevealDuration)
    ensures c.initTimestamp == o.initTimestamp.GetOr(InitTimestamp)
    ensures c.bidDuration == o.bidDuration.GetOr(BidDuration)
  {
    Config(
      version := o.version.GetOr(2),
      txType := o.txType.GetOr(16),
      network := o.network,
      host := o.host.GetOr(HostEntry(o.network.GetOr(Testnet))),
      auctionDuration := o.auctionDuration.GetOr(AuctionDuration),
      contractAddress := o.contractAddress.GetOr(ContractAddress),
      revealDuration := o.revealDuration.GetOr(RevealDuration),
      initTimestamp := o.initTimestamp.GetOr(InitTimestamp),
      bidDuration := o.bidDuration.GetOr(BidDuration))
  }

  /** The overrides that supply every field of `c`. */
  function Supplying(c: Config): Overrides {
    Overrides(Some(c.version), Some(c.txType), c.network, Some(c.host), Some(c.auctionDuration),
      Some(c.contractAddress), Some(c.revealDuration), Some(c.initTimestamp), Some(c.bidDuration))
  }

  /** A client built with no arguments talks to testnet with the module constants. */
  lemma DefaultConfig()
    ensures MergeConfig(NoOverrides)
      == Config(2, 16, None, TestHost, AuctionDuration, ContractAddress, RevealDuration, InitTimestamp, BidDuration)
  {
  }

  /** Supplying every field leaves nothing of the defaults. */
  lemma SuppliedFieldsWin(c: Config)
    ensures MergeConfig(Supplying(c)) == c
  {
  }

  // ---------------------------------------------------------------------------
  // Validation

  /** `NumEntry`: a string, or an integer held as a bigint or as an integer-valued number. */
  datatype NumEntry = NumText(text: string) | NumInteger(value: int)

  /** `value.toString()`. */
  function EntryText(a: NumEntry): string {
    match a
    case NumText(s) => s
    case NumInteger(i) => if i < 0 then "-" + Decimal.Render(-i) else Decimal.Render(i)
  }

  /** 2^53: the integers up to here are exactly representable as doubles. */
  const MaxExactInteger: int := 0x20_0000_0000_0000

  /**
   * `isNaturalNumber`: the text must read back unchanged through `Math.abs(+n)`,
   * equal `parseInt(n, 10)`, and so be the canonical decimal of a non-negative integer.
   */
  predicate IsNaturalNumber(a: NumEntry) {
    var n := EntryText(a);
    Decimal.Canonical(n) && Decimal.Value(n) <= MaxExactInteger
  }

  /** A text amount is natural exactly when it is the rendering of a natural number in the exact range. */
  lemma IsNaturalNumberText(s: string)
    ensures IsNaturalNumber(NumText(s)) <==> exists v: nat :: v <= MaxExactInteger && s == Decimal.Render(v)
  {
    if IsNaturalNumber(NumText(s)) {
      Decimal.RenderValue(s);
      assert Decimal.Value(s) <= MaxExactInteger && s == Decimal.Render(Decimal.Value(s));
    }
  }

  /** An integer amount is natural exactly when it is non-negative (and in the exact range). */
  lemma IsNaturalNumberInteger(i: int)
    ensures IsNaturalNumber(NumInteger(i)) <==> 0 <= i <= MaxExactInteger
  {
    if i < 0 {
      assert EntryText(NumInteger(i))[0] == '-';
    }
  }

  /** Signs, leading zeros, fractions, exponents and the empty string are rejected. */
  lemma RejectedAmountExamples()
    ensures !IsNaturalNumber(NumText("-5")) && !IsNaturalNumber(NumText("05"))
    ensures !IsNaturalNumber(NumText("5.0")) && !IsNaturalNumber(NumText("1e3"))
    ensures !IsNaturalNumber(NumText("-0")) && !IsNaturalNumber(NumText(""))
  {
    assert !Decimal.IsDigit("-5"[0]) && !Decimal.IsDigit("5.0"[1]) && !Decimal.IsDigit("1e3"[1]);
  }

  lemma AcceptedAmountExamples()
    ensures IsNaturalNumber(NumText("0")) && IsNaturalNumber(NumText("10")) && IsNaturalNumber(NumText("1000"))
  {
    assert "1000"[..3] == "100" && "100"[..2] == "10" && "10"[..1] == "1";
  }

  predicate IsNameChar(c: char) {
    'a' <= c <= 'z' || '0' <= c <= '9' || c == '_'
  }

  /** `name.match(/[a-z0-9_]/g)` is non-null: some character of the name is in the class. */
  function HasNameChar(s: string): (r: bool)
    ensures r <==> exists i :: 0 <= i < |s| && IsNameChar(s[i])
  {
    if s == [] then false
    else if IsNameChar(s[0]) then true
    else
      var r := HasNameChar(s[1..]);
      assert forall i :: 1 <= i < |s| ==> s[i] == s[1..][i - 1];
      r
  }

  datatype Field = NameField | AmountField

  /** `validate`; a name is always passed as a string. */
  function Validate(value: NumEntry, field: Field): bool
    requires field == NameField ==> value.NumText?
  {
    match field
    case NameField => HasNameChar(value.text)
    case AmountField => IsNaturalNumber(value)
  }

  /** One allowed character is enough: "Alice!" passes, while "ALICE!" and the empty name do not. */
  lemma NameCheckExamples()
    ensures Validate(NumText("Alice!"), NameField)
    ensures !Validate(NumText("ALICE!"), NameField)
    ensures !Validate(NumText(""), NameField)
  {
    assert IsNameChar("Alice!"[1]);
    var s := "ALICE!";
    assert forall i :: 0 <= i < |s| ==> !IsNameChar(s[i]);
  }

  // ---------------------------------------------------------------------------
  // The commitment and the bid transaction

  /** `getLong` on a validated amount: the `Long` holding the amount's value. */
  function GetLong(a: NumEntry): (n: int)
    requires IsNaturalNumber(a)
    ensures 0 <= n <= MaxExactInteger && InLongRange(n)
    ensures EntryText(a) == Decimal.Render(n)
    ensures a.NumInteger? ==> n == a.value
  {
    var s := EntryText(a);
    Decimal.RenderValue(s);
    if a.NumInteger? then
      IsNaturalNumberInteger(a.value);
      Decimal.RenderValue(Decimal.Render(a.value));
      Decimal.Value(s)
    else
      Decimal.Value(s)
  }

  /** The hash preimage: the amount's eight bytes, then the name's bytes. */
  function Preimage(amount: int, nameBytes: seq<byte>): (p: seq<byte>)
    requires InLongRange(amount)
    ensures |p| == 8 + |nameBytes|
    ensures FromBytes(p[..8]) == amount && p[8..] == nameBytes
  {
    var p := ToBytes(amount) + nameBytes;
    assert p[..8] == ToBytes(amount);
    ToBytesRoundTrip(amount);
    p
  }

  /** The fixed-width amount makes the preimage unambiguous: it determines both parts. */
  lemma PreimageInjective(a1: int, b1: seq<byte>, a2: int, b2: seq<byte>)
    requires InLongRange(a1) && InLongRange(a2)
    requires Preimage(a1, b1) == Preimage(a2, b2)
    ensures a1 == a2 && b1 == b2
  {
    assert Preimage(a1, b1)[..8] == Preimage(a2, b2)[..8];
  }

  /** The library functions the client calls: UTF-8 encoding, Keccak-256, BLAKE2b-256, base-58. */
  datatype CryptoLib = CryptoLib(
    stringToBytes: string -> seq<byte>,
    keccak: seq<byte> -> seq<byte>,
    blake2b: seq<byte> -> seq<byte>,
    base58Encode: seq<byte> -> string)

  /** `base58Encode(blake2b(keccak(concat(amountBytes, nameBytes))))`. */
  function CommitmentHash(lib: CryptoLib, name: string, amount: int): string
    requires InLongRange(amount)
  {
    lib.base58Encode(lib.blake2b(lib.keccak(Preimage(amount, lib.stringToBytes(name)))))
  }

  ghost predicate Injective<A(!new), B>(f: A -> B) {
    forall x, y :: f(x) == f(y) ==> x == y
  }

  /**
   * The commitment binds the bid: when the hash and encoding steps are injective,
   * equal commitments come from the same amount and the same name bytes.
   */
  lemma CommitmentBinds(lib: CryptoLib, name1: string, amount1: int, name2: string, amount2: int)
    requires InLongRange(amount1) && InLongRange(amount2)
    requires Injective(lib.keccak) && Injective(lib.blake2b) && Injective(lib.base58Encode)
    requires CommitmentHash(lib, name1, amount1) == CommitmentHash(lib, name2, amount2)
    ensures amount1 == amount2 && lib.stringToBytes(name1) == lib.stringToBytes(name2)
  {
    var p1, p2 := Preimage(amount1, lib.stringToBytes(name1)), Preimage(amount2, lib.stringToBytes(name2));
    assert lib.blake2b(lib.keccak(p1)) == lib.blake2b(lib.keccak(p2));
    assert lib.keccak(p1) == lib.keccak(p2);
    assert p1 == p2;
    PreimageInjective(amount1, lib.stringToBytes(name1), amount2, lib.stringToBytes(name2));
  }

  datatype Arg = IntegerArg(intValue: int) | StringArg(strValue: string)
  datatype Call = Call(functionName: string, args: seq<Arg>)
  datatype Payment = Payment(amount: NumEntry, assetId: Option<string>)
  datatype InvokeTx = InvokeTx(txType: int, version: int, dApp: string, call: Call, payment: seq<Payment>)

  /**
   * `makeBidTx`: `None` (the source's `null`) exactly when validation fails, which
   * happens before any byte encoding or hashing; otherwise an invoke transaction
   * calling `bid(auctionId, commitment)` with the amount as its one payment.
   */
  function MakeBidTx(config: Config, name: string, amount: NumEntry, auctionId: int, lib: CryptoLib): (r: Option<InvokeTx>)
    ensures r.None? <==> !HasNameChar(name) || !IsNaturalNumber(amount)
    ensures r.Some? ==>
      && r.value.txType == InvokeTxType
      && r.value.version == config.version
      && r.value.dApp == config.contractAddress
      && r.value.call.functionName == InvokeFunctionBid
      && r.value.call.args == [IntegerArg(auctionId), StringArg(CommitmentHash(lib, name, GetLong(amount)))]
      && r.value.payment == [Payment(amount, None)]
  {
    if !Validate(NumText(name), NameField) then None
    else if !Validate(amount, AmountField) then None
    else
      var amountBytes := ToBytes(GetLong(amount));
      var nameBytes := lib.stringToBytes(name);
      var hash := lib.blake2b(lib.keccak(amountBytes + nameBytes));
      var encoded58hash := lib.base58Encode(hash);
      Some(InvokeTx(
        InvokeTxType,
        config.version,
        config.contractAddress,
        Call(InvokeFunctionBid, [IntegerArg(auctionId), StringArg(encoded58hash)]),
        [Payment(amount, None)]))
  }

  /**
   * What a successful bid commits to: its second argument is the base-58 digest of a preimage
   * whose first eight bytes decode to the amount and whose remaining bytes are the name's.
   */
  lemma BidCommitsToAmountAndName(config: Config, name: string, amount: NumEntry, auctionId: int, lib: CryptoLib)
    requires MakeBidTx(config, name, amount, auctionId, lib).Some?
    ensures IsNaturalNumber(amount)
    ensures exists p: seq<byte> ::
      && |p| == 8 + |lib.stringToBytes(name)|
      && FromBytes(p[..8]) == GetLong(amount)
      && EntryText(amount) == Decimal.Render(FromBytes(p[..8]))
      && p[8..] == lib.stringToBytes(name)
      && MakeBidTx(config, name, amount, auctionId, lib).value.call.args[1]
         == StringArg(lib.base58Encode(lib.blake2b(lib.keccak(p))))
  {
    var p := Preimage(GetLong(amount), lib.stringToBytes(name));
    assert FromBytes(p[..8]) == GetLong(amount);
  }

  /** The transaction type is the invoke constant, whatever the configured `type` says. */
  lemma BidTxTypeIgnoresConfig(o: Overrides, t: int, name: string, amount: NumEntry, auctionId: int, lib: CryptoLib)
    requires o.txType == Some(t)
    requires HasNameChar(name) && IsNaturalNumber(amount)
    ensures MergeConfig(o).txType == t
    ensures MakeBidTx(MergeConfig(o), name, amount, auctionId, lib).value.txType == 16
  {
  }

  /** A name with any character and a canonical amount is accepted, punctuation included. */
  lemma BidValidationExamples(config: Config, auctionId: int, lib: CryptoLib)
    ensures MakeBidTx(config, "Alice!", NumText("10"), auctionId, lib).Some?
  {
    NameCheckExamples();
    AcceptedAmountExamples();
  }

  /** A negative amount, in either form, or a name without characters yields no transaction. */
  lemma BidRejectionExamples(config: Config, auctionId: int, lib: CryptoLib)
    ensures MakeBidTx(config, "alice", NumText("-5"), auctionId, lib).None?
    ensures MakeBidTx(config, "alice", NumInteger(-5), auctionId, lib).None?
    ensures MakeBidTx(config, "", NumText("10"), auctionId, lib).None?
  {
    NameCheckExamples();
    RejectedAmountExamples();
    IsNaturalNumberInteger(-5);
  }

  // ---------------------------------------------------------------------------
  // The auction clock

  datatype Phase = Bid | Reveal

  /**
   * `getStatus`: the period start uses the configured bid and reveal durations,
   * but the threshold is the module's `BID_DURATION`.
   */
  function GetStatus(config: Config, auctionId: int, blockchainTimestamp: int): Phase {
    var currentPeriodStart := auctionId * (config.bidDuration + config.revealDuration) + config.initTimestamp;
    var currentAuctionTime := blockchainTimestamp - currentPeriodStart;
    if currentAuctionTime > BidDuration then Reveal else Bid
  }

  /** The phase is `Reveal` exactly after `BID_DURATION` has elapsed; the boundary itself is still `Bid`. */
  lemma StatusBoundary(config: Config, auctionId: int, ts: int)
    ensures var start := auctionId * (config.bidDuration + config.revealDuration) + config.initTimestamp;
      && (GetStatus(config, auctionId, ts) == Reveal <==> ts - start > BidDuration)
      && GetStatus(config, auctionId, start + BidDuration) == Bid
      && GetStatus(config, auctionId, start + BidDuration + 1) == Reveal
  {
  }

  /** Within one auction the phase never goes back from `Reveal` to `Bid`. */
  lemma StatusMonotone(config: Config, auctionId: int, ts1: int, ts2: int)
    requires ts1 <= ts2 && GetStatus(config, auctionId, ts1) == Reveal
    ensures GetStatus(config, auctionId, ts2) == Reveal
  {
  }

  /** Moving time from the configured bid duration to the reveal duration does not move the threshold. */
  lemma StatusThresholdIsModuleConstant(config: Config, auctionId: int, ts: int, d: int)
    ensures GetStatus(config.(bidDuration := d, revealDuration := config.bidDuration + config.revealDuration - d), auctionId, ts)
      == GetStatus(config, auctionId, ts)
  {
  }

  /** The arithmetic of `getCurrentAuctionId`: whole auction durations elapsed since the first auction. */
  function CurrentAuctionId(now: int, firstAuctionTimestamp: int): (id: int)
    ensures id * AuctionDuration <= now - firstAuctionTimestamp < (id + 1) * AuctionDuration
  {
    (now - firstAuctionTimestamp) / AuctionDuration
  }

  /** The auction id is the only k whose auction window holds `now`. */
  lemma AuctionIdUnique(now: int, first: int, k: int)
    requires k * AuctionDuration <= now - first < (k + 1) * AuctionDuration
    ensures CurrentAuctionId(now, first) == k
  {
  }

  lemma AuctionIdExamples(first: int, now: int)
    ensures CurrentAuctionId(first, first) == 0
    ensures CurrentAuctionId(first + AuctionDuration - 1, first) == 0
    ensures CurrentAuctionId(first + AuctionDuration, first) == 1
    ensures CurrentAuctionId(now, first) < 0 <==> now < first
  {
    AuctionIdUnique(first, first, 0);
    AuctionIdUnique(first + AuctionDuration - 1, first, 0);
    AuctionIdUnique(first + AuctionDuration, first, 1);
  }

  /**
   * With the default configuration and the id from the clock, only the first
   * `BID_DURATION` of the very first auction reports `Bid`: from auction 1 on, the period
   * start `auctionId * (BID + REVEAL)` lags far behind the auction's real start.
   */
  lemma StatusWithDefaults(now: int)
    requires now >= InitTimestamp
    ensures var id := CurrentAuctionId(now, InitTimestamp);
      GetStatus(MergeConfig(NoOverrides), id, now) == Bid <==> now - InitTimestamp <= BidDuration
  {
    var id := CurrentAuctionId(now, InitTimestamp);
    assert id >= 0;
    if id >= 1 {
      assert now - InitTimestamp >= id * AuctionDuration;
      assert now - (id * (BidDuration + RevealDuration) + InitTimestamp) >= id * (AuctionDuration - 360000);
    }
  }

  // ---------------------------------------------------------------------------
  // Names owned by an address

  /** The fields of an NFT record that the filter reads. */
  datatype Nft = Nft(assetId: string, name: string, description: string, issuer: string)
  datatype NameEntry = NameEntry(name: string)

  /** The filter/map of `getNamesOwnedBy`: the descriptions of the NFTs the registrar issued, in order. */
  function NamesOwnedBy(nfts: seq<Nft>): (r: seq<NameEntry>)
    ensures |r| <= |nfts|
    ensures forall e :: e in r <==> exists nft :: nft in nfts && nft.issuer == RegistrarAddress && e == NameEntry(nft.description)
  {
    if nfts == [] then []
    else
      var rest := NamesOwnedBy(nfts[1..]);
      assert nfts == [nfts[0]] + nfts[1..];
      (if nfts[0].issuer == RegistrarAddress then [NameEntry(nfts[0].description)] else []) + rest
  }

  /** The filter keeps order: the names of a concatenation are the concatenated names. */
  lemma {:induction false} NamesOwnedByAppend(a: seq<Nft>, b: seq<Nft>)
    ensures NamesOwnedBy(a + b) == NamesOwnedBy(a) + NamesOwnedBy(b)
  {
    if a != [] {
      assert (a + b)[1..] == a[1..] + b;
      NamesOwnedByAppend(a[1..], b);
    } else {
      assert a + b == b;
    }
  }
}

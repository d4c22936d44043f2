/**
  Values the wallet handles and the collaborators it calls without seeing their code:
  address chains, derivation paths, UTXOs, sign requests, the transaction cache, and
  the cryptographic / codec / device functions, which are passed in as function values.
*/
module CardanoTypes {
  import opened Wrappers
  import opened Config

  /** A derivation path together with the BIP-44 level its first index sits at. */
  datatype Addressing = Addressing(path: seq<nat>, startLevel: nat)

  /**
    An address chain as the wallet uses it: the account public key its generator derives
    from, and its materialised addresses in index order (the chain's discovery logic is
    not part of this model).
  */
  datatype AddressChain = AddressChain(publicKey: string, addresses: seq<string>) {

    /** AddressChain.isMyAddress */
    predicate IsMyAddress(a: string) {
      a in addresses
    }

    /** AddressChain.getIndexOfAddress: the position of an owned address in the chain. */
    function IndexOfAddress(a: string): (i: nat)
      requires IsMyAddress(a)
      ensures i < |addresses| && addresses[i] == a
      ensures forall j :: 0 <= j < i ==> addresses[j] != a
    {
      FirstIndex(addresses, a)
    }

    /** The chain invariant: no address appears twice. */
    predicate Distinct() {
      forall i, j :: 0 <= i < j < |addresses| ==> addresses[i] != addresses[j]
    }
  }

  /** Position of the first occurrence of `a` in `s`. */
  function FirstIndex(s: seq<string>, a: string): (i: nat)
    requires a in s
    ensures i < |s| && s[i] == a
    ensures forall j :: 0 <= j < i ==> s[j] != a
  {
    if s[0] == a then 0 else 1 + FirstIndex(s[1..], a)
  }

  /** A spendable output as the backend reports it. */
  datatype RawUtxo = RawUtxo(utxoId: string, txHash: string, txIndex: nat, receiver: string, amount: string)

  /** A UTXO together with the derivation path of the address that receives it. */
  datatype AddressedUtxo = AddressedUtxo(utxo: RawUtxo, addressing: Addressing)

  /** A change output of a sign request: its address (hex for Shelley, base58 for Byron). */
  datatype ChangeAddr = ChangeAddr(address: string, addressing: Addressing)

  /**
    A sign request. Only `HaskellShelleyTxSignRequest` is accepted by the signers; every
    other kind of request is `OtherSignRequest`. The unsigned transaction builder and the
    metadata are opaque handles.
  */
  datatype SignRequest =
    | HaskellShelleyTxSignRequest(
        senderUtxos: seq<AddressedUtxo>,
        unsignedTx: string,
        changeAddr: seq<ChangeAddr>,
        metadata: Option<string>,
        neededHashes: set<string>)
    | OtherSignRequest(kind: string)

  /** The result of signing: the transaction id and the serialised transaction. */
  datatype SignedTx = SignedTx(id: string, encodedTx: string)

  /** The descriptor of a hardware device. */
  datatype HwDeviceInfo = HwDeviceInfo(deviceId: string, deviceModel: string, bip44AccountPublic: string)

  /** What the backend-derived certificate history says about the staking key. */
  datatype DelegationStatus = DelegationStatus(isRegistered: bool, poolKeyHash: Option<string>)

  /** The derived (resynchronisable) data of a wallet: transactions and per-reward-address certificates. */
  datatype TransactionCache = TransactionCache(transactions: seq<string>, perRewardAddressCertificates: map<string, seq<string>>)

  /** The state of a new cache, and of a cache after `resetState()`. */
  const EmptyCache := TransactionCache([], map[])

  /** The Haskell-Shelley network configurations (NETWORKS.HASKELL_SHELLEY and its testnet). */
  datatype CardanoNetwork = HaskellShelleyMainnetConfig | HaskellShelleyTestnetConfig

  /**
    Code the wallet calls but that is not part of this model, as total functions:
    key derivation and serialisation, hashing and witnessing, checksums, the address
    generator of a new chain, version comparison (None when it throws), the hardware
    codec and device, the delegation-status computation, the time-to-slot conversion
    of a network's genesis parameters (time in milliseconds since the epoch), and the
    reward-address builder (staking key and network to address).
  */
  datatype Collaborators = Collaborators(
    masterKeyFromMnemonic: string -> string,
    derive: (string, nat) -> string,
    toPublicHex: string -> string,
    toRawKey: string -> string,
    deriveRewardAddressHex: (string, NetworkId) -> string,
    walletChecksum: string -> string,
    legacyWalletChecksum: string -> string,
    initialChainAddresses: (string, ChainTag, WalletImplementationId, NetworkId) -> seq<string>,
    versionCompare: (string, string) -> Option<int>,
    buildTx: string -> string,
    hashTransaction: string -> string,
    makeVkeyWitness: (string, string) -> string,
    signTransaction: (seq<AddressedUtxo>, string, nat, string, set<string>, Option<string>) -> string,
    txBody: string -> string,
    txToBytes: string -> string,
    toHexOrBase58: string -> string,
    hexToBech32: string -> string,
    createLedgerSignTxPayload: (SignRequest, CardanoNetwork, map<string, Addressing>) -> string,
    ledgerSign: (string, HwDeviceInfo) -> Option<seq<string>>,
    buildSignedTransaction: (string, seq<AddressedUtxo>, seq<string>, Addressing, string, Option<string>) -> string,
    delegationStatus: (string, Option<seq<string>>) -> DelegationStatus,
    timeToSlot: (CardanoNetwork, int) -> nat,
    rewardAddressOf: (string, CardanoNetwork) -> string
  ) {

    /** BIP-32 derivation along a path, one `derive` call per index, from left to right. */
    function DerivePath(key: string, path: seq<nat>): string
      decreases |path|
    {
      if path == [] then key else DerivePath(derive(key, path[0]), path[1..])
    }

    /** The id and bytes of a signed transaction: the id is the hash of the transaction body. */
    function SignedTxOf(tx: string): SignedTx {
      SignedTx(hashTransaction(txBody(tx)), txToBytes(tx))
    }
  }

  /** Deriving along `p + q` is deriving along `p`, then along `q` from the key reached. */
  lemma {:induction false} DerivePathAppend(env: Collaborators, key: string, p: seq<nat>, q: seq<nat>)
    ensures env.DerivePath(key, p + q) == env.DerivePath(env.DerivePath(key, p), q)
    decreases |p|
  {
    if p == [] {
      assert p + q == q;
    } else {
      assert (p + q)[1..] == p[1..] + q;
      DerivePathAppend(env, env.derive(key, p[0]), p[1..], q);
    }
  }

  /** Deriving along a two-index path is two `derive` calls. */
  lemma DerivePathPair(env: Collaborators, key: string, a: nat, b: nat)
    ensures env.DerivePath(key, [a, b]) == env.derive(env.derive(key, a), b)
  {
    assert [a, b][1..] == [b];
    assert env.DerivePath(key, [a, b]) == env.DerivePath(env.derive(key, a), [b]);
    assert [b][1..] == [];
    assert env.DerivePath(env.derive(key, a), [b]) == env.DerivePath(env.derive(env.derive(key, a), b), []);
  }

  /** On a chain without repeated addresses, the index of the address at `i` is `i`. */
  lemma IndexOfDistinct(c: AddressChain, i: nat)
    requires c.Distinct() && i < |c.addresses|
    ensures c.IndexOfAddress(c.addresses[i]) == i
  {
    var k := c.IndexOfAddress(c.addresses[i]);
    if k < i {
      assert c.addresses[k] == c.addresses[i];
    }
  }
}

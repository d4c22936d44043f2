/**
  The Shelley-era wallet engine (which also serves legacy Byron wallets): creation and
  restoration of the wallet's fields, snapshot migration, the integrity check, the choice
  of network configuration and derivation purpose, change-address selection, derivation
  paths of owned addresses, UTXO resolution, and the bookkeeping of both signers.
*/
module ShelleyWallet {
  import opened Wrappers
  import opened Config
  import opened CardanoTypes

  /** The errors the wallet throws, with the source's assertion messages where it has them. */
  datatype WalletError =
    | AssertionFailed(message: string)
    | InvalidState(message: string)
    | InvalidNetworkId
    | InvalidImplementationId
    | AddressNotFound(address: string)
    | ChangeAddressingNotFound
    | InvalidSignRequest
    | RewardAddressNull
    | DeviceInfoNull
    | DeviceRejected

  /** The external wallet metadata used to backfill old snapshots. */
  datatype WalletMeta = WalletMeta(name: string, networkId: NetworkId, walletImplementationId: WalletImplementationId)

  /** A persisted wallet snapshot; fields absent from old snapshots are `None`. */
  datatype Snapshot = Snapshot(
    version: Option<string>,
    lastGeneratedAddressIndex: Option<int>,
    networkId: Option<NetworkId>,
    walletImplementationId: Option<WalletImplementationId>,
    isHW: Option<bool>,
    hwDeviceInfo: Option<HwDeviceInfo>,
    isReadOnly: Option<bool>,
    internalChain: AddressChain,
    externalChain: AddressChain,
    publicKeyHex: Option<string>,
    transactionCache: TransactionCache,
    isEasyConfirmationEnabled: Option<bool>)

  /** Every field of a wallet except its id, as one value. */
  datatype WalletFields = WalletFields(
    isInitialized: bool,
    networkId: NetworkId,
    walletImplementationId: WalletImplementationId,
    isHW: bool,
    hwDeviceInfo: Option<HwDeviceInfo>,
    isReadOnly: bool,
    transactionCache: TransactionCache,
    internalChain: AddressChain,
    externalChain: AddressChain,
    rewardAddressHex: Option<string>,
    publicKeyHex: string,
    version: string,
    checksum: string,
    lastGeneratedAddressIndex: Option<int>,
    isEasyConfirmationEnabled: Option<bool>)

  /** A withdrawal entry of a withdrawal transaction. */
  datatype Withdrawal = Withdrawal(addressing: Addressing, rewardAddress: string, shouldDeregister: bool)

  /** What the wallet hands to the withdrawal-transaction builder. */
  datatype WithdrawalPlan = WithdrawalPlan(
    network: CardanoNetwork,
    absSlotNumber: nat,
    changeAddr: ChangeAddr,
    addressedUtxos: seq<AddressedUtxo>,
    withdrawals: seq<Withdrawal>)

  // ---------------------------------------------------------------------------
  // Derivation paths

  /** purpose / coin type / hardened account: the account key's path. */
  function AccountPath(purpose: nat): seq<nat> {
    [purpose, COIN_TYPE_CARDANO, ACCOUNT_INDEX + HARD_DERIVATION_START]
  }

  /** The full path of the address at `index` on the chain `tag`. */
  function AddressPath(purpose: nat, tag: ChainTag, index: nat): seq<nat> {
    AccountPath(purpose) + [AddressTypeToChange(tag), index]
  }

  /** The full path of the staking key (the reward address's key). */
  function RewardPath(purpose: nat): seq<nat> {
    AccountPath(purpose) + [CHAIN_CHIMERIC_ACCOUNT, STAKING_KEY_INDEX]
  }

  /** The purpose `create` derives the account key with (its implementation id is already checked). */
  function EraPurpose(impl: WalletImplementationId): nat {
    if IsByron(impl) then PURPOSE_BIP44 else PURPOSE_CIP1852
  }

  /** The addressing of the address at `index` on chain `tag`. */
  function ChainAddressing(purpose: nat, tag: ChainTag, index: nat): Addressing {
    Addressing(AddressPath(purpose, tag, index), LEVEL_PURPOSE)
  }

  /**
    Reference definition of the addressing of `a`: the external chain takes precedence
    over the internal one, and an address neither chain owns has none.
  */
  function AddressingFor(purpose: nat, internal: AddressChain, external: AddressChain, a: string): Option<Addressing> {
    if external.IsMyAddress(a) then Some(ChainAddressing(purpose, External, external.IndexOfAddress(a)))
    else if internal.IsMyAddress(a) then Some(ChainAddressing(purpose, Internal, internal.IndexOfAddress(a)))
    else None
  }

  /**
    The addressing the last owning chain of `chains` gives `a`: what the source's
    `forEach` over the chain list leaves behind.
  */
  function LastOwner(purpose: nat, chains: seq<(ChainTag, AddressChain)>, a: string): Option<Addressing>
    decreases |chains|
  {
    if chains == [] then None
    else
      var (tag, chain) := chains[|chains| - 1];
      if chain.IsMyAddress(a) then Some(ChainAddressing(purpose, tag, chain.IndexOfAddress(a)))
      else LastOwner(purpose, chains[..|chains| - 1], a)
  }

  /** The addresses of `s` that are not used, in order (JavaScript's `filter`). */
  function Unused(s: seq<string>, isUsed: string -> bool): (r: seq<string>)
    ensures forall x :: x in r ==> x in s && !isUsed(x)
    ensures forall i :: 0 <= i < |s| && !isUsed(s[i]) ==> s[i] in r
  {
    if s == [] then []
    else if isUsed(s[0]) then Unused(s[1..], isUsed)
    else [s[0]] + Unused(s[1..], isUsed)
  }

  /** The first address the filter keeps is the first unused address of the chain. */
  lemma {:induction false} UnusedHead(s: seq<string>, isUsed: string -> bool)
    requires Unused(s, isUsed) != []
    ensures exists i :: 0 <= i < |s| && s[i] == Unused(s, isUsed)[0] && forall j :: 0 <= j < i ==> isUsed(s[j])
  {
    if !isUsed(s[0]) {
      assert s[0] == Unused(s, isUsed)[0];
    } else {
      UnusedHead(s[1..], isUsed);
      var i :| 0 <= i < |s[1..]| && s[1..][i] == Unused(s[1..], isUsed)[0] && forall j :: 0 <= j < i ==> isUsed(s[1..][j]);
      forall j | 0 <= j < i + 1 ensures isUsed(s[j]) {
        if j > 0 { assert s[j] == s[1..][j - 1]; }
      }
      assert s[i + 1] == Unused(s, isUsed)[0];
    }
  }

  // ---------------------------------------------------------------------------
  // Lifecycle specifications

  /** The fields `_initialize` sets from its arguments (chains are fresh, the cache is new). */
  function InitialFields(
    net: NetworkId, impl: WalletImplementationId, accountPubKeyHex: string, hw: Option<HwDeviceInfo>,
    readOnly: bool, env: Collaborators, appVersion: string, prior: WalletFields): (f: WalletFields)
    ensures f.isInitialized
    ensures f.isHW <==> hw.Some?
    ensures f.hwDeviceInfo == hw && f.isReadOnly == readOnly
    ensures f.networkId == net && f.walletImplementationId == impl && f.publicKeyHex == accountPubKeyHex
    ensures f.internalChain.publicKey == accountPubKeyHex && f.externalChain.publicKey == accountPubKeyHex
    ensures f.transactionCache == EmptyCache && f.rewardAddressHex.Some?
  {
    WalletFields(
      isInitialized := true,
      networkId := net,
      walletImplementationId := impl,
      isHW := hw != None,
      hwDeviceInfo := hw,
      isReadOnly := readOnly,
      transactionCache := EmptyCache,
      internalChain := AddressChain(accountPubKeyHex, env.initialChainAddresses(accountPubKeyHex, Internal, impl, net)),
      externalChain := AddressChain(accountPubKeyHex, env.initialChainAddresses(accountPubKeyHex, External, impl, net)),
      rewardAddressHex := Some(env.deriveRewardAddressHex(accountPubKeyHex, net)),
      publicKeyHex := accountPubKeyHex,
      version := appVersion,
      checksum := if IsByron(impl) then env.legacyWalletChecksum(accountPubKeyHex) else env.walletChecksum(accountPubKeyHex),
      lastGeneratedAddressIndex := prior.lastGeneratedAddressIndex,
      isEasyConfirmationEnabled := prior.isEasyConfirmationEnabled)
  }

  /** Whether a snapshot last seen by `lastSeen` forces a cache resync. */
  function ShouldResync(lastSeen: Option<string>, env: Collaborators): (b: bool)
    ensures lastSeen.None? ==> b
    ensures lastSeen.Some? && env.versionCompare(lastSeen.value, RESYNC_VERSION).None? ==> !b
    ensures lastSeen.Some? ==> (b <==> env.versionCompare(lastSeen.value, RESYNC_VERSION) == Some(-1))
  {
    match lastSeen
    case None => true
    case Some(v) =>
      match env.versionCompare(v, RESYNC_VERSION)
      case Some(c) => c == -1
      case None => false
  }

  /** The fields `_runMigrations` sets from a snapshot and the wallet metadata. */
  function MigratedFields(data: Snapshot, meta: WalletMeta, env: Collaborators, appVersion: string, prior: WalletFields): WalletFields
  {
    var net := if data.networkId.Some? then data.networkId.value else meta.networkId;
    var impl := if data.walletImplementationId.Some? then data.walletImplementationId.value else meta.walletImplementationId;
    var internal := data.internalChain;
    var pub := if data.publicKeyHex.Some? then data.publicKeyHex.value else internal.publicKey;
    WalletFields(
      isInitialized := prior.isInitialized,
      networkId := net,
      walletImplementationId := impl,
      isHW := if data.isHW.Some? then data.isHW.value else false,
      hwDeviceInfo := data.hwDeviceInfo,
      isReadOnly := if data.isReadOnly.Some? then data.isReadOnly.value else false,
      transactionCache := if ShouldResync(data.version, env) then EmptyCache else data.transactionCache,
      internalChain := internal,
      externalChain := data.externalChain,
      rewardAddressHex := Some(env.deriveRewardAddressHex(pub, net)),
      publicKeyHex := pub,
      version := appVersion,
      checksum := prior.checksum,
      lastGeneratedAddressIndex := data.lastGeneratedAddressIndex,
      isEasyConfirmationEnabled := data.isEasyConfirmationEnabled)
  }

  /** The legacy Byron-mainnet id is read as the Haskell-Shelley mainnet. */
  function RemapLegacyNetwork(n: NetworkId): NetworkId {
    if n == ByronMainnet then HaskellShelleyMainnet else n
  }

  /** The conditions the integrity check demands of a wallet. */
  predicate Consistent(f: WalletFields) {
    && IsHaskellShelleyNetwork(f.networkId)
    && (IsByron(f.walletImplementationId) || IsHaskellShelley(f.walletImplementationId))
    && (IsHaskellShelley(f.walletImplementationId) ==> f.rewardAddressHex.Some?)
    && (f.isHW ==> f.hwDeviceInfo.Some?)
  }

  /** The integrity check's assertions in the order the source runs them; the first failure is reported. */
  function IntegrityOutcome(f: WalletFields): (r: Outcome<WalletError>)
    ensures r.Pass? <==> Consistent(f)
    ensures r.Fail? ==> r.error.InvalidState?
  {
    if !IsHaskellShelleyNetwork(f.networkId) then Fail(InvalidState("invalid networkId"))
    else if !(IsByron(f.walletImplementationId) || IsHaskellShelley(f.walletImplementationId)) then
      Fail(InvalidState("invalid walletImplementationId"))
    else if IsHaskellShelley(f.walletImplementationId) && f.rewardAddressHex.None? then
      Fail(InvalidState("reward address is null"))
    else if f.isHW && f.hwDeviceInfo.None? then Fail(InvalidState("no device info for hardware wallet"))
    else Pass
  }

  /** The fields a successful or failed `restore` leaves: migrated, remapped, and initialised iff consistent. */
  function RestoredFields(data: Snapshot, meta: WalletMeta, env: Collaborators, appVersion: string, prior: WalletFields): WalletFields {
    var m := MigratedFields(data, meta, env, appVersion, prior);
    var checked := m.(networkId := RemapLegacyNetwork(m.networkId));
    checked.(isInitialized := prior.isInitialized || Consistent(checked))
  }

  /** The staking-key witnesses `signTx` adds: one when the request needs staking-key hashes, none otherwise. */
  function StakingWitnesses(env: Collaborators, accountKey: string, request: SignRequest): (w: set<string>)
    requires request.HaskellShelleyTxSignRequest?
    ensures |w| == if request.neededHashes == {} then 0 else 1
  {
    if request.neededHashes == {} then {}
    else
      var stakingKey := env.toRawKey(env.DerivePath(accountKey, [CHAIN_CHIMERIC_ACCOUNT, STAKING_KEY_INDEX]));
      {env.makeVkeyWitness(env.hashTransaction(env.buildTx(request.unsignedTx)), stakingKey)}
  }

  /** The set of change addresses of a request. */
  function ChangeAddresses(changes: seq<ChangeAddr>): set<string> {
    set c | c in changes :: c.address
  }

  /**
    The wallet. Its fields are those the source's object carries; methods that
    change state state the whole new state through `Fields()`.
  */
  class Wallet {
    var id: string
    var isInitialized: bool
    var networkId: NetworkId
    var walletImplementationId: WalletImplementationId
    var isHW: bool
    var hwDeviceInfo: Option<HwDeviceInfo>
    var isReadOnly: bool
    var transactionCache: TransactionCache
    var internalChain: AddressChain
    var externalChain: AddressChain
    var rewardAddressHex: Option<string>
    var publicKeyHex: string
    var version: string
    var checksum: string
    var lastGeneratedAddressIndex: Option<int>
    var isEasyConfirmationEnabled: Option<bool>

    /**
      A blank, uninitialised wallet. The network and implementation ids are unset until
      `_initialize` or `restore`; they hold values no registry entry matches, so, as with
      the source's `undefined`, neither a network configuration nor a purpose is found.
    */
    constructor ()
      ensures !isInitialized && !isHW && hwDeviceInfo.None? && rewardAddressHex.None?
      ensures NetworkConfig() == Err(InvalidNetworkId) && Purpose() == Err(InvalidImplementationId)
    {
      id := "";
      isInitialized := false;
      networkId := OtherNetwork(-1);
      walletImplementationId := OtherImplementation("");
      isHW := false;
      hwDeviceInfo := None;
      isReadOnly := false;
      transactionCache := EmptyCache;
      internalChain := AddressChain("", []);
      externalChain := AddressChain("", []);
      rewardAddressHex := None;
      publicKeyHex := "";
      version := "";
      checksum := "";
      lastGeneratedAddressIndex := None;
      isEasyConfirmationEnabled := None;
    }

    function Fields(): WalletFields
      reads this
    {
      WalletFields(isInitialized, networkId, walletImplementationId, isHW, hwDeviceInfo, isReadOnly,
        transactionCache, internalChain, externalChain, rewardAddressHex, publicKeyHex, version,
        checksum, lastGeneratedAddressIndex, isEasyConfirmationEnabled)
    }

    // ------------------------------------------------------------------ create

    /** The network, implementation and device fields, which `_initialize` and `_runMigrations` both set first. */
    method SetProfile(net: NetworkId, impl: WalletImplementationId, hw: bool, info: Option<HwDeviceInfo>, readOnly: bool)
      modifies this`networkId, this`walletImplementationId, this`isHW, this`hwDeviceInfo, this`isReadOnly
      ensures networkId == net && walletImplementationId == impl
      ensures isHW == hw && hwDeviceInfo == info && isReadOnly == readOnly
    {
      networkId := net;
      walletImplementationId := impl;
      isHW := hw;
      hwDeviceInfo := info;
      isReadOnly := readOnly;
    }

    /** The address chains and the keys derived from the account key, which both set next. */
    method SetKeys(internal: AddressChain, external: AddressChain, pub: string, reward: Option<string>)
      modifies this`internalChain, this`externalChain, this`publicKeyHex, this`rewardAddressHex
      ensures internalChain == internal && externalChain == external
      ensures publicKeyHex == pub && rewardAddressHex == reward
    {
      internalChain := internal;
      externalChain := external;
      rewardAddressHex := reward;
      publicKeyHex := pub;
    }

    /** The transaction cache and the user's address-index and confirmation settings, which `_runMigrations` sets last. */
    method SetHistory(cache: TransactionCache, lastIndex: Option<int>, easyConfirmation: Option<bool>)
      modifies this`transactionCache, this`lastGeneratedAddressIndex, this`isEasyConfirmationEnabled
      ensures transactionCache == cache
      ensures lastGeneratedAddressIndex == lastIndex && isEasyConfirmationEnabled == easyConfirmation
    {
      lastGeneratedAddressIndex := lastIndex;
      transactionCache := cache;
      isEasyConfirmationEnabled := easyConfirmation;
    }

    /** `_initialize`: sets every field from the arguments and marks the wallet initialised. */
    method Initialize(
      net: NetworkId, impl: WalletImplementationId, accountPubKeyHex: string, hw: Option<HwDeviceInfo>,
      readOnly: bool, env: Collaborators, appVersion: string)
      returns (walletId: string)
      modifies this
      ensures Fields() == InitialFields(net, impl, accountPubKeyHex, hw, readOnly, env, appVersion, old(Fields()))
      ensures isInitialized && (isHW <==> hwDeviceInfo.Some?)
      ensures id == old(id) && walletId == id
    {
      var internal := AddressChain(accountPubKeyHex, env.initialChainAddresses(accountPubKeyHex, Internal, impl, net));
      var external := AddressChain(accountPubKeyHex, env.initialChainAddresses(accountPubKeyHex, External, impl, net));
      var reward := env.deriveRewardAddressHex(accountPubKeyHex, net);
      var sum := if IsByron(impl) then env.legacyWalletChecksum(accountPubKeyHex) else env.walletChecksum(accountPubKeyHex);
      SetProfile(net, impl, hw != None, hw, readOnly);
      transactionCache := EmptyCache;
      SetKeys(internal, external, accountPubKeyHex, Some(reward));
      version := appVersion;
      checksum := sum;
      isInitialized := true;
      walletId := id;
    }

    /**
      `create`: takes a fresh id, refuses an initialised wallet, an invalid network and an
      invalid implementation id, then derives the account key along the era's purpose path
      and initialises. Persisting the encrypted master key is not modelled.
    */
    method Create(mnemonic: string, net: NetworkId, impl: WalletImplementationId, env: Collaborators, freshId: string, appVersion: string)
      returns (r: Result<string, WalletError>)
      modifies this
      ensures id == freshId
      ensures old(isInitialized) ==> r == Err(AssertionFailed("ShelleyWallet::create: !isInitialized"))
      ensures !old(isInitialized) && !IsHaskellShelleyNetwork(net) ==>
        r == Err(AssertionFailed("ShelleyWallet::create: invalid networkId"))
      ensures !old(isInitialized) && IsHaskellShelleyNetwork(net) && !(IsByron(impl) || IsHaskellShelley(impl)) ==>
        r == Err(AssertionFailed("ShelleyWallet::create: invalid walletImplementationId"))
      ensures r.Err? ==> Fields() == old(Fields())
      ensures r.Ok? <==> !old(isInitialized) && IsHaskellShelleyNetwork(net) && (IsByron(impl) || IsHaskellShelley(impl))
      ensures r.Ok? ==> r.value == freshId && Fields() == InitialFields(net, impl,
        env.toPublicHex(env.DerivePath(env.masterKeyFromMnemonic(mnemonic), AccountPath(EraPurpose(impl)))),
        None, false, env, appVersion, old(Fields()))
    {
      id := freshId;
      if isInitialized {
        return Err(AssertionFailed("ShelleyWallet::create: !isInitialized"));
      }
      if !IsHaskellShelleyNetwork(net) {
        return Err(AssertionFailed("ShelleyWallet::create: invalid networkId"));
      }
      if !(IsByron(impl) || IsHaskellShelley(impl)) {
        return Err(AssertionFailed("ShelleyWallet::create: invalid walletImplementationId"));
      }
      var masterKey := env.masterKeyFromMnemonic(mnemonic);
      var purpose := if IsByron(impl) then PURPOSE_BIP44 else PURPOSE_CIP1852;
      var accountKey := env.DerivePath(masterKey, [purpose, COIN_TYPE_CARDANO, ACCOUNT_INDEX + HARD_DERIVATION_START]);
      var accountPubKeyHex := env.toPublicHex(accountKey);
      var walletId := Initialize(net, impl, accountPubKeyHex, None, false, env, appVersion);
      r := Ok(walletId);
    }

    /**
      `createWithBip44Account`: takes a fresh id, refuses an initialised wallet, and
      initialises from an externally supplied account public key (hardware or read-only).
    */
    method CreateWithBip44Account(
      accountPublicKey: string, net: NetworkId, impl: WalletImplementationId, hw: Option<HwDeviceInfo>,
      readOnly: bool, env: Collaborators, freshId: string, appVersion: string)
      returns (r: Result<string, WalletError>)
      modifies this
      ensures id == freshId
      ensures old(isInitialized) ==> r == Err(AssertionFailed("createWallet: !isInitialized")) && Fields() == old(Fields())
      ensures !old(isInitialized) ==>
        (r == Ok(freshId) && Fields() == InitialFields(net, impl, accountPublicKey, hw, readOnly, env, appVersion, old(Fields())))
    {
      id := freshId;
      if isInitialized {
        return Err(AssertionFailed("createWallet: !isInitialized"));
      }
      var walletId := Initialize(net, impl, accountPublicKey, hw, readOnly, env, appVersion);
      r := Ok(walletId);
    }

    // ------------------------------------------------------------------ restore

    /**
      `_runMigrations`: copies the snapshot, backfilling fields older snapshots lack, and
      resets the transaction cache when the last-seen version is absent or below 4.1.0.
    */
    method RunMigrations(data: Snapshot, meta: WalletMeta, env: Collaborators, appVersion: string)
      modifies this
      ensures Fields() == MigratedFields(data, meta, env, appVersion, old(Fields()))
      ensures id == old(id)
    {
      var m := MigratedFields(data, meta, env, appVersion, Fields());
      SetProfile(m.networkId, m.walletImplementationId, m.isHW, m.hwDeviceInfo, m.isReadOnly);
      version := m.version;
      SetKeys(m.internalChain, m.externalChain, m.publicKeyHex, m.rewardAddressHex);
      SetHistory(m.transactionCache, m.lastGeneratedAddressIndex, m.isEasyConfirmationEnabled);
    }

    /**
      `_integrityCheck`: rewrites the legacy Byron-mainnet id, then fails with
      `InvalidState` on the first violated condition.
    */
    method IntegrityCheck() returns (r: Outcome<WalletError>)
      modifies this`networkId
      ensures networkId == RemapLegacyNetwork(old(networkId))
      ensures r == IntegrityOutcome(Fields())
      ensures r.Pass? <==> Consistent(Fields())
    {
      if networkId == ByronMainnet {
        networkId := HaskellShelleyMainnet;
      }
      if !IsHaskellShelleyNetwork(networkId) {
        return Fail(InvalidState("invalid networkId"));
      }
      if !(IsByron(walletImplementationId) || IsHaskellShelley(walletImplementationId)) {
        return Fail(InvalidState("invalid walletImplementationId"));
      }
      if IsHaskellShelley(walletImplementationId) && rewardAddressHex.None? {
        return Fail(InvalidState("reward address is null"));
      }
      if isHW && hwDeviceInfo.None? {
        return Fail(InvalidState("no device info for hardware wallet"));
      }
      r := Pass;
    }

    /** `restore`: refuses an initialised wallet, migrates, checks integrity, then marks the wallet initialised. */
    method Restore(data: Snapshot, meta: WalletMeta, env: Collaborators, appVersion: string) returns (r: Outcome<WalletError>)
      modifies this
      ensures id == old(id)
      ensures old(isInitialized) ==> r == Fail(AssertionFailed("restoreWallet: !isInitialized")) && Fields() == old(Fields())
      ensures !old(isInitialized) ==> Fields() == RestoredFields(data, meta, env, appVersion, old(Fields()))
      ensures !old(isInitialized) ==> (r.Pass? <==> isInitialized) && (r.Fail? ==> r.error.InvalidState?)
      ensures r.Pass? ==> isInitialized && Consistent(Fields())
    {
      if isInitialized {
        return Fail(AssertionFailed("restoreWallet: !isInitialized"));
      }
      RunMigrations(data, meta, env, appVersion);
      r := IntegrityCheck();
      if r.Fail? {
        return;
      }
      isInitialized := true;
    }

    // ------------------------------------------------------------------ utils

    /** `_getNetworkConfig`: the configuration of one of the two Haskell-Shelley networks. */
    function NetworkConfig(): (r: Result<CardanoNetwork, WalletError>)
      reads this
      ensures r.Ok? <==> IsHaskellShelleyNetwork(networkId)
      ensures r == Ok(HaskellShelleyMainnetConfig) <==> networkId == HaskellShelleyMainnet
      ensures r == Ok(HaskellShelleyTestnetConfig) <==> networkId == HaskellShelleyTestnet
    {
      match networkId
      case HaskellShelleyMainnet => Ok(HaskellShelleyMainnetConfig)
      case HaskellShelleyTestnet => Ok(HaskellShelleyTestnetConfig)
      case _ => Err(InvalidNetworkId)
    }

    /** `_getPurpose`: BIP-44 for Byron wallets, CIP-1852 for Shelley wallets, an error otherwise. */
    function Purpose(): (r: Result<nat, WalletError>)
      reads this
      ensures r.Ok? <==> IsByron(walletImplementationId) || IsHaskellShelley(walletImplementationId)
      ensures r.Ok? ==> r.value >= HARD_DERIVATION_START
      ensures r.Ok? ==> r.value - HARD_DERIVATION_START == if IsByron(walletImplementationId) then 44 else 1852
      ensures r.Err? ==> r.error == InvalidImplementationId
    {
      if IsByron(walletImplementationId) then Ok(PURPOSE_BIP44)
      else if IsHaskellShelley(walletImplementationId) then Ok(PURPOSE_CIP1852)
      else Err(InvalidImplementationId)
    }

    /**
      `getChangeAddress`: the first internal-chain address, in chain order, that is not
      used; fails when every internal address is used.
    */
    function ChangeAddress(isUsed: string -> bool): (r: Result<string, WalletError>)
      reads this
      ensures r.Ok? <==> exists i :: 0 <= i < |internalChain.addresses| && !isUsed(internalChain.addresses[i])
      ensures r.Ok? ==> exists i :: (0 <= i < |internalChain.addresses| && internalChain.addresses[i] == r.value &&
        !isUsed(r.value) && forall j :: 0 <= j < i ==> isUsed(internalChain.addresses[j]))
      ensures r.Err? ==> r.error == AssertionFailed("Cannot find change address")
    {
      var unseen := Unused(internalChain.addresses, isUsed);
      if |unseen| > 0 then UnusedHead(internalChain.addresses, isUsed); Ok(unseen[0])
      else Err(AssertionFailed("Cannot find change address"))
    }

    /** The addressing of `address` as `getAddressingInfo` returns it (reference definition). */
    function AddressingInfo(address: string): Result<Option<Addressing>, WalletError>
      reads this
    {
      match Purpose()
      case Err(e) => Err(e)
      case Ok(p) => Ok(AddressingFor(p, internalChain, externalChain, address))
    }

    /**
      `getAddressingInfo`: walks the internal then the external chain and keeps the path
      given by the last chain that owns the address.
    */
    method GetAddressingInfo(address: string) returns (r: Result<Option<Addressing>, WalletError>)
      ensures r == AddressingInfo(address)
    {
      var purpose :- Purpose();
      var chains := [(Internal, internalChain), (External, externalChain)];
      var addressInfo: Option<Addressing> := None;
      for k := 0 to |chains|
        invariant addressInfo == LastOwner(purpose, chains[..k], address)
      {
        var (tag, chain) := chains[k];
        assert chains[..k + 1][..k] == chains[..k];
        if chain.IsMyAddress(address) {
          addressInfo := Some(ChainAddressing(purpose, tag, chain.IndexOfAddress(address)));
        }
      }
      assert chains[..2] == chains;
      assert chains[..1] == [(Internal, internalChain)];
      r := Ok(addressInfo);
    }

    /** Whether `getAddressingInfo` finds a path for `address`. */
    predicate Resolvable(address: string)
      reads this
    {
      AddressingInfo(address).Ok? && AddressingInfo(address).value.Some?
    }

    /**
      `asAddressedUtxo`: attaches to each UTXO, in order, the path of its receiving address;
      throws at the first UTXO whose receiver no chain owns.
    */
    function AsAddressedUtxo(utxos: seq<RawUtxo>): (r: Result<seq<AddressedUtxo>, WalletError>)
      reads this
      ensures r.Ok? <==> forall i :: 0 <= i < |utxos| ==> Resolvable(utxos[i].receiver)
      ensures r.Ok? ==> |r.value| == |utxos| && forall i :: 0 <= i < |utxos| ==>
        r.value[i].utxo == utxos[i] && AddressingInfo(utxos[i].receiver) == Ok(Some(r.value[i].addressing))
      ensures r.Err? ==> exists i :: (0 <= i < |utxos| && !Resolvable(utxos[i].receiver) &&
        (forall j :: 0 <= j < i ==> Resolvable(utxos[j].receiver)) &&
        r.error == (if AddressingInfo(utxos[i].receiver).Err? then AddressingInfo(utxos[i].receiver).error
                    else AddressNotFound(utxos[i].receiver)))
      decreases |utxos|
    {
      if utxos == [] then Ok([])
      else
        match AddressingInfo(utxos[0].receiver)
        case Err(e) => Err(e)
        case Ok(None) => Err(AddressNotFound(utxos[0].receiver))
        case Ok(Some(info)) =>
          match AsAddressedUtxo(utxos[1..])
          case Err(e) =>
            assert forall j :: 1 <= j < |utxos| ==> utxos[j] == utxos[1..][j - 1];
            Err(e)
          case Ok(rest) =>
            assert forall j :: 1 <= j < |utxos| ==> utxos[j] == utxos[1..][j - 1];
            Ok([AddressedUtxo(utxos[0], info)] + rest)
    }

    /**
      `_getAddressedChangeAddress`: the change address in hex/base58 with its path. Its
      "should never happen" branch cannot be reached: a change address always has a path.
    */
    function AddressedChangeAddress(isUsed: string -> bool, env: Collaborators): (r: Result<ChangeAddr, WalletError>)
      reads this
      ensures ChangeAddress(isUsed).Err? ==> r == Err(ChangeAddress(isUsed).error)
      ensures r.Ok? ==> ChangeAddress(isUsed).Ok? && Purpose().Ok?
      ensures r.Ok? ==>
        (r.value.address == env.toHexOrBase58(ChangeAddress(isUsed).value) &&
         Some(r.value.addressing) == AddressingFor(Purpose().value, internalChain, externalChain, ChangeAddress(isUsed).value))
    {
      match ChangeAddress(isUsed)
      case Err(e) => Err(e)
      case Ok(change) =>
        match AddressingInfo(change)
        case Err(e) => Err(e)
        case Ok(None) => Err(ChangeAddressingNotFound)
        case Ok(Some(info)) => Ok(ChangeAddr(env.toHexOrBase58(change), info))
    }

    /**
      `getStakingKey`: only a Shelley-era wallet has one; it is the account public key
      derived along the chimeric-account chain and the staking index.
    */
    function StakingKey(env: Collaborators): (r: Result<string, WalletError>)
      reads this
      ensures r.Ok? <==> IsHaskellShelley(walletImplementationId)
      ensures r.Err? ==> r.error == AssertionFailed("cannot get staking key from a byron-era wallet")
      ensures r.Ok? ==> r.value == env.toRawKey(env.DerivePath(publicKeyHex, [CHAIN_CHIMERIC_ACCOUNT, STAKING_KEY_INDEX]))
    {
      if !IsHaskellShelley(walletImplementationId) then
        Err(AssertionFailed("cannot get staking key from a byron-era wallet"))
      else
        DerivePathPair(env, publicKeyHex, CHAIN_CHIMERIC_ACCOUNT, STAKING_KEY_INDEX);
        Ok(env.toRawKey(env.derive(env.derive(publicKeyHex, CHAIN_CHIMERIC_ACCOUNT), STAKING_KEY_INDEX)))
    }

    /**
      `getRewardAddress`: refuses a Byron-era wallet, then builds the reward address of
      the staking key on the wallet's network.
    */
    function RewardAddress(env: Collaborators): (r: Result<string, WalletError>)
      reads this
      ensures !IsHaskellShelley(walletImplementationId) ==> r == Err(AssertionFailed("cannot get reward address from a byron-era wallet"))
      ensures IsHaskellShelley(walletImplementationId) && NetworkConfig().Err? ==> r == Err(NetworkConfig().error)
      ensures r.Ok? <==> IsHaskellShelley(walletImplementationId) && NetworkConfig().Ok?
      ensures r.Ok? ==> StakingKey(env).Ok? && r.value == env.rewardAddressOf(StakingKey(env).value, NetworkConfig().value)
    {
      if !IsHaskellShelley(walletImplementationId) then
        Err(AssertionFailed("cannot get reward address from a byron-era wallet"))
      else
        var stakingKey := StakingKey(env).value;
        match NetworkConfig()
        case Err(e) => Err(e)
        case Ok(network) => Ok(env.rewardAddressOf(stakingKey, network))
    }

    /** `_getRewardAddressAddressing`: the staking key's path on the chimeric-account chain. */
    function RewardAddressAddressing(): (r: Result<Addressing, WalletError>)
      reads this
      ensures r.Ok? <==> Purpose().Ok?
      ensures r.Ok? ==>
        (r.value.startLevel == LEVEL_PURPOSE && |r.value.path| == 5 &&
         r.value.path[..3] == AccountPath(Purpose().value) &&
         r.value.path[3] == CHAIN_CHIMERIC_ACCOUNT && r.value.path[4] == STAKING_KEY_INDEX)
    {
      match Purpose()
      case Err(e) => Err(e)
      case Ok(purpose) => Ok(Addressing(RewardPath(purpose), LEVEL_PURPOSE))
    }

    /** `getDelegationStatus`: refuses a wallet without a reward address, then reads its certificates. */
    function DelegationStatusOf(env: Collaborators): (r: Result<DelegationStatus, WalletError>)
      reads this
      ensures r.Err? <==> rewardAddressHex.None?
      ensures r.Err? ==> r.error == RewardAddressNull
      ensures r.Ok? ==> r.value == env.delegationStatus(rewardAddressHex.value,
        if rewardAddressHex.value in transactionCache.perRewardAddressCertificates
        then Some(transactionCache.perRewardAddressCertificates[rewardAddressHex.value]) else None)
    {
      match rewardAddressHex
      case None => Err(RewardAddressNull)
      case Some(reward) =>
        var certs := transactionCache.perRewardAddressCertificates;
        Ok(env.delegationStatus(reward, if reward in certs then Some(certs[reward]) else None))
    }

    /** `fetchAccountState`: refuses a wallet without a reward address; queries exactly that address. */
    function AccountStateQuery(): (r: Result<(seq<string>, CardanoNetwork), WalletError>)
      reads this
      ensures rewardAddressHex.None? ==> r == Err(RewardAddressNull)
      ensures rewardAddressHex.Some? && NetworkConfig().Err? ==> r == Err(NetworkConfig().error)
      ensures r.Ok? <==> rewardAddressHex.Some? && IsHaskellShelleyNetwork(networkId)
      ensures r.Ok? ==> r.value.0 == [rewardAddressHex.value] && r.value.1 == NetworkConfig().value
    {
      if rewardAddressHex.None? then Err(RewardAddressNull)
      else
        match NetworkConfig()
        case Err(e) => Err(e)
        case Ok(network) => Ok(([rewardAddressHex.value], network))
    }

    /**
      `createWithdrawalTx` up to the builder call: refuses a wallet without a reward
      address, converts the server's time (or the current time, when none is given) to
      an absolute slot of the wallet's network, resolves change address and inputs, and
      withdraws from the reward address at its staking path. Times are milliseconds
      since the epoch; `now` stands for `new Date()`.
    */
    function WithdrawalRequest(
      utxos: seq<RawUtxo>, shouldDeregister: bool, serverTime: Option<int>, now: int,
      isUsed: string -> bool, env: Collaborators): (r: Result<WithdrawalPlan, WalletError>)
      reads this
      ensures rewardAddressHex.None? ==> r == Err(RewardAddressNull)
      ensures rewardAddressHex.Some? && NetworkConfig().Err? ==> r == Err(NetworkConfig().error)
      ensures rewardAddressHex.Some? && NetworkConfig().Ok? && AddressedChangeAddress(isUsed, env).Err? ==>
        r == Err(AddressedChangeAddress(isUsed, env).error)
      ensures rewardAddressHex.Some? && NetworkConfig().Ok? && AddressedChangeAddress(isUsed, env).Ok? && AsAddressedUtxo(utxos).Err? ==>
        r == Err(AsAddressedUtxo(utxos).error)
      ensures r.Ok? <==>
        rewardAddressHex.Some? && NetworkConfig().Ok? && AddressedChangeAddress(isUsed, env).Ok? && AsAddressedUtxo(utxos).Ok?
      ensures r.Ok? ==> Purpose().Ok? && r.value.network == NetworkConfig().value
      ensures r.Ok? ==> r.value.absSlotNumber == env.timeToSlot(NetworkConfig().value, serverTime.GetOr(now))
      ensures r.Ok? ==> r.value.withdrawals == [Withdrawal(Addressing(RewardPath(Purpose().value), LEVEL_PURPOSE), rewardAddressHex.value, shouldDeregister)]
      ensures r.Ok? ==> AsAddressedUtxo(utxos) == Ok(r.value.addressedUtxos) && AddressedChangeAddress(isUsed, env) == Ok(r.value.changeAddr)
    {
      if rewardAddressHex.None? then Err(RewardAddressNull)
      else
        match NetworkConfig()
        case Err(e) => Err(e)
        case Ok(network) =>
          var absSlotNumber := env.timeToSlot(network, if serverTime.Some? then serverTime.value else now);
          match AddressedChangeAddress(isUsed, env)
          case Err(e) => Err(e)
          case Ok(changeAddr) =>
            match AsAddressedUtxo(utxos)
            case Err(e) => Err(e)
            case Ok(addressedUtxos) =>
              // the change address resolved, so the purpose did and the staking path exists
              var addressing := RewardAddressAddressing().value;
              Ok(WithdrawalPlan(network, absSlotNumber, changeAddr, addressedUtxos,
                [Withdrawal(addressing, rewardAddressHex.value, shouldDeregister)]))
    }

    // ------------------------------------------------------------------ signing

    /**
      `signTx`: derives the account key along the wallet's purpose path, rejects a request
      of the wrong kind, adds the staking-key witness when the request needs staking-key
      hashes (only a Shelley wallet may), then signs; the id is the hash of the body.
    */
    method SignTx(request: SignRequest, decryptedMasterKey: string, env: Collaborators) returns (r: Result<SignedTx, WalletError>)
      ensures Purpose().Err? ==> r == Err(InvalidImplementationId)
      ensures Purpose().Ok? && !request.HaskellShelleyTxSignRequest? ==> r == Err(InvalidSignRequest)
      ensures (Purpose().Ok? && request.HaskellShelleyTxSignRequest? && request.neededHashes != {} &&
               !IsHaskellShelley(walletImplementationId)) ==>
              r == Err(AssertionFailed("cannot get reward address from a byron-era wallet"))
      ensures r.Ok? <==>
        (Purpose().Ok? && request.HaskellShelleyTxSignRequest? &&
         (request.neededHashes != {} ==> IsHaskellShelley(walletImplementationId)))
      ensures r.Ok? ==>
        var accountKey := env.DerivePath(decryptedMasterKey, AccountPath(Purpose().value));
        r.value == env.SignedTxOf(env.signTransaction(request.senderUtxos, request.unsignedTx, LEVEL_ACCOUNT,
          accountKey, StakingWitnesses(env, accountKey, request), request.metadata))
    {
      var purpose :- Purpose();
      var accountPvrKey := env.DerivePath(decryptedMasterKey, [purpose, COIN_TYPE_CARDANO, 0 + HARD_DERIVATION_START]);
      var wits: set<string> := {};
      if !request.HaskellShelleyTxSignRequest? {
        return Err(InvalidSignRequest);
      }
      if |request.neededHashes| != 0 {
        if !IsHaskellShelley(walletImplementationId) {
          return Err(AssertionFailed("cannot get reward address from a byron-era wallet"));
        }
        var txBuilder := request.unsignedTx;
        var stakingKey := env.toRawKey(env.derive(env.derive(accountPvrKey, CHAIN_CHIMERIC_ACCOUNT), STAKING_KEY_INDEX));
        DerivePathPair(env, accountPvrKey, CHAIN_CHIMERIC_ACCOUNT, STAKING_KEY_INDEX);
        wits := wits + {env.makeVkeyWitness(env.hashTransaction(env.buildTx(txBuilder)), stakingKey)};
      }
      var signedTx := env.signTransaction(request.senderUtxos, request.unsignedTx, LEVEL_ACCOUNT, accountPvrKey, wits, request.metadata);
      r := Ok(SignedTx(env.hashTransaction(env.txBody(signedTx)), env.txToBytes(signedTx)));
    }

    /** The address `signTxWithLedger` looks a change address up by: as is for Byron, bech32 for Shelley. */
    function LedgerLookupKey(address: string, env: Collaborators): string
      reads this
    {
      if IsByron(walletImplementationId) then address else env.hexToBech32(address)
    }

    /** The address-to-path entries of the owned change addresses among `changes`. */
    function OwnedChangeMap(purpose: nat, changes: seq<ChangeAddr>, env: Collaborators): map<string, Addressing>
      reads this
    {
      map a | a in ChangeAddresses(changes) && AddressingFor(purpose, internalChain, externalChain, LedgerLookupKey(a, env)).Some?
        :: AddressingFor(purpose, internalChain, externalChain, LedgerLookupKey(a, env)).value
    }

    /**
      Reference definition of the ledger addressing map: every owned change address maps
      to its path, and the reward address (when present, and taking precedence) maps to
      the staking path.
    */
    function LedgerAddressingMapSpec(changes: seq<ChangeAddr>, env: Collaborators): Result<map<string, Addressing>, WalletError>
      reads this
    {
      if changes == [] && rewardAddressHex.None? then Ok(map[])
      else
        match Purpose()
        case Err(e) => Err(e)
        case Ok(p) =>
          var owned := OwnedChangeMap(p, changes, env);
          Ok(if rewardAddressHex.Some? then owned[rewardAddressHex.value := Addressing(RewardPath(p), LEVEL_PURPOSE)] else owned)
    }

    /** The address-to-path map `signTxWithLedger` builds, one change output at a time. */
    method LedgerAddressingMap(changes: seq<ChangeAddr>, env: Collaborators) returns (r: Result<map<string, Addressing>, WalletError>)
      ensures r == LedgerAddressingMapSpec(changes, env)
    {
      var addressingInfo: map<string, Addressing> := map[];
      for i := 0 to |changes|
        invariant i > 0 ==> Purpose().Ok?
        invariant Purpose().Ok? ==> addressingInfo == OwnedChangeMap(Purpose().value, changes[..i], env)
        invariant Purpose().Err? ==> addressingInfo == map[]
      {
        var change := changes[i];
        var addressing :- GetAddressingInfo(LedgerLookupKey(change.address, env));
        OwnedChangeMapStep(Purpose().value, changes, i, env);
        if addressing.Some? {
          addressingInfo := addressingInfo[change.address := addressing.value];
        }
      }
      assert changes[..|changes|] == changes;
      if rewardAddressHex.Some? {
        var rewardAddressing :- RewardAddressAddressing();
        addressingInfo := addressingInfo[rewardAddressHex.value := rewardAddressing];
      }
      r := Ok(addressingInfo);
    }

    lemma OwnedChangeMapStep(purpose: nat, changes: seq<ChangeAddr>, i: nat, env: Collaborators)
      requires i < |changes|
      ensures var a := changes[i].address;
        var info := AddressingFor(purpose, internalChain, externalChain, LedgerLookupKey(a, env));
        OwnedChangeMap(purpose, changes[..i + 1], env) ==
          if info.Some? then OwnedChangeMap(purpose, changes[..i], env)[a := info.value]
          else OwnedChangeMap(purpose, changes[..i], env)
    {
      assert changes[..i + 1] == changes[..i] + [changes[i]];
      assert ChangeAddresses(changes[..i + 1]) == ChangeAddresses(changes[..i]) + {changes[i].address};
    }

    /** The witnesses the device returns for a request, or `None` when it rejects. */
    function LedgerWitnesses(request: SignRequest, env: Collaborators): Option<seq<string>>
      reads this
      requires request.HaskellShelleyTxSignRequest?
      requires LedgerAddressingMapSpec(request.changeAddr, env).Ok? && NetworkConfig().Ok? && hwDeviceInfo.Some?
    {
      var payload := env.createLedgerSignTxPayload(request, NetworkConfig().value, LedgerAddressingMapSpec(request.changeAddr, env).value);
      env.ledgerSign(payload, hwDeviceInfo.value)
    }

    /**
      `signTxWithLedger`: rejects a request of the wrong kind, builds the address map and
      the payload (which needs the network), refuses a wallet without device info, has the
      device sign, and rebuilds the signed transaction from the device's witnesses with
      the account-level addressing; the id is the hash of the body. Each step's failure
      is the result, in this order.
    */
    method SignTxWithLedger(request: SignRequest, env: Collaborators) returns (r: Result<SignedTx, WalletError>)
      ensures !request.HaskellShelleyTxSignRequest? ==> r == Err(InvalidSignRequest)
      ensures request.HaskellShelleyTxSignRequest? && LedgerAddressingMapSpec(request.changeAddr, env).Err? ==>
        r == Err(LedgerAddressingMapSpec(request.changeAddr, env).error)
      ensures (request.HaskellShelleyTxSignRequest? && LedgerAddressingMapSpec(request.changeAddr, env).Ok? &&
               NetworkConfig().Err?) ==> r == Err(NetworkConfig().error)
      ensures (request.HaskellShelleyTxSignRequest? && LedgerAddressingMapSpec(request.changeAddr, env).Ok? &&
               NetworkConfig().Ok? && hwDeviceInfo.None?) ==> r == Err(DeviceInfoNull)
      ensures (request.HaskellShelleyTxSignRequest? && LedgerAddressingMapSpec(request.changeAddr, env).Ok? &&
               NetworkConfig().Ok? && hwDeviceInfo.Some? && LedgerWitnesses(request, env).None?) ==> r == Err(DeviceRejected)
      ensures (request.HaskellShelleyTxSignRequest? && LedgerAddressingMapSpec(request.changeAddr, env).Ok? &&
               NetworkConfig().Ok? && hwDeviceInfo.Some? && LedgerWitnesses(request, env).Some? && Purpose().Err?) ==>
              r == Err(Purpose().error)
      ensures r.Ok? <==>
        (request.HaskellShelleyTxSignRequest? && LedgerAddressingMapSpec(request.changeAddr, env).Ok? &&
         NetworkConfig().Ok? && hwDeviceInfo.Some? && LedgerWitnesses(request, env).Some? && Purpose().Ok?)
      ensures r.Ok? ==>
        (request.HaskellShelleyTxSignRequest? && LedgerAddressingMapSpec(request.changeAddr, env).Ok? &&
         NetworkConfig().Ok? && hwDeviceInfo.Some? && LedgerWitnesses(request, env).Some? && Purpose().Ok? &&
         r.value == env.SignedTxOf(env.buildSignedTransaction(env.buildTx(request.unsignedTx), request.senderUtxos,
           LedgerWitnesses(request, env).value, Addressing(AccountPath(Purpose().value), LEVEL_PURPOSE), publicKeyHex, request.metadata)))
    {
      if !request.HaskellShelleyTxSignRequest? {
        return Err(InvalidSignRequest);
      }
      var addressingInfo :- LedgerAddressingMap(request.changeAddr, env);
      var network :- NetworkConfig();
      var payload := env.createLedgerSignTxPayload(request, network, addressingInfo);
      if hwDeviceInfo.None? {
        return Err(DeviceInfoNull);
      }
      var response := env.ledgerSign(payload, hwDeviceInfo.value);
      if response.None? {
        return Err(DeviceRejected);
      }
      var txBody := env.buildTx(request.unsignedTx);
      var purpose :- Purpose();
      var addressing := Addressing([purpose, COIN_TYPE_CARDANO, ACCOUNT_INDEX + HARD_DERIVATION_START], LEVEL_PURPOSE);
      var signedTx := env.buildSignedTransaction(txBody, request.senderUtxos, response.value, addressing, publicKeyHex, request.metadata);
      r := Ok(SignedTx(env.hashTransaction(env.txBody(signedTx)), env.txToBytes(signedTx)));
    }
  }
}

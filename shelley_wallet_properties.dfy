/**
  What the wallet's derivation bookkeeping guarantees: every path it hands out leads back
  to the address it was asked about, change and staking paths never collide, the key
  `create` derives is the key `signTx` signs with, a restored wallet fails its integrity
  check only for the reasons the check names, and the ledger's address map holds only
  paths below the wallet's account.
*/
module ShelleyWalletProperties {
  import opened Wrappers
  import opened Config
  import opened CardanoTypes
  import opened ShelleyWallet

  /** The chain a tag names. */
  function ChainOf(tag: ChainTag, internal: AddressChain, external: AddressChain): AddressChain {
    match tag
    case Internal => internal
    case External => external
  }

  /** No address sits on both chains. */
  predicate Disjoint(internal: AddressChain, external: AddressChain) {
    forall a :: a in internal.addresses ==> a !in external.addresses
  }

  // ---------------------------------------------------------------------------
  // Paths

  /** An address path is the account path followed by the chain's change level and the index. */
  lemma AddressPathShape(purpose: nat, tag: ChainTag, index: nat)
    ensures var p := AddressPath(purpose, tag, index);
      |p| == 5 && p[..3] == AccountPath(purpose) && p[3] == AddressTypeToChange(tag) && p[4] == index
  {
    var p := AddressPath(purpose, tag, index);
    assert p[..3] == AccountPath(purpose);
  }

  /** Two address paths of one account are equal only for the same chain and index. */
  lemma AddressPathInjective(purpose: nat, t1: ChainTag, i1: nat, t2: ChainTag, i2: nat)
    ensures AddressPath(purpose, t1, i1) == AddressPath(purpose, t2, i2) <==> t1 == t2 && i1 == i2
  {
    if AddressPath(purpose, t1, i1) == AddressPath(purpose, t2, i2) {
      assert AddressPath(purpose, t1, i1)[3] == AddressPath(purpose, t2, i2)[3];
      assert AddressPath(purpose, t1, i1)[4] == AddressPath(purpose, t2, i2)[4];
    }
  }

  /** The staking path is never the path of a chain address: its change level is 2, theirs 0 or 1. */
  lemma RewardPathIsNotAnAddressPath(purpose: nat, tag: ChainTag, index: nat)
    ensures RewardPath(purpose) != AddressPath(purpose, tag, index)
  {
    assert RewardPath(purpose)[3] == CHAIN_CHIMERIC_ACCOUNT;
    assert AddressPath(purpose, tag, index)[3] == AddressTypeToChange(tag);
  }

  /** The staking key `signTx` derives from the account key is the key at the full staking path. */
  lemma StakingKeyAtRewardPath(env: Collaborators, masterKey: string, purpose: nat)
    ensures env.DerivePath(env.DerivePath(masterKey, AccountPath(purpose)), [CHAIN_CHIMERIC_ACCOUNT, STAKING_KEY_INDEX])
      == env.DerivePath(masterKey, RewardPath(purpose))
  {
    DerivePathAppend(env, masterKey, AccountPath(purpose), [CHAIN_CHIMERIC_ACCOUNT, STAKING_KEY_INDEX]);
  }

  /** An address's key is its chain key one level further down, and the chain key is below the account key. */
  lemma AddressKeyBelowAccount(env: Collaborators, masterKey: string, purpose: nat, tag: ChainTag, index: nat)
    ensures env.DerivePath(masterKey, AddressPath(purpose, tag, index))
      == env.derive(env.derive(env.DerivePath(masterKey, AccountPath(purpose)), AddressTypeToChange(tag)), index)
  {
    var q := [AddressTypeToChange(tag), index];
    DerivePathAppend(env, masterKey, AccountPath(purpose), q);
    var k := env.DerivePath(masterKey, AccountPath(purpose));
    calc {
      env.DerivePath(k, q);
      { assert q[1..] == [index]; }
      env.DerivePath(env.derive(k, AddressTypeToChange(tag)), [index]);
      { assert [index][1..] == []; }
      env.derive(env.derive(k, AddressTypeToChange(tag)), index);
    }
  }

  // ---------------------------------------------------------------------------
  // Addressing

  /** The order of the source's walk over the chains (internal, then external) makes the external chain win. */
  lemma LastOwnerIsAddressingFor(purpose: nat, internal: AddressChain, external: AddressChain, a: string)
    ensures LastOwner(purpose, [(Internal, internal), (External, external)], a) == AddressingFor(purpose, internal, external, a)
  {
    var chains := [(Internal, internal), (External, external)];
    assert chains[..|chains| - 1] == [(Internal, internal)];
    assert [(Internal, internal)][..0] == [];
    assert LastOwner(purpose, [(Internal, internal)], a) ==
      if internal.IsMyAddress(a) then Some(ChainAddressing(purpose, Internal, internal.IndexOfAddress(a))) else None;
  }

  /**
    A path the wallet hands out leads back to the address: it is an address path of the
    account, and the chain it names holds the address at the index it names. An address
    has a path exactly when one of the chains owns it.
  */
  lemma AddressingLeadsBack(purpose: nat, internal: AddressChain, external: AddressChain, a: string)
    ensures AddressingFor(purpose, internal, external, a).Some? <==> a in internal.addresses || a in external.addresses
    ensures AddressingFor(purpose, internal, external, a).Some? ==>
      exists tag: ChainTag, i: nat ::
        && AddressingFor(purpose, internal, external, a).value == ChainAddressing(purpose, tag, i)
        && i < |ChainOf(tag, internal, external).addresses|
        && ChainOf(tag, internal, external).addresses[i] == a
  {
    if external.IsMyAddress(a) {
      var i := external.IndexOfAddress(a);
      assert ChainOf(External, internal, external).addresses[i] == a;
    } else if internal.IsMyAddress(a) {
      var i := internal.IndexOfAddress(a);
      assert ChainOf(Internal, internal, external).addresses[i] == a;
    }
  }

  /**
    On chains without repeated or shared addresses, addressing is a round trip: the
    address at index `i` of a chain gets exactly the path of that chain and index.
  */
  lemma AddressingRoundTrip(purpose: nat, internal: AddressChain, external: AddressChain, tag: ChainTag, i: nat)
    requires internal.Distinct() && external.Distinct() && Disjoint(internal, external)
    requires i < |ChainOf(tag, internal, external).addresses|
    ensures AddressingFor(purpose, internal, external, ChainOf(tag, internal, external).addresses[i])
      == Some(ChainAddressing(purpose, tag, i))
  {
    match tag
    case External =>
      IndexOfDistinct(external, i);
    case Internal =>
      var a := internal.addresses[i];
      assert a in internal.addresses;
      IndexOfDistinct(internal, i);
  }

  /** An address on both chains is addressed on the external one. */
  lemma ExternalTakesPrecedence(purpose: nat, internal: AddressChain, external: AddressChain, a: string)
    requires a in internal.addresses && a in external.addresses
    ensures AddressingFor(purpose, internal, external, a) == Some(ChainAddressing(purpose, External, external.IndexOfAddress(a)))
  {
  }

  /** What `getAddressingInfo` returns is one of the two answers its walk can give. */
  lemma AddressingInfoOfWallet(w: Wallet, a: string)
    ensures w.AddressingInfo(a).Err? <==> w.Purpose().Err?
    ensures w.AddressingInfo(a).Ok? ==> w.AddressingInfo(a).value == AddressingFor(w.Purpose().value, w.internalChain, w.externalChain, a)
  {
  }

  // ---------------------------------------------------------------------------
  // Change address

  /** The "should never happen" branch of `_getAddressedChangeAddress` is indeed unreachable. */
  lemma ChangeAddressAlwaysAddressed(w: Wallet, isUsed: string -> bool, env: Collaborators)
    requires w.ChangeAddress(isUsed).Ok? && w.Purpose().Ok?
    ensures w.AddressedChangeAddress(isUsed, env).Ok?
  {
    var change := w.ChangeAddress(isUsed).value;
    assert change in w.internalChain.addresses;
    assert w.AddressingInfo(change).Ok? && w.AddressingInfo(change).value.Some?;
  }

  /**
    When no internal address is also external, the change output is the first unused
    internal address, addressed on the internal chain at its own index.
  */
  lemma ChangeAddressOnInternalChain(w: Wallet, isUsed: string -> bool, env: Collaborators)
    requires w.ChangeAddress(isUsed).Ok? && w.Purpose().Ok?
    requires w.internalChain.Distinct() && w.externalChain.Distinct() && Disjoint(w.internalChain, w.externalChain)
    ensures w.AddressedChangeAddress(isUsed, env).Ok?
    ensures exists i ::
      && 0 <= i < |w.internalChain.addresses|
      && !isUsed(w.internalChain.addresses[i])
      && (forall j :: 0 <= j < i ==> isUsed(w.internalChain.addresses[j]))
      && w.AddressedChangeAddress(isUsed, env).value
         == ChangeAddr(env.toHexOrBase58(w.internalChain.addresses[i]), ChainAddressing(w.Purpose().value, Internal, i))
  {
    ChangeAddressAlwaysAddressed(w, isUsed, env);
    var change := w.ChangeAddress(isUsed).value;
    var i :| 0 <= i < |w.internalChain.addresses| && w.internalChain.addresses[i] == change &&
      !isUsed(change) && forall j :: 0 <= j < i ==> isUsed(w.internalChain.addresses[j]);
    AddressingRoundTrip(w.Purpose().value, w.internalChain, w.externalChain, Internal, i);
  }

  // ---------------------------------------------------------------------------
  // Creation and signing

  /** For a wallet whose implementation is valid, `create`'s purpose is `_getPurpose`'s. */
  lemma EraPurposeIsPurpose(w: Wallet)
    requires w.Purpose().Ok?
    ensures w.Purpose().value == EraPurpose(w.walletImplementationId)
  {
  }

  /**
    After a successful `create` (the state its postcondition promises), the account key
    `signTx` derives from the same mnemonic is the one whose public half was stored:
    both follow the same purpose / coin type / account path.
  */
  lemma SigningKeyMatchesStoredKey(
    w: Wallet, net: NetworkId, impl: WalletImplementationId, env: Collaborators, mnemonic: string,
    appVersion: string, prior: WalletFields)
    requires IsHaskellShelleyNetwork(net) && (IsByron(impl) || IsHaskellShelley(impl))
    requires w.Fields() == InitialFields(net, impl,
      env.toPublicHex(env.DerivePath(env.masterKeyFromMnemonic(mnemonic), AccountPath(EraPurpose(impl)))),
      None, false, env, appVersion, prior)
    ensures w.Purpose().Ok?
    ensures env.toPublicHex(env.DerivePath(env.masterKeyFromMnemonic(mnemonic), AccountPath(w.Purpose().value))) == w.publicKeyHex
  {
    assert w.walletImplementationId == w.Fields().walletImplementationId == impl;
    assert w.publicKeyHex == w.Fields().publicKeyHex;
    EraPurposeIsPurpose(w);
  }

  /** A signed transaction carries the staking-key witness exactly when the request needs staking-key hashes. */
  lemma StakingWitnessUsesStakingPath(env: Collaborators, masterKey: string, purpose: nat, request: SignRequest)
    requires request.HaskellShelleyTxSignRequest? && request.neededHashes != {}
    ensures StakingWitnesses(env, env.DerivePath(masterKey, AccountPath(purpose)), request)
      == {env.makeVkeyWitness(env.hashTransaction(env.buildTx(request.unsignedTx)),
            env.toRawKey(env.DerivePath(masterKey, RewardPath(purpose))))}
  {
    StakingKeyAtRewardPath(env, masterKey, purpose);
  }

  // ---------------------------------------------------------------------------
  // Restoration

  /** After migration the wallet always has a reward address, so the reward check of the integrity check never fails after a restore. */
  lemma MigrationDerivesRewardAddress(data: Snapshot, meta: WalletMeta, env: Collaborators, appVersion: string, prior: WalletFields)
    ensures var f := MigratedFields(data, meta, env, appVersion, prior);
      f.rewardAddressHex == Some(env.deriveRewardAddressHex(f.publicKeyHex, f.networkId))
  {
  }

  /**
    Migration backfills what old snapshots lack: the metadata's network and
    implementation, the internal chain's key, and `false` for the device flags.
  */
  lemma MigrationBackfills(data: Snapshot, meta: WalletMeta, env: Collaborators, appVersion: string, prior: WalletFields)
    ensures var f := MigratedFields(data, meta, env, appVersion, prior);
      && f.networkId == data.networkId.GetOr(meta.networkId)
      && f.walletImplementationId == data.walletImplementationId.GetOr(meta.walletImplementationId)
      && f.publicKeyHex == data.publicKeyHex.GetOr(data.internalChain.publicKey)
      && f.isHW == data.isHW.GetOr(false) && f.isReadOnly == data.isReadOnly.GetOr(false)
      && f.internalChain == data.internalChain && f.externalChain == data.externalChain
      && f.version == appVersion && f.isInitialized == prior.isInitialized && f.checksum == prior.checksum
  {
  }

  /** A snapshot without a version, or last seen before 4.1.0, loses its transaction cache; any other keeps it. */
  lemma MigrationResync(data: Snapshot, meta: WalletMeta, env: Collaborators, appVersion: string, prior: WalletFields)
    ensures var f := MigratedFields(data, meta, env, appVersion, prior);
      && (data.version.None? ==> f.transactionCache == EmptyCache)
      && (data.version.Some? && env.versionCompare(data.version.value, RESYNC_VERSION) == Some(-1) ==> f.transactionCache == EmptyCache)
      && (data.version.Some? && env.versionCompare(data.version.value, RESYNC_VERSION) != Some(-1) ==> f.transactionCache == data.transactionCache)
  {
  }

  /**
    A restore fails its integrity check exactly when the (remapped) network is not a
    Haskell-Shelley one, the implementation is neither Byron nor Shelley, or a hardware
    wallet lacks its device descriptor.
  */
  lemma RestoreConsistentIff(data: Snapshot, meta: WalletMeta, env: Collaborators, appVersion: string, prior: WalletFields)
    ensures var f := RestoredFields(data, meta, env, appVersion, prior);
      var impl := data.walletImplementationId.GetOr(meta.walletImplementationId);
      Consistent(f) <==>
        && IsHaskellShelleyNetwork(RemapLegacyNetwork(data.networkId.GetOr(meta.networkId)))
        && (IsByron(impl) || IsHaskellShelley(impl))
        && (data.isHW.GetOr(false) ==> data.hwDeviceInfo.Some?)
  {
    MigrationDerivesRewardAddress(data, meta, env, appVersion, prior);
    MigrationBackfills(data, meta, env, appVersion, prior);
  }

  /** A restored wallet is never left on the legacy Byron-mainnet id. */
  lemma RestoreLeavesNoLegacyNetwork(data: Snapshot, meta: WalletMeta, env: Collaborators, appVersion: string, prior: WalletFields)
    ensures RestoredFields(data, meta, env, appVersion, prior).networkId != ByronMainnet
  {
  }

  /** A wallet that passes the integrity check can pick its network configuration and purpose, and a Shelley one can query its account. */
  lemma ConsistentWalletServes(w: Wallet, env: Collaborators)
    requires Consistent(w.Fields())
    ensures w.NetworkConfig().Ok? && w.Purpose().Ok?
    ensures IsHaskellShelley(w.walletImplementationId) ==> w.DelegationStatusOf(env).Ok? && w.AccountStateQuery().Ok?
  {
  }

  // ---------------------------------------------------------------------------
  // Withdrawals and the ledger map

  /**
    A Shelley wallet that passes the integrity check can always build a withdrawal from
    inputs it owns, as long as one internal address is still unused.
  */
  lemma WithdrawalAvailable(
    w: Wallet, utxos: seq<RawUtxo>, shouldDeregister: bool, serverTime: Option<int>, now: int,
    isUsed: string -> bool, env: Collaborators)
    requires Consistent(w.Fields()) && IsHaskellShelley(w.walletImplementationId)
    requires exists i :: 0 <= i < |w.internalChain.addresses| && !isUsed(w.internalChain.addresses[i])
    requires forall k :: 0 <= k < |utxos| ==> utxos[k].receiver in w.internalChain.addresses + w.externalChain.addresses
    ensures w.WithdrawalRequest(utxos, shouldDeregister, serverTime, now, isUsed, env).Ok?
  {
    ConsistentWalletServes(w, env);
    ChangeAddressAlwaysAddressed(w, isUsed, env);
    forall k | 0 <= k < |utxos| ensures w.Resolvable(utxos[k].receiver) {
      AddressingLeadsBack(w.Purpose().value, w.internalChain, w.externalChain, utxos[k].receiver);
    }
  }

  /** A withdrawal withdraws from the reward address at the staking path, which is not the change output's path. */
  lemma WithdrawalUsesStakingPath(
    w: Wallet, utxos: seq<RawUtxo>, shouldDeregister: bool, serverTime: Option<int>, now: int,
    isUsed: string -> bool, env: Collaborators)
    requires w.WithdrawalRequest(utxos, shouldDeregister, serverTime, now, isUsed, env).Ok?
    requires Disjoint(w.internalChain, w.externalChain)
    ensures var plan := w.WithdrawalRequest(utxos, shouldDeregister, serverTime, now, isUsed, env).value;
      && |plan.withdrawals| == 1
      && plan.withdrawals[0].rewardAddress == w.rewardAddressHex.value
      && plan.withdrawals[0].addressing.path == RewardPath(w.Purpose().value)
      && plan.withdrawals[0].addressing.path != plan.changeAddr.addressing.path
  {
    var plan := w.WithdrawalRequest(utxos, shouldDeregister, serverTime, now, isUsed, env).value;
    var change := w.ChangeAddress(isUsed).value;
    AddressingLeadsBack(w.Purpose().value, w.internalChain, w.externalChain, change);
    var tag: ChainTag, i: nat :| AddressingFor(w.Purpose().value, w.internalChain, w.externalChain, change).value
      == ChainAddressing(w.Purpose().value, tag, i) && i < |ChainOf(tag, w.internalChain, w.externalChain).addresses|;
    RewardPathIsNotAnAddressPath(w.Purpose().value, tag, i);
  }

  /**
    Every entry of the ledger's address map is a path below the wallet's account: the
    reward address maps to the staking path, every other key is a change address of
    the request that maps to its owning chain's path.
  */
  lemma LedgerMapEntries(w: Wallet, changes: seq<ChangeAddr>, env: Collaborators)
    requires w.LedgerAddressingMapSpec(changes, env).Ok?
    requires changes != [] || w.rewardAddressHex.Some?
    ensures var m := w.LedgerAddressingMapSpec(changes, env).value;
      && w.Purpose().Ok?
      && (w.rewardAddressHex.Some? ==>
            (w.rewardAddressHex.value in m &&
             m[w.rewardAddressHex.value] == Addressing(RewardPath(w.Purpose().value), LEVEL_PURPOSE)))
      && (forall a :: a in m && Some(a) != w.rewardAddressHex ==>
            && a in ChangeAddresses(changes)
            && Some(m[a]) == AddressingFor(w.Purpose().value, w.internalChain, w.externalChain, w.LedgerLookupKey(a, env)))
  {
  }

  /** A request without change outputs, for a wallet without a reward address, gives the device an empty map. */
  lemma LedgerMapEmpty(w: Wallet, env: Collaborators)
    requires w.rewardAddressHex.None?
    ensures w.LedgerAddressingMapSpec([], env) == Ok(map[])
  {
  }
}

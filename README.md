# Yoroi mobile wallet core, modelled in Dafny

This project models three pieces of the Yoroi mobile wallet:

- **The Shelley-era wallet object** (`ShelleyWallet`). This is the object that creates, restores and migrates a wallet.
  It also runs the integrity check and picks the network configuration and the derivation purpose (BIP-44 for Byron wallets, CIP-1852 for Shelley wallets).
  It chooses change addresses, builds the derivation paths of owned addresses, resolves UTXOs to paths, and keeps the books of the two signers: the staking-key witness of `signTx` and the address map of `signTxWithLedger`.
  The object is a Dafny `class Wallet` whose fields are the source object's fields. `_initialize`, `create`, `createWithBip44Account`, `_runMigrations`, `_integrityCheck` and `restore` are methods that assign those fields.
  Each of these methods states its whole new state through a specification function (`InitialFields`, `MigratedFields`, `RestoredFields`) or states its outcome directly.
  The read-only members are functions with `reads this`. `getAddressingInfo` and the ledger map loop are methods proved against reference functions.
- **The recovery-phrase check screen** (`MnemonicCheck`). The badges are the mnemonic split on single spaces and sorted.
  The selection is a list of word indices, changed by the select, deselect and clear handlers.
  The screen's rules say when the phrase is complete and valid, and when confirm is enabled or the error is shown.
- **Request shaping in the API client** (`Api`). Each call checks how many addresses it sends.
  `filterUsedAddresses` keeps the caller's order. `bulkFetchUTXOsForAddresses` chunks its input and flattens the answers.
  `fetchNewTxHistory` computes `isLast`, and a failed HTTP request is classified as an API error or a network error.

Everything the wallet hands to code outside this model is a field of the `Collaborators` value, as a total function: key derivation, hashing, witnesses, checksums, version comparison, the address generator, the hardware device and the hex/bech32 codecs.
The HTTP transport is a function parameter of the API functions.

Files: `wrappers.dfy` (Option, Result, Outcome), `config.dfy` (network and implementation ids, derivation constants), `cardano_types.dfy` (address chains, addressing, requests, collaborators), `shelley_wallet.dfy`, `shelley_wallet_properties.dfy`, `mnemonic_check.dfy`, `api.dfy`.

## Model

| member | source | states |
|---|---|---|
| ShelleyWallet.Wallet.constructor | src/crypto/shelley/ShelleyWallet.js:111 | a new wallet is uninitialised, not a hardware wallet and has no reward address; its network and implementation ids are unset, so neither a network configuration nor a purpose is found |
| ShelleyWallet.InitialFields | src/crypto/shelley/ShelleyWallet.js:114-178 | after `_initialize` the wallet is initialised; `isHW` holds exactly when device info was given; network, implementation and public key are the arguments; both chains hang off the account key; the cache is empty and a reward address is derived |
| ShelleyWallet.Wallet.Initialize | src/crypto/shelley/ShelleyWallet.js:114-178 | the new state is `InitialFields` of the arguments; the wallet is initialised, `isHW` holds exactly when `hwDeviceInfo` is non-null, and the wallet's own id is returned |
| ShelleyWallet.Wallet.Create | src/crypto/shelley/ShelleyWallet.js:180-228 | a fresh id is always taken; an initialised wallet, a non-Shelley network and an invalid implementation id are refused in that order with the source's messages, and nothing else changes; it succeeds exactly when none applies, and then the wallet holds the account key derived along purpose / coin type / hardened account |
| ShelleyWallet.Wallet.CreateWithBip44Account | src/crypto/shelley/ShelleyWallet.js:230-250 | a fresh id is taken; an initialised wallet is refused and left unchanged; otherwise the wallet is initialised from the supplied account key and device info |
| ShelleyWallet.ShouldResync | src/crypto/shelley/ShelleyWallet.js:312-329 | resync when the last-seen version is missing or compares strictly below 4.1.0; no resync when the comparison throws |
| ShelleyWallet.Wallet.RunMigrations | src/crypto/shelley/ShelleyWallet.js:254-335 | the new state is the snapshot's fields with backfills (`MigratedFields`); the id is kept |
| ShelleyWalletProperties.MigrationBackfills | src/crypto/shelley/ShelleyWallet.js:274-304 | a missing network or implementation id comes from the wallet metadata, missing `isHW`/`isReadOnly` become false, a missing public key is the internal chain's; chains come from the snapshot; `isInitialized` and the checksum are untouched |
| ShelleyWalletProperties.MigrationDerivesRewardAddress | src/crypto/shelley/ShelleyWallet.js:303-306 | after migration the reward address is always present, derived from the public key and network |
| ShelleyWalletProperties.MigrationResync | src/crypto/shelley/ShelleyWallet.js:312-334 | the cache is reset when the version is absent or below 4.1.0, and kept otherwise, including when the comparison throws |
| ShelleyWallet.IntegrityOutcome | src/crypto/shelley/ShelleyWallet.js:337-364 | passes exactly when the wallet is `Consistent`; every failure is `InvalidState` |
| ShelleyWallet.Wallet.IntegrityCheck | src/crypto/shelley/ShelleyWallet.js:337-364 | the legacy Byron-mainnet id is rewritten to Haskell-Shelley mainnet first and nothing else changes; it passes exactly when the network is Haskell-Shelley, the implementation is Byron or Shelley, a Shelley wallet has a reward address and a hardware wallet has device info |
| ShelleyWallet.Wallet.Restore | src/crypto/shelley/ShelleyWallet.js:366-379 | an initialised wallet is refused unchanged; otherwise the state is migrated and remapped, and the wallet ends initialised exactly when the integrity check passed; failures are `InvalidState` |
| ShelleyWalletProperties.RestoreConsistentIff | src/crypto/shelley/ShelleyWallet.js:337-379 | a restore passes exactly when the remapped network is Haskell-Shelley, the backfilled implementation is valid and a hardware flag comes with device info |
| ShelleyWalletProperties.RestoreLeavesNoLegacyNetwork | src/crypto/shelley/ShelleyWallet.js:339-341 | a restored wallet never keeps the Byron-mainnet id |
| ShelleyWallet.Wallet.NetworkConfig | src/crypto/shelley/ShelleyWallet.js:383-392 | mainnet id gives the mainnet configuration, testnet id the testnet one, any other id an error |
| ShelleyWallet.Wallet.Purpose | src/crypto/shelley/ShelleyWallet.js:398-406 | 44' for Byron, 1852' for Shelley (hardened, at or above 2^31), an error for any other implementation |
| ShelleyWalletProperties.EraPurposeIsPurpose | src/crypto/shelley/ShelleyWallet.js:203-205 | the purpose `create` derives with is the one `_getPurpose` returns later |
| ShelleyWallet.Unused | src/crypto/shelley/ShelleyWallet.js:414-417 | the filter keeps exactly the unused addresses of the chain |
| ShelleyWallet.UnusedHead | src/crypto/shelley/ShelleyWallet.js:414-419 | the first kept address is the chain's first unused address: every earlier one is used |
| ShelleyWallet.Wallet.ChangeAddress | src/crypto/shelley/ShelleyWallet.js:413-420 | succeeds exactly when some internal address is unused, with the first unused one in chain order; otherwise fails with "Cannot find change address" |
| ShelleyWallet.Wallet.AddressedChangeAddress | src/crypto/shelley/ShelleyWallet.js:423-437 | a change-address failure is passed on; a result is the change address in hex/base58 with the addressing of that address |
| ShelleyWalletProperties.ChangeAddressAlwaysAddressed | src/crypto/shelley/ShelleyWallet.js:428-431 | the "should never happen" branch is unreachable: a found change address always has a path |
| ShelleyWalletProperties.ChangeAddressOnInternalChain | src/crypto/shelley/ShelleyWallet.js:413-437 | on distinct, disjoint chains the change output is the first unused internal address with the internal path at its own index |
| ShelleyWallet.Wallet.GetAddressingInfo | src/crypto/shelley/ShelleyWallet.js:497-519 | the `forEach` walk over internal then external chain returns the reference addressing `AddressingInfo` |
| ShelleyWalletProperties.LastOwnerIsAddressingFor | src/crypto/shelley/ShelleyWallet.js:499-517 | the last chain in walk order that owns the address decides: this is the external-first reference definition |
| ShelleyWalletProperties.AddressingInfoOfWallet | src/crypto/shelley/ShelleyWallet.js:497-519 | fails exactly when the purpose does; otherwise gives the reference addressing of the wallet's chains |
| ShelleyWalletProperties.AddressingLeadsBack | src/crypto/shelley/ShelleyWallet.js:497-519 | an address has a path exactly when a chain owns it, and the path names a chain and an index that hold the address |
| ShelleyWalletProperties.AddressingRoundTrip | src/crypto/shelley/ShelleyWallet.js:497-519 | on distinct, disjoint chains, the address at index i of a chain gets exactly the path of that chain and index |
| ShelleyWalletProperties.ExternalTakesPrecedence | src/crypto/shelley/ShelleyWallet.js:499-516 | an address claimed by both chains gets the external chain's path |
| ShelleyWalletProperties.AddressPathShape | src/crypto/shelley/ShelleyWallet.js:505-513 | an address path has five levels: purpose, coin type, hardened account, change level of the chain, index |
| ShelleyWalletProperties.AddressPathInjective | src/crypto/shelley/ShelleyWallet.js:505-513 | two address paths of one account are equal exactly when chain and index are |
| Config.AddressTypeToChange | src/crypto/shelley/ShelleyWallet.js:509 | the internal chain has change level 1 and the external chain 0, and no other chain gets either |
| CardanoTypes.AddressChain.IndexOfAddress | src/crypto/shelley/ShelleyWallet.js:510 | the index of an owned address holds that address, and no earlier index does |
| CardanoTypes.IndexOfDistinct | src/crypto/shelley/ShelleyWallet.js:510 | on a chain without repeats, the index of the address at i is i |
| ShelleyWallet.Wallet.StakingKey | src/crypto/shelley/ShelleyWallet.js:439-456 | a Byron-era wallet is refused with the source's message, and only it; otherwise the raw key of the account public key derived along chimeric-account chain 2 and staking index 0 |
| ShelleyWallet.Wallet.RewardAddress | src/crypto/shelley/ShelleyWallet.js:458-472 | a Byron-era wallet is refused first, then an invalid network; it succeeds exactly otherwise, with the reward address built from the staking key on the wallet's network |
| CardanoTypes.DerivePathPair | src/crypto/shelley/ShelleyWallet.js:447-449 | deriving along a two-index path is two successive single derivations |
| ShelleyWallet.Wallet.RewardAddressAddressing | src/crypto/shelley/ShelleyWallet.js:474-485 | exists exactly when the purpose does: the five-level path ending in chimeric chain 2 and staking index 0, starting at the purpose level |
| ShelleyWalletProperties.RewardPathIsNotAnAddressPath | src/crypto/shelley/ShelleyWallet.js:474-485 | the staking path is never the path of a chain address |
| ShelleyWallet.Wallet.AsAddressedUtxo | src/crypto/shelley/ShelleyWallet.js:521-535 | succeeds exactly when every receiver resolves, with the same length and order and each UTXO's addressing equal to `getAddressingInfo` of its receiver; otherwise fails at the first UTXO that does not resolve |
| ShelleyWallet.Wallet.DelegationStatusOf | src/crypto/shelley/ShelleyWallet.js:537-545 | fails exactly when the reward address is null; otherwise reads the certificates stored for that address |
| ShelleyWallet.Wallet.AccountStateQuery | src/crypto/shelley/ShelleyWallet.js:919-925 | a null reward address is refused, then an invalid network; it succeeds exactly otherwise, and queries exactly the reward address against the wallet's network configuration |
| ShelleyWallet.Wallet.WithdrawalRequest | src/crypto/shelley/ShelleyWallet.js:769-798 | a null reward address, an invalid network, a missing change address and an unresolved input are refused in that order, each with its own error; it succeeds exactly when none applies; the plan carries the wallet's network, the slot of the server's time (or of the current time when none is given), the resolved change address and inputs, and one withdrawal from the reward address at the staking path |
| ShelleyWalletProperties.WithdrawalAvailable | src/crypto/shelley/ShelleyWallet.js:769-798 | a consistent Shelley wallet with an unused internal address can always build a withdrawal of inputs its chains own |
| ShelleyWalletProperties.WithdrawalUsesStakingPath | src/crypto/shelley/ShelleyWallet.js:769-798 | the plan has one withdrawal, from the reward address, at a path different from the change output's |
| ShelleyWalletProperties.ConsistentWalletServes | src/crypto/shelley/ShelleyWallet.js:383-406 | a wallet that passes the integrity check has a network configuration and a purpose, and a Shelley one can read its delegation status and account |
| ShelleyWallet.StakingWitnesses | src/crypto/shelley/ShelleyWallet.js:600-621 | exactly one staking-key witness when the request needs staking-key hashes, none otherwise |
| ShelleyWallet.Wallet.SignTx | src/crypto/shelley/ShelleyWallet.js:579-638 | an invalid implementation fails first, then a request of the wrong kind, then a request needing staking hashes from a Byron-era wallet, with the message 'cannot get reward address from a byron-era wallet'; it succeeds exactly when neither applies and a request needing staking hashes comes from a Shelley wallet; the result signs with the account key and the staking witnesses, and its id is the hash of the body |
| ShelleyWalletProperties.StakingWitnessUsesStakingPath | src/crypto/shelley/ShelleyWallet.js:592-621 | the staking witness is made with the key at the full staking path below the master key |
| ShelleyWalletProperties.StakingKeyAtRewardPath | src/crypto/shelley/ShelleyWallet.js:612-614 | deriving chimeric chain and staking index below the account key is deriving along the staking path |
| ShelleyWalletProperties.SigningKeyMatchesStoredKey | src/crypto/shelley/ShelleyWallet.js:198-220 | in the state a successful `create` leaves, the purpose is defined and the account key `signTx` derives from the same mnemonic has the stored public key |
| ShelleyWalletProperties.AddressKeyBelowAccount | src/crypto/shelley/ShelleyWallet.js:505-513 | the key of an address path is the account key derived by change level and then by index |
| CardanoTypes.DerivePathAppend | src/crypto/shelley/ShelleyWallet.js:592-597 | deriving along a concatenated path is deriving along its parts in turn |
| ShelleyWallet.Wallet.LedgerAddressingMap | src/crypto/shelley/ShelleyWallet.js:810-828 | the loop builds the reference map: each owned change address maps to its path, and the reward address, when present, to the staking path |
| ShelleyWallet.Wallet.OwnedChangeMapStep | src/crypto/shelley/ShelleyWallet.js:812-822 | one iteration adds exactly the current change address, when it is owned |
| ShelleyWalletProperties.LedgerMapEntries | src/crypto/shelley/ShelleyWallet.js:810-828 | the reward address maps to the staking path; every other key is a change address of the request and maps to its owning chain's path |
| ShelleyWalletProperties.LedgerMapEmpty | src/crypto/shelley/ShelleyWallet.js:810-828 | no change outputs and no reward address give an empty map |
| ShelleyWallet.Wallet.SignTxWithLedger | src/crypto/shelley/ShelleyWallet.js:800-886 | a request of the wrong kind, a failed address map, an invalid network, missing device info (checked after the payload is built), a device rejection and an invalid purpose are refused in that order; it succeeds exactly when none applies, and the result is built from the device's witnesses with the account-level addressing and the stored public key, its id the hash of the body |
| MnemonicCheck.Split | src/components/WalletInit/CreateWallet/MnemonicCheckScreen.js:260 | `split(' ')` gives at least one piece and no piece holds a space |
| MnemonicCheck.JoinSplit | src/components/WalletInit/CreateWallet/MnemonicCheckScreen.js:59-60 | joining the split mnemonic with single spaces gives it back |
| MnemonicCheck.SplitJoin | src/components/WalletInit/CreateWallet/MnemonicCheckScreen.js:59-60 | splitting the join of space-free words gives the words back |
| MnemonicCheck.SortWords | src/components/WalletInit/CreateWallet/MnemonicCheckScreen.js:260 | `sort()` returns the same words (a permutation) in lexicographic order |
| MnemonicCheck.SortedPermutationUnique | src/components/WalletInit/CreateWallet/MnemonicCheckScreen.js:260 | two sorted permutations of the same words are equal, so the badge order does not depend on the sort algorithm |
| MnemonicCheck.WordsAreSortedMnemonicWords | src/components/WalletInit/CreateWallet/MnemonicCheckScreen.js:256-261 | the badges are a sorted permutation of the mnemonic's words, contain no spaces, and are the only such arrangement |
| MnemonicCheck.SelectedWords | src/components/WalletInit/CreateWallet/MnemonicCheckScreen.js:59 | the selected words in selection order, one per index |
| MnemonicCheck.ValidatePhrase | src/components/WalletInit/CreateWallet/MnemonicCheckScreen.js:58-63 | `validatePhrase`: the selected words joined by single spaces equal the mnemonic; a definition, characterised by `ValidIffSpellsMnemonic` |
| MnemonicCheck.ValidIffSpellsMnemonic | src/components/WalletInit/CreateWallet/MnemonicCheckScreen.js:58-63 | a nonempty selection is valid exactly when its words, in order, are the mnemonic's words; the empty one exactly when the mnemonic is empty |
| MnemonicCheck.IsPhraseComplete | src/components/WalletInit/CreateWallet/MnemonicCheckScreen.js:141 | as many indices selected as there are badges; a definition, and by `WellFormedBounded` a complete reachable selection selects every badge |
| MnemonicCheck.IsPhraseBoxError | src/components/WalletInit/CreateWallet/MnemonicCheckScreen.js:167 | the phrase box is styled as an error when the phrase is invalid and complete; a definition, related to the other rules by `ScreenRules` |
| MnemonicCheck.IsErrorMessageShown | src/components/WalletInit/CreateWallet/MnemonicCheckScreen.js:185 | the error message is shown when the phrase is not (valid or incomplete); a definition, related to the other rules by `ScreenRules` |
| MnemonicCheck.IsConfirmEnabled | src/components/WalletInit/CreateWallet/MnemonicCheckScreen.js:218 | the confirm button is enabled when the phrase is not (incomplete or invalid); a definition, shown by `ScreenRules` to mean complete and valid |
| MnemonicCheck.ScreenRules | src/components/WalletInit/CreateWallet/MnemonicCheckScreen.js:141-142 | confirm is enabled exactly when complete and valid; the error box and message show together, exactly when complete and invalid |
| MnemonicCheck.SelectWord | src/components/WalletInit/CreateWallet/MnemonicCheckScreen.js:248-250 | appends the index and leaves every earlier entry unchanged |
| MnemonicCheck.DeselectWord | src/components/WalletInit/CreateWallet/MnemonicCheckScreen.js:245-247 | the index no longer occurs in the selection |
| MnemonicCheck.DeselectCounts | src/components/WalletInit/CreateWallet/MnemonicCheckScreen.js:245-247 | every other index keeps its count, and the length drops by the index's count |
| MnemonicCheck.DeselectConcat | src/components/WalletInit/CreateWallet/MnemonicCheckScreen.js:246 | deselection works piecewise, so the remaining indices keep their relative order |
| MnemonicCheck.DeselectAbsent | src/components/WalletInit/CreateWallet/MnemonicCheckScreen.js:246 | deselecting an index that is not selected changes nothing |
| MnemonicCheck.DeselectUndoesSelect | src/components/WalletInit/CreateWallet/MnemonicCheckScreen.js:245-250 | deselecting a freshly selected index restores the selection |
| MnemonicCheck.DeselectLast | src/components/WalletInit/CreateWallet/MnemonicCheckScreen.js:175-181 | without repeats, deselecting the last selected word drops exactly the last entry |
| MnemonicCheck.HandleClear | src/components/WalletInit/CreateWallet/MnemonicCheckScreen.js:251-253 | the selection is empty whatever it was |
| MnemonicCheck.Offered | src/components/WalletInit/CreateWallet/MnemonicCheckScreen.js:175-202 | the taps the screen offers: a badge of an existing word that is not selected (selected badges are disabled), only the last selected word for deselection, and clear; a definition used by `StepKeepsWellFormed` and `ReachableWellFormed` |
| MnemonicCheck.Step | src/components/WalletInit/CreateWallet/MnemonicCheckScreen.js:175-253 | each tap runs its handler: a badge selects, the last word deselects, the clear button clears; a definition used by `StepKeepsWellFormed` and `ReachableWellFormed` |
| MnemonicCheck.StepKeepsWellFormed | src/components/WalletInit/CreateWallet/MnemonicCheckScreen.js:193-202 | every offered tap keeps the selection a list of distinct indices of existing words |
| MnemonicCheck.WellFormedBounded | src/components/WalletInit/CreateWallet/MnemonicCheckScreen.js:141 | such a selection never has more indices than there are words, and a complete one selects every badge |
| MnemonicCheck.DistinctCard | src/components/WalletInit/CreateWallet/MnemonicCheckScreen.js:198 | a selection without repeats selects as many badges as it has entries |
| MnemonicCheck.ReachableWellFormed | src/components/WalletInit/CreateWallet/MnemonicCheckScreen.js:193-253 | whatever the user taps, the selection stays duplicate-free and in range, never longer than the word list; once complete, every badge is selected (disabled) |
| MnemonicCheck.SelectingReaches | src/components/WalletInit/CreateWallet/MnemonicCheckScreen.js:248-250 | every duplicate-free selection of existing words is reached by tapping its badges in order |
| MnemonicCheck.PermutationIndices | src/components/WalletInit/CreateWallet/MnemonicCheckScreen.js:256-261 | for a rearrangement there are distinct badge indices spelling the original words in order |
| MnemonicCheck.CorrectSelectionExists | src/components/WalletInit/CreateWallet/MnemonicCheckScreen.js:218 | for every mnemonic some reachable selection enables the confirm button |
| Api.ClassifyFailure | src/api/api.js:27-36 | an API error carrying the request exactly when the server responded; a network error otherwise, timeouts included |
| Api.Fetch | src/api/api.js:16-43 | succeeds exactly when the request was answered, with the response body; a failure is its classified error, never a precondition violation |
| Api.FetchNewTxHistory | src/api/api.js:45-65 | too many addresses is refused with "fetchNewTxHistory: too many addresses", and only then; within the limit it succeeds exactly when the server answers, and a failure is the classified error; a result converts every transaction of the response in order, and `isLast` holds exactly when the response has at most `TX_HISTORY_RESPONSE_LIMIT` entries |
| Api.KeepUsed | src/api/api.js:78 | keeps exactly the input addresses the used list contains, each as often as in the input |
| Api.KeepUsedIsSubsequence | src/api/api.js:77-78 | the kept addresses are a subsequence of the input, in input order |
| Api.KeepUsedIdempotent | src/api/api.js:78 | filtering the result again against the same used list changes nothing |
| Api.KeepUsedAllUsed | src/api/api.js:78 | when every address is used, the input comes back unchanged |
| Api.FilterUsedAddresses | src/api/api.js:67-79 | too many addresses is refused with "filterUsedAddresses: too many addresses", and only then; within the limit it succeeds exactly when the server answers; a result is the filter of the input by the server's answer: a subsequence in input order, holding each used address as often as the input does and no other |
| Api.KeepUsedUnique | src/api/api.js:77-78 | the filter's result is the only subsequence of the input with those multiplicities, so the contract above pins the result down |
| Api.FetchUtxosForAddresses | src/api/api.js:81-87 | too many addresses is refused (with the history call's message, as written), and only then; otherwise the server's answer |
| Api.Chunk | src/api/api.js:92 | no chunks for a size below one; every chunk is nonempty and fits the per-call limit |
| Api.FlattenChunk | src/api/api.js:92-97 | the chunks concatenate back to the input |
| Api.ChunkSizes | src/api/api.js:92 | every chunk but the last is full |
| Api.FetchChunks | src/api/api.js:94-97 | one `fetchUTXOsForAddresses` call per chunk, in chunk order, with the answers concatenated; a definition, characterised by `FetchChunksOutcome` |
| Api.FetchChunksOutcome | src/api/api.js:94-97 | with fitting chunks, the calls succeed exactly when every chunk is answered, giving the answers concatenated in chunk order, and otherwise fail with the classified failure of the first unanswered chunk |
| Api.BulkFetchUtxos | src/api/api.js:89-98 | chunks the addresses by the per-call limit and fetches the chunks; a definition, characterised by `BulkFetchUtxosOutcome` and `BulkFetchWithoutLimit` |
| Api.BulkFetchUtxosOutcome | src/api/api.js:89-98 | the bulk fetch never violates a per-call precondition; it succeeds exactly when every chunk is answered, with the per-chunk answers concatenated in chunk order |
| Api.BulkFetchWithoutLimit | src/api/api.js:92-97 | with a limit of zero nothing is requested and the result is empty |

## Left out

- Cryptography is not modelled: BIP-32 key derivation, key serialisation, transaction hashing, vkey witnesses, reward-address derivation, bech32/hex conversion and the CIP-4 wallet checksums. Each is an uninterpreted total function in `Collaborators`. The derivation paths handed to them are modelled.
- `AddressChain` and `TransactionCache` are values: a chain is its public key and its materialised addresses, and the address generator is the collaborator `initialChainAddresses`. Address discovery, chain subscriptions, `fromJSON`/`toJSON` and `setupSubscriptions`/`notify` are not part of this model; snapshots carry the decoded chains and cache.
- `isUsedAddress`, defined in the parent wallet class, is a predicate parameter.
- `versionCompare` is a collaborator that returns `None` where it would throw.
- The transaction builders are not part of this model: `createUnsignedTx`, `createDelegationTx`, `createVotingRegTx`, the builder call of `createWithdrawalTx`, `createLedgerSignTxPayload` and `buildSignedTransaction`. The builders are opaque, and fee and BigNumber arithmetic are left out. Of `createWithdrawalTx`, everything before the builder call is modelled, including the slot of the transaction; `getAccountState` is passed to the builder and not modelled.
- `getAllUtxosForKey` is not modelled: after `getStakingKey` (modelled, with its Byron-era refusal) it only calls `filterAddressesByStakingKey`, which is not part of this model. `_getChainNetworkId` and `_getBackendConfig` read fields of the network configuration and are represented by `NetworkConfig`.
- `encryptAndSaveMasterKey` and the password of `create` are not modelled: this is storage I/O.
- The hardware device transport (`signTxWithLedger`'s `useUSB`, the Ledger exchange) is a collaborator returning the witnesses, or `None` when the device rejects.
- HTTP is not modelled: `axios` in `_fetch` and the backend calls in ShelleyWallet.js:889-940. `fetchAccountState` is modelled only up to the query it sends.
- `checkAndFacadeTransactionAsync` in `fetchNewTxHistory` is a total conversion parameter. Its checks live in a file that is not part of this model.
- `uuid.v4()`, `DeviceInfo.getVersion()` and `new Date()` become parameters (`freshId`, `appVersion`, `now`). The time-to-slot conversion `genTimeToSlot` is the collaborator `timeToSlot`, and the date formatting of `fetchNewTxHistory` is the `dateFrom` parameter.
- ShelleyWallet.Wallet.constructor: the parent class's fields start `undefined`; the model gives the unset network and implementation ids values no registry entry matches, which behave the same way in every lookup.
- The `CONFIG.API` limits and `CONFIG.API.ROOT` are not part of the files modelled. The limits are the fields of an `ApiConfig` parameter, and no numbers are assumed.
- Concurrency is not modelled: `Promise.all`, `async`/`await` ordering and `ignoreConcurrentAsyncHandler`. Calls are sequential.
- Api.FetchChunksOutcome: when several chunks fail, `Promise.all` rejects with whichever failure settles first. The model reports the first failing chunk in chunk order.
- ShelleyWallet.Wallet.AddressedChangeAddress: its ensures does not repeat that a found change address always resolves. That is proved separately in `ChangeAddressAlwaysAddressed`, which keeps the function free of an unreachable branch.
- ShelleyWallet.MigratedFields: the function carries no contract of its own; its properties are the lemmas `MigrationBackfills`, `MigrationDerivesRewardAddress` and `MigrationResync`.
- MnemonicCheck.SortWords: JavaScript's default `sort()` compares UTF-16 code units, whereas the model compares Dafny characters (code points). The orders differ only for characters outside the Basic Multilingual Plane, which BIP-39 word lists do not contain.
- `handleWalletConfirmation`'s argument assertions and the navigation after confirming are not modelled: this is UI wiring that calls `createWallet`.
- Logging (`Logger.*`) and i18n messages are not modelled.

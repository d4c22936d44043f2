/**
  Identifiers and numeric constants the wallet reads from its configuration.
  The network registry and the wallet-implementation registry are enumerations with
  a catch-all for any other value a persisted snapshot or a caller might carry.
  Derivation constants follow BIP-32 (hardened indices start at 2^31), the path levels
  of BIP-44 (purpose / coin type / account / chain / address) and CIP-1852 (the
  Shelley-era purpose 1852').
*/
module Config {

  /** NETWORK_REGISTRY entries. */
  datatype NetworkId =
    | ByronMainnet
    | HaskellShelleyMainnet
    | HaskellShelleyTestnet
    | Jormungandr
    | OtherNetwork(raw: int)

  /** Wallet implementation ids (the era and mnemonic length of a wallet). */
  datatype WalletImplementationId =
    | HaskellByron
    | HaskellShelley
    | HaskellShelley24
    | JormungandrItn
    | OtherImplementation(raw: string)

  /** The two Haskell-Shelley networks the wallet can run on. */
  predicate IsHaskellShelleyNetwork(n: NetworkId) {
    n == HaskellShelleyMainnet || n == HaskellShelleyTestnet
  }

  /** A legacy Byron-era wallet. */
  predicate IsByron(id: WalletImplementationId) {
    id == HaskellByron
  }

  /** A Shelley-era wallet (15- or 24-word recovery phrase). */
  predicate IsHaskellShelley(id: WalletImplementationId) {
    id == HaskellShelley || id == HaskellShelley24
  }

  /** BIP-32: indices at or above this value are hardened. */
  const HARD_DERIVATION_START: nat := 0x8000_0000

  /** BIP-44 purpose 44', used by Byron-era wallets. */
  const PURPOSE_BIP44: nat := HARD_DERIVATION_START + 44

  /** CIP-1852 purpose 1852', used by Shelley-era wallets. */
  const PURPOSE_CIP1852: nat := HARD_DERIVATION_START + 1852

  /** SLIP-44 coin type 1815' (Cardano). */
  const COIN_TYPE_CARDANO: nat := HARD_DERIVATION_START + 1815

  /** The single account the wallet uses (hardened when put in a path). */
  const ACCOUNT_INDEX: nat := 0

  /** Chain level of a path: external (receive), internal (change), chimeric account (staking). */
  const CHAIN_EXTERNAL: nat := 0
  const CHAIN_INTERNAL: nat := 1
  const CHAIN_CHIMERIC_ACCOUNT: nat := 2

  /** Address level of the staking key on the chimeric-account chain. */
  const STAKING_KEY_INDEX: nat := 0

  /** BIP-44 derivation levels (root is level 0). */
  const LEVEL_PURPOSE: nat := 1
  const LEVEL_ACCOUNT: nat := 3

  /** The compatibility threshold of snapshot migrations. */
  const RESYNC_VERSION: string := "4.1.0"

  /** The two address chains of an account. */
  datatype ChainTag = Internal | External

  /** ADDRESS_TYPE_TO_CHANGE: the chain level of a path for each chain. */
  function AddressTypeToChange(tag: ChainTag): (c: nat)
    ensures c == CHAIN_INTERNAL <==> tag == Internal
    ensures c == CHAIN_EXTERNAL <==> tag == External
  {
    match tag
    case Internal => CHAIN_INTERNAL
    case External => CHAIN_EXTERNAL
  }
}

/** The calls the backend makes into the ethers library, as deterministic
    oracles that may throw. Their cryptography (EIP-191 recovery, EIP-55
    checksumming, Keccak-256) is not modelled. */
module Ethers {
  import opened Js

  datatype Ethers = Ethers(
    /** `ethers.verifyMessage(message, signature)`: the address that signed the
        EIP-191 personal message; throws on a malformed signature. */
    verifyMessage: (Field, Field) -> Result<string, Thrown>,
    /** `ethers.getAddress(s)`: the EIP-55 checksummed address; throws on a
        string that is not an address. */
    getAddress: Field -> Result<string, Thrown>,
    /** `ethers.keccak256(ethers.toUtf8Bytes(s))`: hex digest of the UTF-8 bytes. */
    keccakUtf8: Field -> Result<string, Thrown>)

  /** The error of evaluating the unqualified name `keccak256` in a module whose
      only binding from ethers is `ethers`. */
  const KeccakNotDefined := Thrown(None, Some("keccak256 is not defined"))

  /** The hashing step as backend/index.js line 60 writes it: `keccak256` and
      `toUtf8Bytes` are not in scope, so every evaluation throws. */
  function AsWritten(eth: Ethers): Ethers
  {
    eth.(keccakUtf8 := (f: Field) => Failure(KeccakNotDefined))
  }
}

/** The voting contract as the backend sees it: its state (identity registry,
    voted flags, candidate list, vote counters) and the read-only calls the
    backend makes on it, each of which may fail at the RPC layer. The contract's
    own code is not part of this model; an account is keyed by its checksummed
    address string, which is the only form the backend passes. */
module Contract {
  import opened Js

  datatype Identity = Identity(publicKey: string, certificate: string)

  /** One read-only contract call, with its arguments. */
  datatype Call =
    | GetIdentity(account: string)
    | VerifyIdentityCertificate(certificate: string, identityHash: string)
    | HasVoted(account: string)
    | CandidateCount
    | Candidates(index: nat)
    | GetVoteCount(candidate: string)

  datatype Chain = Chain(
    registry: map<string, Identity>,
    voted: set<string>,
    candidates: seq<string>,
    voteCount: map<string, nat>,
    /** The contract's certificate check on (UTF-8 bytes of certificate, hash). */
    certificateValid: (string, string) -> bool,
    /** The error an RPC call throws, if the node or the transport fails it. */
    fault: Call -> Option<Thrown>)

  /** What the public array getter throws for an index past the end: the
      contract panics with code 0x32, which ethers reports with this reason and
      a message that begins with it (the diagnostic details ethers appends to
      the message are left out). */
  const Reverted := Thrown(Some("Panic due to ARRAY_RANGE_ERROR(50)"),
                           Some("execution reverted: Panic due to ARRAY_RANGE_ERROR(50)"))

  /** A Solidity mapping yields the zero value for a missing key. */
  function IdentityOf(c: Chain, account: string): Identity
  {
    if account in c.registry then c.registry[account] else Identity("", "")
  }

  function CountOf(c: Chain, candidate: string): nat
  {
    if candidate in c.voteCount then c.voteCount[candidate] else 0
  }

  function ReadIdentity(c: Chain, account: string): Result<Identity, Thrown>
  {
    match c.fault(GetIdentity(account))
    case Some(e) => Failure(e)
    case None => Success(IdentityOf(c, account))
  }

  function ReadCertificateCheck(c: Chain, certificate: string, identityHash: string): Result<bool, Thrown>
  {
    match c.fault(VerifyIdentityCertificate(certificate, identityHash))
    case Some(e) => Failure(e)
    case None => Success(c.certificateValid(certificate, identityHash))
  }

  function ReadHasVoted(c: Chain, account: string): Result<bool, Thrown>
  {
    match c.fault(HasVoted(account))
    case Some(e) => Failure(e)
    case None => Success(account in c.voted)
  }

  function ReadCandidateCount(c: Chain): Result<nat, Thrown>
  {
    match c.fault(CandidateCount)
    case Some(e) => Failure(e)
    case None => Success(|c.candidates|)
  }

  function ReadCandidate(c: Chain, i: nat): Result<string, Thrown>
  {
    match c.fault(Candidates(i))
    case Some(e) => Failure(e)
    case None => if i < |c.candidates| then Success(c.candidates[i]) else Failure(Reverted)
  }

  function ReadVoteCount(c: Chain, candidate: string): Result<nat, Thrown>
  {
    match c.fault(GetVoteCount(candidate))
    case Some(e) => Failure(e)
    case None => Success(CountOf(c, candidate))
  }

  /** The error of `contract.candidates.length()`: `contract.candidates` is a
      function, its `length` is a number, and a number cannot be called. */
  const LengthNotAFunction := Thrown(None, Some("contract.candidates.length is not a function"))

  /** The count read as backend/index.js line 115 writes it. */
  function ReadCandidateCountAsWritten(c: Chain): Result<nat, Thrown>
  {
    Failure(LengthNotAFunction)
  }
}

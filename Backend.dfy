/** The request handlers of the voting backend: `/verify-proof`, the
    `/cast-vote` admission pipeline with its mirror row in the `votes` table,
    the `/get-votes` tally and the `/get-vote-history` listing. Express routing,
    JSON parsing and the ethers, contract and SQLite calls are outside; the
    handlers see them through the Ethers, Contract and VotesDb modules. */
module Backend {
  import opened Js
  import opened Ethers
  import opened Contract
  import opened VotesDb

  /** A JSON response: the HTTP status and the body's fields (`None` when the
      handler does not send the field). */
  datatype Reply = Reply(
    status: int,
    success: bool,
    message: Option<string>,
    error: Option<string>,
    identityHash: Option<string>)

  function Refuse(status: int, text: string): Reply
  {
    Reply(status, false, Some(text), None, None)
  }

  /** The reply of the catch block of `/cast-vote`. */
  function Crash(e: Thrown): Reply
  {
    Reply(500, false, None, Some(ErrorText(e)), None)
  }

  // ===========================================================================
  // /verify-proof

  datatype ProofRequest = ProofRequest(message: Field, signature: Field, publicKey: Field)

  /** What calling `toLowerCase` on `undefined` throws. */
  const LowerCaseOfUndefined := Thrown(None, Some("Cannot read properties of undefined (reading 'toLowerCase')"))

  function VerifyProof(req: ProofRequest, eth: Ethers): Reply
  {
    match eth.verifyMessage(req.message, req.signature)
    case Failure(e) => Reply(500, false, None, e.message, None)
    case Success(recovered) =>
      match req.publicKey
      case Absent => Reply(500, false, None, LowerCaseOfUndefined.message, None)
      case Str(claimed) =>
        Reply(200, LowerAscii(recovered) == LowerAscii(claimed),
              Some(if recovered != "" then "Proof verified!" else "Invalid proof!"), None, None)
  }

  /** `/verify-proof` succeeds exactly when the recovered address and the claimed
      key agree ignoring case; it answers 200 whenever recovery works and a key
      was sent, and its message reports only whether recovery gave an address.
      A 500 carries the thrown error's `message` alone: the recovery error's, or
      that of `toLowerCase` on a missing key. */
  lemma VerifyProofSuccessIff(req: ProofRequest, eth: Ethers)
    ensures var r := VerifyProof(req, eth);
            var rec := eth.verifyMessage(req.message, req.signature);
            && (r.success <==> rec.Success? && req.publicKey.Str? && EqualIgnoringCase(rec.value, req.publicKey.s))
            && (r.status == 200 <==> rec.Success? && req.publicKey.Str?)
            && (r.status != 200 ==> r.status == 500 && !r.success && r.message.None?)
            && (r.message == Some("Proof verified!") <==> rec.Success? && req.publicKey.Str? && rec.value != "")
            && (r.message == Some("Invalid proof!") <==> rec.Success? && req.publicKey.Str? && rec.value == "")
            && (r.status == 500 ==>
                  r.error == (if rec.Failure? then rec.error.message else LowerCaseOfUndefined.message))
            && (r.status == 200 ==> r.error.None?)
  {
    var rec := eth.verifyMessage(req.message, req.signature);
    if rec.Success? && req.publicKey.Str? {
      LowerAsciiEqIff(rec.value, req.publicKey.s);
    }
  }

  // ===========================================================================
  // /cast-vote

  datatype CastRequest = CastRequest(candidate: Field, publicKey: Field, signature: Field)

  /** The message whose signature `/cast-vote` checks. */
  function VoteMessage(candidate: Field): string
  {
    "Voting for: " + Render(candidate)
  }

  /** The message the voting page signs for the selected candidate. */
  function ClientVoteMessage(selected: string): string
  {
    "Voting for: " + selected
  }

  /** No two candidates share a message, so every candidate has a signed
      message of its own. A missing candidate, though, renders as the
      text "undefined". (That the page's message is the backend's holds by
      definition: both are the same template.) */
  lemma {:induction false} VoteMessageBindsCandidate(a: string, b: string)
    ensures ClientVoteMessage(a) == VoteMessage(Str(a))
    ensures VoteMessage(Str(a)) == VoteMessage(Str(b)) ==> a == b
    ensures VoteMessage(Absent) == VoteMessage(Str("undefined"))
  {
    if VoteMessage(Str(a)) == VoteMessage(Str(b)) {
      assert a == VoteMessage(Str(a))[12..];
      assert b == VoteMessage(Str(b))[12..];
    }
  }

  const SignatureMismatch := Refuse(401, "Signature mismatch")
  const NotRegistered := Refuse(403, "Voter not registered")
  const IdentityFailed := Refuse(401, "Identity verification failed")
  const AlreadyVoted := Refuse(400, "Already voted")
  const DatabaseError := Reply(500, false, None, Some("Database error"), None)
  const Admitted200 := "Verification complete - proceed with transaction"

  /** The outcome of the checks before the INSERT: a reply, or the values of the
      row to insert. */
  datatype Admission =
    | Rejected(reply: Reply)
    | Admitted(voterAddress: string, candidate: Field, identityHash: string)

  /** The fail-fast chain of `/cast-vote` up to the INSERT. */
  function Admit(req: CastRequest, eth: Ethers, chain: Chain): Admission
  {
    match eth.getAddress(req.publicKey)
    case Failure(e) => Rejected(Crash(e))
    case Success(voterAddress) =>
      match eth.verifyMessage(Str(VoteMessage(req.candidate)), req.signature)
      case Failure(e) => Rejected(Crash(e))
      case Success(recovered) =>
        if LowerAscii(recovered) != LowerAscii(voterAddress) then Rejected(SignatureMismatch)
        else
          match eth.keccakUtf8(req.publicKey)
          case Failure(e) => Rejected(Crash(e))
          case Success(identityHash) =>
            match ReadIdentity(chain, voterAddress)
            case Failure(e) => Rejected(Crash(e))
            case Success(id) =>
              if |id.publicKey| == 0 || |id.certificate| == 0 then Rejected(NotRegistered)
              else
                match ReadCertificateCheck(chain, id.certificate, identityHash)
                case Failure(e) => Rejected(Crash(e))
                case Success(verified) =>
                  if !verified then Rejected(IdentityFailed)
                  else
                    match ReadHasVoted(chain, voterAddress)
                    case Failure(e) => Rejected(Crash(e))
                    case Success(hasVoted) =>
                      if hasVoted then Rejected(AlreadyVoted)
                      else Admitted(voterAddress, req.candidate, identityHash)
  }

  /** The reply once the INSERT, if one was made, has reported. */
  function Respond(a: Admission, insertError: Option<string>): Reply
  {
    match a
    case Rejected(r) => r
    case Admitted(_, _, identityHash) =>
      if insertError.Some? then DatabaseError
      else Reply(200, true, Some(Admitted200), None, Some(identityHash))
  }

  /** The account has a registry entry with a non-empty key and certificate. */
  predicate Registered(chain: Chain, account: string)
  {
    account in chain.registry
    && chain.registry[account].publicKey != ""
    && chain.registry[account].certificate != ""
  }

  /** The key is a valid address and the signature over the vote message
      recovers it, ignoring case. */
  predicate SignatureMatches(req: CastRequest, eth: Ethers)
  {
    && eth.getAddress(req.publicKey).Success?
    && eth.verifyMessage(Str(VoteMessage(req.candidate)), req.signature).Success?
    && EqualIgnoringCase(eth.verifyMessage(Str(VoteMessage(req.candidate)), req.signature).value,
                         eth.getAddress(req.publicKey).value)
  }

  /** The signature passes and the hash is computed. */
  predicate SignatureAccepted(req: CastRequest, eth: Ethers)
  {
    SignatureMatches(req, eth) && eth.keccakUtf8(req.publicKey).Success?
  }

  /** Every check of `/cast-vote` passes, stated on the collaborators' results
      and the contract's state rather than on the chain of branches. */
  predicate AllChecksPass(req: CastRequest, eth: Ethers, chain: Chain)
  {
    && SignatureAccepted(req, eth)
    && (var account := eth.getAddress(req.publicKey).value;
        var identityHash := eth.keccakUtf8(req.publicKey).value;
        && chain.fault(GetIdentity(account)).None?
        && Registered(chain, account)
        && chain.fault(VerifyIdentityCertificate(chain.registry[account].certificate, identityHash)).None?
        && chain.certificateValid(chain.registry[account].certificate, identityHash)
        && chain.fault(HasVoted(account)).None?
        && account !in chain.voted)
  }

  /** A request is admitted exactly when every check passes, and the row it
      yields holds the checksummed address, the candidate as sent, and the hash
      of the raw `publicKey` string (not of the checksummed address). */
  lemma AdmitIffAllChecksPass(req: CastRequest, eth: Ethers, chain: Chain)
    ensures Admit(req, eth, chain).Admitted? <==> AllChecksPass(req, eth, chain)
    ensures Admit(req, eth, chain).Admitted? ==>
              Admit(req, eth, chain) == Admitted(eth.getAddress(req.publicKey).value, req.candidate,
                                                 eth.keccakUtf8(req.publicKey).value)
  {
    var addr := eth.getAddress(req.publicKey);
    var rec := eth.verifyMessage(Str(VoteMessage(req.candidate)), req.signature);
    if addr.Success? && rec.Success? {
      LowerAsciiEqIff(rec.value, addr.value);
    }
  }

  /** A signature that does not recover the checksummed address is refused
      with 401 whatever the contract's state, so nothing there is consulted. */
  lemma MismatchRefusedFirst(req: CastRequest, eth: Ethers, chain: Chain)
    requires eth.getAddress(req.publicKey).Success?
    requires eth.verifyMessage(Str(VoteMessage(req.candidate)), req.signature).Success?
    requires !EqualIgnoringCase(eth.verifyMessage(Str(VoteMessage(req.candidate)), req.signature).value,
                                eth.getAddress(req.publicKey).value)
    ensures Admit(req, eth, chain) == Rejected(SignatureMismatch)
  {
    LowerAsciiEqIff(eth.verifyMessage(Str(VoteMessage(req.candidate)), req.signature).value,
                    eth.getAddress(req.publicKey).value);
  }

  lemma SignatureAcceptedUnfolds(req: CastRequest, eth: Ethers)
    requires SignatureAccepted(req, eth)
    ensures LowerAscii(eth.verifyMessage(Str(VoteMessage(req.candidate)), req.signature).value)
            == LowerAscii(eth.getAddress(req.publicKey).value)
  {
    LowerAsciiEqIff(eth.verifyMessage(Str(VoteMessage(req.candidate)), req.signature).value,
                    eth.getAddress(req.publicKey).value);
  }

  /** An account without a complete registry entry is refused with 403 after the
      signature and before the certificate and voted-flag reads. */
  lemma UnregisteredRefused(req: CastRequest, eth: Ethers, chain: Chain)
    requires SignatureAccepted(req, eth)
    requires chain.fault(GetIdentity(eth.getAddress(req.publicKey).value)).None?
    requires !Registered(chain, eth.getAddress(req.publicKey).value)
    ensures Admit(req, eth, chain) == Rejected(NotRegistered)
  {
    SignatureAcceptedUnfolds(req, eth);
  }

  /** A certificate the contract does not accept for the hash gives 401. */
  lemma CertificateRefused(req: CastRequest, eth: Ethers, chain: Chain)
    requires SignatureAccepted(req, eth)
    requires var account := eth.getAddress(req.publicKey).value;
             && chain.fault(GetIdentity(account)).None?
             && Registered(chain, account)
             && chain.fault(VerifyIdentityCertificate(chain.registry[account].certificate,
                                                      eth.keccakUtf8(req.publicKey).value)).None?
             && !chain.certificateValid(chain.registry[account].certificate, eth.keccakUtf8(req.publicKey).value)
    ensures Admit(req, eth, chain) == Rejected(IdentityFailed)
  {
    SignatureAcceptedUnfolds(req, eth);
  }

  /** An account whose on-chain voted flag is set gives 400. */
  lemma AlreadyVotedRefused(req: CastRequest, eth: Ethers, chain: Chain)
    requires SignatureAccepted(req, eth)
    requires var account := eth.getAddress(req.publicKey).value;
             && chain.fault(GetIdentity(account)).None?
             && Registered(chain, account)
             && chain.fault(VerifyIdentityCertificate(chain.registry[account].certificate,
                                                      eth.keccakUtf8(req.publicKey).value)).None?
             && chain.certificateValid(chain.registry[account].certificate, eth.keccakUtf8(req.publicKey).value)
             && chain.fault(HasVoted(account)).None?
             && account in chain.voted
    ensures Admit(req, eth, chain) == Rejected(AlreadyVoted)
  {
    SignatureAcceptedUnfolds(req, eth);
  }

  /** Whatever a collaborator throws ends the request with 500 and the error's
      text: an invalid address, a malformed signature, a failed hash, or a failed
      registry, certificate or voted-flag call; and no rejection carries an
      identity hash. */
  lemma ThrownIs500(req: CastRequest, eth: Ethers, chain: Chain, e: Thrown)
    ensures eth.getAddress(req.publicKey) == Failure(e) ==> Admit(req, eth, chain) == Rejected(Crash(e))
    ensures eth.getAddress(req.publicKey).Success?
            && eth.verifyMessage(Str(VoteMessage(req.candidate)), req.signature) == Failure(e)
            ==> Admit(req, eth, chain) == Rejected(Crash(e))
    ensures SignatureMatches(req, eth) && eth.keccakUtf8(req.publicKey) == Failure(e)
            ==> Admit(req, eth, chain) == Rejected(Crash(e))
    ensures SignatureAccepted(req, eth) && chain.fault(GetIdentity(eth.getAddress(req.publicKey).value)) == Some(e)
            ==> Admit(req, eth, chain) == Rejected(Crash(e))
    ensures (SignatureAccepted(req, eth)
             && var account := eth.getAddress(req.publicKey).value;
                && chain.fault(GetIdentity(account)).None?
                && Registered(chain, account)
                && chain.fault(VerifyIdentityCertificate(chain.registry[account].certificate,
                                                         eth.keccakUtf8(req.publicKey).value)) == Some(e))
            ==> Admit(req, eth, chain) == Rejected(Crash(e))
    ensures (SignatureAccepted(req, eth)
             && var account := eth.getAddress(req.publicKey).value;
                && chain.fault(GetIdentity(account)).None?
                && Registered(chain, account)
                && chain.fault(VerifyIdentityCertificate(chain.registry[account].certificate,
                                                         eth.keccakUtf8(req.publicKey).value)).None?
                && chain.certificateValid(chain.registry[account].certificate, eth.keccakUtf8(req.publicKey).value)
                && chain.fault(HasVoted(account)) == Some(e))
            ==> Admit(req, eth, chain) == Rejected(Crash(e))
    ensures Admit(req, eth, chain).Rejected? ==>
              var r := Admit(req, eth, chain).reply;
              && !r.success && r.identityHash.None?
              && (r.status == 500 <==> r.error.Some?)
              && (r.status == 400 || r.status == 401 || r.status == 403 || r.status == 500)
  {
    var addr := eth.getAddress(req.publicKey);
    var rec := eth.verifyMessage(Str(VoteMessage(req.candidate)), req.signature);
    if addr.Success? && rec.Success? {
      LowerAsciiEqIff(rec.value, addr.value);
    }
  }

  /** As written, `keccak256` is not in scope: no request is ever admitted;
      one whose signature checks out gets 500 "keccak256 is not defined",
      before the registry is read. */
  lemma AsWrittenNeverAdmits(req: CastRequest, eth: Ethers, chain: Chain)
    ensures !Admit(req, AsWritten(eth), chain).Admitted?
    ensures SignatureMatches(req, eth) ==>
              Admit(req, AsWritten(eth), chain) == Rejected(Crash(KeccakNotDefined))
  {
    var w := AsWritten(eth);
    assert w.getAddress == eth.getAddress && w.verifyMessage == eth.verifyMessage;
    var addr := eth.getAddress(req.publicKey);
    var rec := eth.verifyMessage(Str(VoteMessage(req.candidate)), req.signature);
    if addr.Success? && rec.Success? {
      LowerAsciiEqIff(rec.value, addr.value);
    }
  }

  /** `/cast-vote`: the admission chain, then the INSERT into `votes`. A row is
      appended, and a success reply carrying the identity hash sent, exactly
      when every check passes and the INSERT succeeds. */
  method CastVote(db: VotesTable, req: CastRequest, eth: Ethers, chain: Chain, now: int, ioFault: Option<string>)
    returns (reply: Reply)
    requires db.Valid()
    modifies db
    ensures db.Valid()
    ensures reply.success <==> AllChecksPass(req, eth, chain) && InsertError(db.columns, ioFault).None?
    ensures reply.success ==>
              && reply.status == 200
              && reply.identityHash == Some(eth.keccakUtf8(req.publicKey).value)
              && db.rows == old(db.rows) + [Row(old(db.nextId), eth.getAddress(req.publicKey).value, req.candidate,
                                                eth.keccakUtf8(req.publicKey).value, now)]
    ensures reply.success ==>
              reply == Reply(200, true, Some(Admitted200), None, Some(eth.keccakUtf8(req.publicKey).value))
    ensures db.nextId == old(db.nextId) + (if reply.success then 1 else 0)
    ensures !reply.success ==> db.rows == old(db.rows) && reply.identityHash.None?
    ensures AllChecksPass(req, eth, chain) && !reply.success ==> reply == DatabaseError
    ensures !AllChecksPass(req, eth, chain) ==> Admit(req, eth, chain) == Rejected(reply)
  {
    var admission := Admit(req, eth, chain);
    AdmitIffAllChecksPass(req, eth, chain);
    ThrownIs500(req, eth, chain, Thrown(None, None));
    match admission
    case Rejected(r) =>
      reply := r;
    case Admitted(voterAddress, candidate, identityHash) =>
      var err := db.InsertVote(voterAddress, candidate, identityHash, now, ioFault);
      reply := Respond(admission, err);
  }

  /** The backend never sets the voted flag (the page sends the on-chain vote
      afterwards), so the same signed request, sent twice before that
      transaction, is admitted twice and mirrored as two rows. */
  method AdmitTwice(db: VotesTable, req: CastRequest, eth: Ethers, chain: Chain, t1: int, t2: int)
    returns (first: Reply, second: Reply)
    requires db.Valid() && db.columns == Schema
    requires AllChecksPass(req, eth, chain)
    modifies db
    ensures first.success && second.success
    ensures |db.rows| == |old(db.rows)| + 2
    ensures db.rows[|db.rows| - 2].voterPublicKey == db.rows[|db.rows| - 1].voterPublicKey
  {
    InsertSucceedsWithSchema(None);
    first := CastVote(db, req, eth, chain, t1, None);
    second := CastVote(db, req, eth, chain, t2, None);
  }

  // ===========================================================================
  // /get-votes

  /** One entry of `results`: the candidate and its count as a decimal string. */
  datatype Tally = Tally(candidate: string, count: string)

  /** 200 `{success: true, results}` or 500 `{success: false, error: err.message}`. */
  datatype VotesReply = VotesOk(results: seq<Tally>) | VotesFailed(error: Option<string>)

  /** The `for` loop that reads `candidates(i)` for `i` from `i` to `count`,
      pushing onto `acc`; the first failing read ends it. */
  function ReadNames(chain: Chain, i: nat, count: nat, acc: seq<string>): Result<seq<string>, Thrown>
    decreases count - i
  {
    if i >= count then Success(acc)
    else
      match ReadCandidate(chain, i)
      case Failure(e) => Failure(e)
      case Success(name) => ReadNames(chain, i + 1, count, acc + [name])
  }

  /** The per-candidate `getVoteCount` reads, in index order. */
  function ReadCounts(chain: Chain, names: seq<string>, j: nat, acc: seq<Tally>): Result<seq<Tally>, Thrown>
    decreases |names| - j
  {
    if j >= |names| then Success(acc)
    else
      match ReadVoteCount(chain, names[j])
      case Failure(e) => Failure(e)
      case Success(n) => ReadCounts(chain, names, j + 1, acc + [Tally(names[j], Decimal(n))])
  }

  /** The reply of `/get-votes` once the candidate count has been read. */
  function VotesFrom(chain: Chain, count: Result<nat, Thrown>): VotesReply
  {
    match count
    case Failure(e) => VotesFailed(e.message)
    case Success(n) =>
      match ReadNames(chain, 0, n, [])
      case Failure(e) => VotesFailed(e.message)
      case Success(names) =>
        match ReadCounts(chain, names, 0, [])
        case Failure(e) => VotesFailed(e.message)
        case Success(results) => VotesOk(results)
  }

  /** No read that `/get-votes` makes fails. */
  predicate TallyReadable(chain: Chain)
  {
    && chain.fault(CandidateCount).None?
    && (forall i :: 0 <= i < |chain.candidates| ==> chain.fault(Candidates(i)).None?)
    && (forall i :: 0 <= i < |chain.candidates| ==> chain.fault(GetVoteCount(chain.candidates[i])).None?)
  }

  lemma {:induction false} ReadNamesMeaning(chain: Chain, i: nat, count: nat, acc: seq<string>)
    requires i <= count <= |chain.candidates|
    ensures ReadNames(chain, i, count, acc).Success?
            <==> forall k :: i <= k < count ==> chain.fault(Candidates(k)).None?
    ensures ReadNames(chain, i, count, acc).Success? ==>
              ReadNames(chain, i, count, acc).value == acc + chain.candidates[i..count]
    decreases count - i
  {
    if i < count {
      ReadNamesMeaning(chain, i + 1, count, acc + [chain.candidates[i]]);
      assert chain.candidates[i..count] == [chain.candidates[i]] + chain.candidates[i + 1..count];
    }
  }

  lemma {:induction false} ReadCountsMeaning(chain: Chain, names: seq<string>, j: nat, acc: seq<Tally>)
    requires j <= |names|
    ensures ReadCounts(chain, names, j, acc).Success?
            <==> forall k :: j <= k < |names| ==> chain.fault(GetVoteCount(names[k])).None?
    ensures ReadCounts(chain, names, j, acc).Success? ==>
              var r := ReadCounts(chain, names, j, acc).value;
              && |r| == |acc| + |names| - j
              && r[..|acc|] == acc
              && forall k :: j <= k < |names| ==>
                   r[|acc| + k - j] == Tally(names[k], Decimal(CountOf(chain, names[k])))
    decreases |names| - j
  {
    if j < |names| {
      var t := Tally(names[j], Decimal(CountOf(chain, names[j])));
      ReadCountsMeaning(chain, names, j + 1, acc + [t]);
      if ReadCounts(chain, names, j, acc).Success? {
        var r := ReadCounts(chain, names, j, acc).value;
        assert r[..|acc| + 1] == acc + [t];
        assert r[..|acc|] == (acc + [t])[..|acc|];
      }
    }
  }

  lemma CountsPerCandidate(chain: Chain, results: seq<Tally>)
    requires ReadCounts(chain, chain.candidates, 0, []) == Success(results)
    ensures |results| == |chain.candidates|
    ensures forall i :: 0 <= i < |results| ==>
              results[i] == Tally(chain.candidates[i], Decimal(CountOf(chain, chain.candidates[i])))
  {
    ReadCountsMeaning(chain, chain.candidates, 0, []);
    forall i | 0 <= i < |results|
      ensures results[i] == Tally(chain.candidates[i], Decimal(CountOf(chain, chain.candidates[i])))
    {
      var none: seq<Tally> := [];
      assert results[|none| + i - 0] == results[i];
    }
  }

  /** `/get-votes` succeeds exactly when its reads do, and then returns one
      entry per candidate index, in index order, holding that candidate's
      on-chain count printed in decimal. */
  lemma TallyOnePerCandidate(chain: Chain)
    ensures VotesFrom(chain, ReadCandidateCount(chain)).VotesOk? <==> TallyReadable(chain)
    ensures VotesFrom(chain, ReadCandidateCount(chain)).VotesOk? ==>
              var results := VotesFrom(chain, ReadCandidateCount(chain)).results;
              && |results| == |chain.candidates|
              && forall i :: 0 <= i < |results| ==>
                   results[i] == Tally(chain.candidates[i], Decimal(CountOf(chain, chain.candidates[i])))
  {
    var n := |chain.candidates|;
    ReadNamesMeaning(chain, 0, n, []);
    assert [] + chain.candidates[0..n] == chain.candidates;
    ReadCountsMeaning(chain, chain.candidates, 0, []);
    if chain.fault(CandidateCount).None? {
      assert ReadCandidateCount(chain) == Success(n);
      var names := ReadNames(chain, 0, n, []);
      if names.Success? {
        assert names.value == chain.candidates;
        var counts := ReadCounts(chain, chain.candidates, 0, []);
        assert VotesFrom(chain, ReadCandidateCount(chain))
               == if counts.Success? then VotesOk(counts.value) else VotesFailed(counts.error.message);
        if counts.Success? {
          CountsPerCandidate(chain, counts.value);
        }
      } else {
        assert VotesFrom(chain, ReadCandidateCount(chain)) == VotesFailed(names.error.message);
      }
    }
  }

  /** As written, `contract.candidates.length()` throws, so `/get-votes` always
      answers 500. */
  lemma AsWrittenTallyFails(chain: Chain)
    ensures VotesFrom(chain, ReadCandidateCountAsWritten(chain))
            == VotesFailed(Some("contract.candidates.length is not a function"))
  {
  }

  /** `/get-votes`: read the candidate count, push each candidate name, then
      read each candidate's count. Only reads the contract. */
  method GetVotes(chain: Chain) returns (reply: VotesReply)
    ensures reply == VotesFrom(chain, ReadCandidateCount(chain))
    ensures reply.VotesOk? <==> TallyReadable(chain)
    ensures reply.VotesOk? ==>
              && |reply.results| == |chain.candidates|
              && forall i :: 0 <= i < |chain.candidates| ==>
                   reply.results[i] == Tally(chain.candidates[i], Decimal(CountOf(chain, chain.candidates[i])))
  {
    TallyOnePerCandidate(chain);
    var count := ReadCandidateCount(chain);
    if count.Failure? {
      return VotesFailed(count.error.message);
    }
    var candidates: seq<string> := [];
    var i: nat := 0;
    while i < count.value
      invariant i <= count.value
      invariant ReadNames(chain, 0, count.value, []) == ReadNames(chain, i, count.value, candidates)
    {
      var name := ReadCandidate(chain, i);
      if name.Failure? {
        return VotesFailed(name.error.message);
      }
      candidates := candidates + [name.value];
      i := i + 1;
    }
    var results: seq<Tally> := [];
    var j: nat := 0;
    while j < |candidates|
      invariant j <= |candidates|
      invariant ReadCounts(chain, candidates, 0, []) == ReadCounts(chain, candidates, j, results)
    {
      var n := ReadVoteCount(chain, candidates[j]);
      if n.Failure? {
        return VotesFailed(n.error.message);
      }
      results := results + [Tally(candidates[j], Decimal(n.value))];
      j := j + 1;
    }
    reply := VotesOk(results);
  }

  // ===========================================================================
  // /get-vote-history

  /** 200 `{success: true, voteHistory}` or 500 `{success: false, error}`. */
  datatype HistoryReply = HistoryOk(voteHistory: seq<Row>) | HistoryFailed(error: string)

  /** `/get-vote-history`: every mirrored row, most recent first. */
  method GetVoteHistory(db: VotesTable, ioFault: Option<string>) returns (reply: HistoryReply)
    ensures reply.HistoryOk? <==> ioFault.None?
    ensures reply.HistoryFailed? ==> reply.error == ioFault.value
    ensures reply.HistoryOk? ==>
              && SortedByTimeDesc(reply.voteHistory)
              && multiset(reply.voteHistory) == multiset(db.rows)
    ensures reply.HistoryOk? && IncreasingTime(db.rows) ==> reply.voteHistory == Reverse(db.rows)
  {
    var r := db.SelectNewestFirst(ioFault);
    match r
    case Failure(e) => reply := HistoryFailed(e);
    case Success(rows) => reply := HistoryOk(rows);
  }
}

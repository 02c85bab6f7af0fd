# Vote admission and tally backend, modelled in Dafny

This project models the server of a signature-based voting application
(`backend/index.js`). The server has four request handlers:

- `/verify-proof` recovers the signer of a message and reports whether it is
  the claimed key, ignoring case.
- `/cast-vote` is a fail-fast admission pipeline. It checksums the claimed key,
  checks that the signature over `"Voting for: " + candidate` recovers that
  address, hashes the raw key, reads the voter's registry entry, has the
  contract verify the certificate against the hash, and reads the voted flag.
  It then mirrors the vote as a row of the SQLite `votes` table and answers
  with the identity hash. The vote itself is sent to the contract later, by
  the voting page.
- `/get-votes` reads the candidate list from the contract and pairs each
  candidate with its vote count.
- `/get-vote-history` lists the mirrored rows, most recent first.

Modules:

- `Js`: the JavaScript semantics the handlers rely on. Request fields may be
  `undefined`. `/cast-vote` reports a thrown error as `reason || message ||
  "Internal server error"`; `/verify-proof` and `/get-votes` report
  `err.message` alone. It also covers ASCII `toLowerCase` and `BigInt`
  `toString`.
- `Ethers`: `verifyMessage`, `getAddress` and `keccak256(toUtf8Bytes(..))` as
  deterministic oracles that may throw.
- `Contract`: the contract state the backend reads. This is the registry map,
  the voted set, the candidate list and the vote counters. Any call may fail
  at the RPC layer.
- `VotesDb`: the `votes` table as a class. Its rows are a sequence that only
  ever grows, ids are auto-incremented, and `ORDER BY timestamp DESC` is a
  sort.
- `Backend`: the four handlers and the properties of the admission pipeline.

The pipeline is a pure function `Admit` from the collaborators' results to a
rejection reply or to the row to insert. `CastVote` is the method that runs it
and appends the row to the table. `GetVotes` is the method with the handler's
loops. Three things are parameters of the model rather than modelled:

- the database clock `now` of each INSERT;
- the I/O outcome of each database statement;
- the RPC faults of each contract call.

The model follows the code in these points:

- The code has no explicit missing-parameter check. An absent `publicKey` or
  `signature` reaches `getAddress`, `verifyMessage` or `toLowerCase`, and the
  resulting throw answers 500. An absent `candidate` does not throw: the
  template literal turns it into the text "undefined", so the signature is
  checked over "Voting for: undefined", and an admitted request is stored
  with no candidate.
- The code hashes the raw `publicKey` string, not the checksummed address.
- The code never sends the vote transaction, so it never sets the voted flag.
  Repeated requests before the page's transaction each append a row.
- The code compares the recovered address with `getAddress(publicKey)` and
  never consults the registered public key, except to check that it is
  non-empty.

## Model

| member | source | states |
|---|---|---|
| `Js.ErrorText` | backend/index.js:107 | the 500 error text is never empty, and is the reason, the message or "Internal server error" |
| `Js.LowerAsciiEqIff` | backend/index.js:55 | `a.toLowerCase() === b.toLowerCase()` holds exactly when the strings are equal ignoring ASCII case, both directions |
| `Js.LowerAsciiIdempotent` | backend/index.js:36 | a lower-cased address holds no upper-case letter, and lower-casing it again changes nothing |
| `Js.Decimal` | backend/index.js:125 | a printed count is a non-empty string of decimal digits with no leading zero |
| `Js.DecimalRoundTrip` | backend/index.js:125 | the count string of a tally reads back as exactly the on-chain count |
| `Js.DecimalInjective` | backend/index.js:125 | different counts never print as the same string |
| `VotesDb.MissingColumn` | backend/index.js:86 | an INSERT finds no missing column exactly when every named column is in the table; any column it reports is named and missing |
| `VotesDb.AsWrittenInsertFails` | backend/index.js:22-27 | with the table as created, the admission INSERT always fails with "SQLITE_ERROR: table votes has no column named identityHash" (the text reaches only the server log; the client sees "Database error") |
| `VotesDb.InsertSucceedsWithSchema` | backend/index.js:85-92 | once the table has an `identityHash` column, only an I/O fault fails the INSERT |
| `VotesDb.InsertByTime` | backend/index.js:138 | inserting a row into a listing keeps every row and adds the new one, either at the head or behind the old head |
| `VotesDb.InsertByTimeSorted` | backend/index.js:138 | inserting a row into a listing ordered by timestamp, descending, keeps it so ordered |
| `VotesDb.SortByTimeDescCorrect` | backend/index.js:138 | the history query returns a permutation of the stored rows, ordered by timestamp descending |
| `VotesDb.NewestFirst` | backend/index.js:138 | if every row was stored strictly later than the one before, the history is exactly the rows in reverse insertion order, the only order `ORDER BY timestamp DESC` then allows |
| `VotesDb.VotesTable.constructor` | backend/index.js:22-27 | creating the table gives an empty table with the given columns, and the next id is 1 |
| `VotesDb.VotesTable.InsertVote` | backend/index.js:85-92 | on success, exactly one row with the next id and the given values is appended; on an error, the table is unchanged and the error is the INSERT's |
| `VotesDb.VotesTable.SelectNewestFirst` | backend/index.js:138-139 | without a read error, returns all rows ordered by timestamp descending, and the reverse of insertion order when timestamps strictly increase; with one, returns that error |
| `Backend.VerifyProofSuccessIff` | backend/index.js:31-42 | `success` holds exactly when recovery works, a key is sent and the two agree ignoring case; 200 exactly when recovery works and a key is sent, else 500; "Proof verified!" exactly when the recovered address is non-empty and "Invalid proof!" exactly when it is empty, whether or not it matches; a 500 carries the thrown error's `message` alone (the recovery error's, or that of `toLowerCase` on a missing key), a 200 no error |
| `Backend.VoteMessageBindsCandidate` | backend/index.js:51 | distinct candidates give distinct signed messages; a missing candidate gives the message of the text "undefined"; that the voting page signs the same message holds by definition, both being the same template |
| `Backend.AdmitIffAllChecksPass` | backend/index.js:47-82 | a request is admitted exactly when every check passes: address valid, signature recovers it, hash computed, registered, certificate accepted, not voted, and no call fails; the row holds the checksummed address, the candidate and the hash of the raw `publicKey` |
| `Backend.MismatchRefusedFirst` | backend/index.js:48-57 | a signature that recovers a different address gives 401 "Signature mismatch", whatever the contract state |
| `Backend.UnregisteredRefused` | backend/index.js:62-66 | after a good signature, a missing or incomplete registry entry gives 403 "Voter not registered", whatever the certificate check and voted flag say |
| `Backend.CertificateRefused` | backend/index.js:68-76 | a registered account whose certificate the contract rejects for the hash gives 401 "Identity verification failed", whatever its voted flag |
| `Backend.AlreadyVotedRefused` | backend/index.js:78-82 | a verified account whose voted flag is set gives 400 "Already voted" |
| `Backend.ThrownIs500` | backend/index.js:103-109 | an invalid address, a bad signature, a failed hash, or a failed registry, certificate or voted-flag call gives 500 with the error's text; no rejection is a success or carries a hash, and only 500s carry `error` |
| `Backend.AsWrittenNeverAdmits` | backend/index.js:60 | as written, no request is admitted; one with a good signature gets 500 "keccak256 is not defined" before the registry is read |
| `Backend.CastVote` | backend/index.js:45-110 | a row is appended exactly when all checks pass and the INSERT succeeds, and the reply is then 200 "Verification complete - proceed with transaction" with the identity hash of the raw key; the next id advances by one exactly then, and otherwise the table and the next id are unchanged; an INSERT failure gives 500 "Database error"; a rejected request gets the pipeline's reply |
| `Backend.AdmitTwice` | backend/index.js:78-101 | the backend never sets the voted flag, so the same passing request sent twice is admitted twice and leaves two rows for the same voter |
| `Backend.ReadNamesMeaning` | backend/index.js:116-120 | the candidate-reading loop succeeds exactly when no `candidates(i)` read fails, and then yields the on-chain list in index order |
| `Backend.ReadCountsMeaning` | backend/index.js:122-127 | the count reads succeed exactly when no read fails, and give one entry per name, in order, with that name's count in decimal |
| `Backend.TallyOnePerCandidate` | backend/index.js:113-134 | `/get-votes` succeeds exactly when its reads do; it then returns one entry per candidate index, in index order, with that candidate's on-chain count |
| `Backend.AsWrittenTallyFails` | backend/index.js:115 | as written, `/get-votes` always answers 500 "contract.candidates.length is not a function" |
| `Backend.GetVotes` | backend/index.js:113-134 | the handler's loops produce the specified reply: one entry per candidate, in order, with its count, or the first failing read's error; the contract is only read |
| `Backend.GetVoteHistory` | backend/index.js:137-142 | without a read error, the reply holds every mirrored row, newest first, and nothing else; a read error answers with its message |

## Findings

| source | as written | input that shows it | evidently intended | confidence | as-written member | corrected member |
|---|---|---|---|---|---|---|
| backend/index.js:60 | `keccak256(toUtf8Bytes(publicKey))` names two functions that are not in scope; only `ethers` is bound (line 2) | any `/cast-vote` request whose signature recovers the claimed address | `ethers.keccak256(ethers.toUtf8Bytes(publicKey))` | high, not executed | `Backend.AsWrittenNeverAdmits` | `Backend.AdmitIffAllChecksPass` |
| backend/index.js:86 | the INSERT names an `identityHash` column that `CREATE TABLE votes` (lines 22-27) does not declare | any request that passes every check, on a database file the server created | the table declares `identityHash TEXT` | high, not executed | `VotesDb.AsWrittenInsertFails` | `VotesDb.InsertSucceedsWithSchema` |
| backend/index.js:115 | `contract.candidates.length()`: `contract.candidates` is the getter function of the public array, its `length` is a number, and calling it throws | any `/get-votes` request | reading the count through a count getter of the contract | medium, not executed | `Backend.AsWrittenTallyFails` | `Backend.TallyOnePerCandidate` |

The rest of the model uses the corrected forms. `CastVote` works for any
hashing oracle and any table schema. `GetVotes` reads the count through the
contract's count call.

## Left out

- Express routing, CORS, JSON parsing and `app.listen` are left out. A handler
  is a function or method from the request fields to a status and body record.
- The cryptography of ethers is not modelled. This covers EIP-191
  personal-message recovery (`verifyMessage`), EIP-55 checksumming
  (`getAddress`) and Keccak-256 with UTF-8 encoding. They are deterministic
  oracles that may throw, and nothing is assumed about them. In particular,
  nothing says that distinct keys hash differently.
- The smart contract's code is not part of this model, including its `castVote`
  and its events. The model keeps only the state the backend reads. Unknown
  accounts and candidates read as empty identity and zero votes, as Solidity
  mappings do. Accounts are keyed by the checksummed address string.
- The transport of contract calls is a per-call fault function. Timeouts and
  retries are not modelled.
- SQLite is left out: the storage engine, the callback style, and the
  `CURRENT_TIMESTAMP` clock. The table is a sequence of rows, the clock is an
  integer parameter of each INSERT, and each statement's I/O failure is a
  parameter.
- The asynchronous response of `/cast-vote`, sent from the INSERT callback
  after the handler has returned, is modelled as sequential.
- `Backend.GetVotes`: `Promise.all` is modelled as a sequential map. When
  several count reads fail, the model reports the first in index order.
  `Promise.all` reports whichever rejects first in time.
- `VotesDb.VotesTable.SelectNewestFirst`: SQL leaves the order of rows with
  equal timestamps unspecified. The model fixes one order: newest insertion
  first. Its ensures state only what SQL promises, plus the reverse-order
  property when timestamps strictly increase. `CURRENT_TIMESTAMP` has
  one-second resolution, so rows stored within the same second tie, and for
  those the order the model returns is not a promise of the query.
- `Js.LowerAscii`: JavaScript `toLowerCase` also maps non-ASCII letters. The
  model lower-cases ASCII only, which is what hexadecimal addresses use.
- `Backend.VoteMessageBindsCandidate`: the model does not promise that a
  signature over one candidate's message fails for another's. That depends on
  EIP-191 signature recovery, which is an oracle here.
- Request fields that are JSON values other than strings (numbers, objects)
  are not modelled. A field is a string or `undefined`.
- The `err.message` of a thrown error whose message is `undefined` is modelled
  as an absent `error` field, as `JSON.stringify` drops it.
- The React pages in `frontend/` and `zk-vote-frontend/` are not modelled: UI,
  wallet connection, navigation and random nonces. The only exception is the
  vote message of `frontend/pages/Vote.js` line 42, which
  `Backend.ClientVoteMessage` models so that its agreement with the backend
  can be stated.

/** The SQLite `votes` table the backend mirrors admitted votes into: an
    append-only sequence of rows with an auto-incremented id and a timestamp
    supplied by the database clock. */
module VotesDb {
  import opened Js

  datatype Row = Row(
    id: nat,
    voterPublicKey: string,
    candidate: Field,
    identityHash: string,
    timestamp: int)

  /** The columns `CREATE TABLE votes` declares in backend/index.js. */
  const SchemaAsWritten: set<string> := {"id", "voterPublicKey", "candidate", "timestamp"}

  /** The columns the INSERT needs: the declared ones plus `identityHash`. */
  const Schema: set<string> := SchemaAsWritten + {"identityHash"}

  /** The column list of the admission INSERT. */
  const InsertColumns: seq<string> := ["voterPublicKey", "candidate", "identityHash"]

  /** The text node-sqlite3 gives the error of an INSERT naming an unknown column. */
  const NoSuchColumn := "SQLITE_ERROR: table votes has no column named "

  /** The first column of `names` the table does not have, if any. */
  function MissingColumn(columns: set<string>, names: seq<string>): (r: Option<string>)
    ensures r.None? <==> forall i :: 0 <= i < |names| ==> names[i] in columns
    ensures r.Some? ==> r.value in names && r.value !in columns
  {
    if names == [] then None
    else if names[0] !in columns then Some(names[0])
    else MissingColumn(columns, names[1..])
  }

  /** The error SQLite reports for the admission INSERT: an unknown column
      fails the statement before any I/O; otherwise the I/O outcome decides. */
  function InsertError(columns: set<string>, ioFault: Option<string>): Option<string>
  {
    match MissingColumn(columns, InsertColumns)
    case Some(name) => Some(NoSuchColumn + name)
    case None => ioFault
  }

  /** With the table as created in backend/index.js every admission INSERT fails. */
  lemma AsWrittenInsertFails(ioFault: Option<string>)
    ensures InsertError(SchemaAsWritten, ioFault) == Some(NoSuchColumn + "identityHash")
  {
    var tail := InsertColumns[1..];
    assert InsertColumns[0] in SchemaAsWritten && tail[0] in SchemaAsWritten;
    assert "identityHash" !in SchemaAsWritten;
    assert tail[1..] == ["identityHash"];
    assert MissingColumn(SchemaAsWritten, tail[1..]) == Some("identityHash");
    assert MissingColumn(SchemaAsWritten, tail) == MissingColumn(SchemaAsWritten, tail[1..]);
    assert MissingColumn(SchemaAsWritten, InsertColumns) == MissingColumn(SchemaAsWritten, tail);
  }

  /** With the `identityHash` column present, only an I/O fault fails the INSERT. */
  lemma InsertSucceedsWithSchema(ioFault: Option<string>)
    ensures InsertError(Schema, ioFault) == ioFault
  {
  }

  // ---------------------------------------------------------------------------
  // ORDER BY timestamp DESC

  predicate SortedByTimeDesc(s: seq<Row>)
  {
    forall i, j :: 0 <= i < j < |s| ==> s[i].timestamp >= s[j].timestamp
  }

  /** Places `x` after every row at least as recent as it. */
  function InsertByTime(x: Row, s: seq<Row>): (r: seq<Row>)
    ensures multiset(r) == multiset(s) + multiset{x}
    ensures |r| == |s| + 1
    ensures r[0] == x || (s != [] && r[0] == s[0])
  {
    if s == [] || x.timestamp > s[0].timestamp then [x] + s
    else
      assert s == [s[0]] + s[1..];
      [s[0]] + InsertByTime(x, s[1..])
  }

  /** Inserting into a listing ordered newest first keeps it ordered. */
  lemma {:induction false} InsertByTimeSorted(x: Row, s: seq<Row>)
    requires SortedByTimeDesc(s)
    ensures SortedByTimeDesc(InsertByTime(x, s))
  {
    if s != [] && x.timestamp <= s[0].timestamp {
      InsertByTimeSorted(x, s[1..]);
      var rest := InsertByTime(x, s[1..]);
      assert rest[0].timestamp <= s[0].timestamp;
      assert InsertByTime(x, s) == [s[0]] + rest;
    }
  }

  function SortByTimeDesc(s: seq<Row>): seq<Row>
  {
    if s == [] then [] else InsertByTime(s[0], SortByTimeDesc(s[1..]))
  }

  /** The query returns exactly the stored rows, most recent first. */
  lemma {:induction false} SortByTimeDescCorrect(s: seq<Row>)
    ensures SortedByTimeDesc(SortByTimeDesc(s))
    ensures multiset(SortByTimeDesc(s)) == multiset(s)
  {
    if s != [] {
      SortByTimeDescCorrect(s[1..]);
      InsertByTimeSorted(s[0], SortByTimeDesc(s[1..]));
      assert s == [s[0]] + s[1..];
    }
  }

  function Reverse(s: seq<Row>): (r: seq<Row>)
  {
    if s == [] then [] else Reverse(s[1..]) + [s[0]]
  }

  /** Every row was stored strictly later than the rows before it. */
  predicate IncreasingTime(s: seq<Row>)
  {
    forall i, j :: 0 <= i < j < |s| ==> s[i].timestamp < s[j].timestamp
  }

  lemma {:induction false} InsertOldest(x: Row, s: seq<Row>)
    requires forall i :: 0 <= i < |s| ==> x.timestamp <= s[i].timestamp
    ensures InsertByTime(x, s) == s + [x]
  {
    if s != [] {
      InsertOldest(x, s[1..]);
      assert s == [s[0]] + s[1..];
    }
  }

  lemma {:induction false} ReverseMembers(s: seq<Row>)
    ensures multiset(Reverse(s)) == multiset(s)
  {
    if s != [] {
      ReverseMembers(s[1..]);
      assert s == [s[0]] + s[1..];
    }
  }

  /** When every row was stored strictly later than the one before, the only
      order `ORDER BY timestamp DESC` allows is the exact reverse of insertion. */
  lemma {:induction false} NewestFirst(s: seq<Row>)
    requires IncreasingTime(s)
    ensures SortByTimeDesc(s) == Reverse(s)
  {
    if s != [] {
      NewestFirst(s[1..]);
      ReverseMembers(s[1..]);
      forall i | 0 <= i < |Reverse(s[1..])|
        ensures s[0].timestamp <= Reverse(s[1..])[i].timestamp
      {
        assert Reverse(s[1..])[i] in multiset(s[1..]);
        var k :| 0 <= k < |s[1..]| && s[1..][k] == Reverse(s[1..])[i];
        assert s[1..][k] == s[k + 1];
      }
      InsertOldest(s[0], Reverse(s[1..]));
    }
  }

  // ---------------------------------------------------------------------------

  class VotesTable {
    const columns: set<string>
    var rows: seq<Row>
    var nextId: nat

    /** Ids are assigned increasingly from 1 and never reused. */
    ghost predicate Valid()
      reads this
    {
      && nextId >= 1
      && (forall i :: 0 <= i < |rows| ==> 1 <= rows[i].id < nextId)
      && (forall i, j :: 0 <= i < j < |rows| ==> rows[i].id < rows[j].id)
    }

    /** `CREATE TABLE IF NOT EXISTS votes (...)` on a fresh database file. */
    constructor (columns: set<string>)
      ensures Valid()
      ensures this.columns == columns && rows == [] && nextId == 1
    {
      this.columns := columns;
      rows := [];
      nextId := 1;
    }

    /** `INSERT INTO votes (voterPublicKey, candidate, identityHash) VALUES (?, ?, ?)`
        at database time `now`. */
    method InsertVote(voter: string, candidate: Field, identityHash: string, now: int, ioFault: Option<string>)
      returns (err: Option<string>)
      requires Valid()
      modifies this
      ensures Valid()
      ensures err == InsertError(columns, ioFault)
      ensures err.None? ==> rows == old(rows) + [Row(old(nextId), voter, candidate, identityHash, now)]
                            && nextId == old(nextId) + 1
      ensures err.Some? ==> rows == old(rows) && nextId == old(nextId)
    {
      err := InsertError(columns, ioFault);
      if err.None? {
        rows := rows + [Row(nextId, voter, candidate, identityHash, now)];
        nextId := nextId + 1;
      }
    }

    /** `SELECT * FROM votes ORDER BY timestamp DESC`; `ioFault` is a read error. */
    method SelectNewestFirst(ioFault: Option<string>) returns (r: Result<seq<Row>, string>)
      ensures r.Success? <==> ioFault.None?
      ensures r.Failure? ==> r.error == ioFault.value
      ensures r.Success? ==> SortedByTimeDesc(r.value) && multiset(r.value) == multiset(rows)
      ensures r.Success? && IncreasingTime(rows) ==> r.value == Reverse(rows)
    {
      if ioFault.Some? {
        return Failure(ioFault.value);
      }
      SortByTimeDescCorrect(rows);
      if IncreasingTime(rows) {
        NewestFirst(rows);
      }
      r := Success(SortByTimeDesc(rows));
    }
  }
}

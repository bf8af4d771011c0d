/**
 * The CSV source (`src/sources/csv.rs`): rows with an email, a first and
 * last name and a phone number become users. Opening the file and the
 * `csv` crate's deserialiser are outside the model: the source is given
 * the outcome of opening the file and, for each record, whether it
 * deserialised into a row.
 */
module Csv {
  import opened Wrappers
  import opened Errors
  import opened Common
  import Users

  /** One deserialised record: the four columns of the header. */
  datatype CsvData = CsvData(email: string, firstName: string, lastName: string, phone: string)

  /** The user this revision's sources produce. */
  datatype User = User(
    email: Users.StringOrBytes,
    firstName: Users.StringOrBytes,
    lastName: Users.StringOrBytes,
    phone: Option<Users.StringOrBytes>,
    preferredUsername: Users.StringOrBytes,
    externalUserId: Users.StringOrBytes,
    enabled: bool)

  /** What `get_diff` reports. */
  datatype SourceDiff = SourceDiff(newUsers: seq<User>, changedUsers: seq<(User, User)>, deletedUserIds: seq<string>)

  /**
   * `CsvData::to_user`: the email is the user's email, preferred username
   * and external id; an empty phone column means no phone; every CSV user
   * is enabled.
   */
  function ToUser(row: CsvData): (u: User)
    ensures u.enabled
    ensures u.email == Users.String(row.email)
    ensures u.email == u.preferredUsername == u.externalUserId
    ensures u.phone.None? <==> row.phone == ""
  {
    User(
      Users.String(row.email), Users.String(row.firstName), Users.String(row.lastName),
      if row.phone == "" then None else Some(Users.String(row.phone)),
      Users.String(row.email), Users.String(row.email), true)
  }

  /** The row a CSV user came from: its text fields read back, no phone read as an empty column. */
  function ToRow(u: User): CsvData {
    CsvData(
      Users.ToString(u.email), Users.ToString(u.firstName), Users.ToString(u.lastName),
      match u.phone case None => "" case Some(p) => Users.ToString(p))
  }

  /** No column is lost: the row can be read back from the user. */
  lemma ToRowToUser(row: CsvData)
    ensures ToRow(ToUser(row)) == row
  {
  }

  /** Distinct rows give distinct users. */
  lemma ToUserInjective(a: CsvData, b: CsvData)
    requires ToUser(a) == ToUser(b)
    ensures a == b
  {
    ToRowToUser(a);
    ToRowToUser(b);
  }

  /** `read_csv` after the file is open: records that fail to deserialise are dropped, the rest become users in order. */
  function ReadRows(records: seq<Result<CsvData, Error>>): (users: seq<User>)
    ensures |users| <= |records|
    decreases |records|
  {
    if records == [] then []
    else
      var init := ReadRows(records[..|records| - 1]);
      match records[|records| - 1]
      case Ok(row) => init + [ToUser(row)]
      case Err(_) => init
  }

  /** The records that deserialised, in order. */
  function Parsed(records: seq<Result<CsvData, Error>>): (rows: seq<CsvData>)
    ensures |rows| <= |records|
    decreases |records|
  {
    if records == [] then []
    else
      var init := Parsed(records[..|records| - 1]);
      match records[|records| - 1]
      case Ok(row) => init + [row]
      case Err(_) => init
  }

  /** Reading the file maps `to_user` over exactly the records that deserialised, keeping their order. */
  lemma {:induction false} ReadRowsMapsParsed(records: seq<Result<CsvData, Error>>)
    ensures |ReadRows(records)| == |Parsed(records)|
    ensures forall i :: 0 <= i < |Parsed(records)| ==> ReadRows(records)[i] == ToUser(Parsed(records)[i])
    decreases |records|
  {
    if records != [] {
      ReadRowsMapsParsed(records[..|records| - 1]);
    }
  }

  /** The records are read independently of each other: reading two parts of a file is reading each. */
  lemma {:induction false} ReadRowsConcat(a: seq<Result<CsvData, Error>>, b: seq<Result<CsvData, Error>>)
    ensures ReadRows(a + b) == ReadRows(a) + ReadRows(b)
    decreases |b|
  {
    if b == [] {
      assert a + b == a;
    } else {
      DropLast(a, b);
      ReadRowsConcat(a, b[..|b| - 1]);
    }
  }

  /** A file none of whose records deserialise (only a header, or rows that do not match it) gives no users and no error. */
  lemma {:induction false} ReadRowsAllFailed(records: seq<Result<CsvData, Error>>)
    requires forall i :: 0 <= i < |records| ==> records[i].Err?
    ensures ReadRows(records) == []
    decreases |records|
  {
    if records != [] {
      ReadRowsAllFailed(records[..|records| - 1]);
    }
  }

  /** Every record that deserialises gives a user. */
  lemma {:induction false} ReadRowsAllParsed(records: seq<Result<CsvData, Error>>)
    requires forall i :: 0 <= i < |records| ==> records[i].Ok?
    ensures |ReadRows(records)| == |records|
    ensures forall i :: 0 <= i < |records| ==> ReadRows(records)[i] == ToUser(records[i].value)
    decreases |records|
  {
    if records != [] {
      ReadRowsAllParsed(records[..|records| - 1]);
    }
  }

  /** `read_csv`: a file that cannot be opened is an error; otherwise the users of its records. */
  function ReadCsv(file: Result<seq<Result<CsvData, Error>>, Error>): (r: Result<seq<User>, Error>)
    ensures r.Err? <==> file.Err?
    ensures r.Err? ==> r.error == file.error
  {
    var records :- file;
    Ok(ReadRows(records))
  }

  /** `get_diff`: the users read are all new; no changed or deleted users are reported. */
  function GetDiff(file: Result<seq<Result<CsvData, Error>>, Error>): (r: Result<SourceDiff, Error>)
    ensures r.Ok? <==> ReadCsv(file).Ok?
    ensures r.Ok? ==> r.value == SourceDiff(ReadCsv(file).value, [], [])
    ensures r.Err? ==> r.error == ReadCsv(file).error
  {
    var newUsers :- ReadCsv(file);
    Ok(SourceDiff(newUsers, [], []))
  }

  /** A malformed first record followed by a good one yields just the good one. */
  lemma MalformedRowSkipped(e: Error)
    ensures var jane := CsvData("jane.smith@example.com", "Jane", "Smith", "+2222222222");
      var users := ReadCsv(Ok([Err(e), Ok(jane)])).value;
      && |users| == 1
      && users[0].email == Users.String("jane.smith@example.com")
      && users[0].lastName == Users.String("Smith")
  {
    var jane := CsvData("jane.smith@example.com", "Jane", "Smith", "+2222222222");
    ReadRowsConcat([Err(e)], [Ok(jane)]);
    ReadRowsAllFailed([Err(e)]);
    ReadRowsAllParsed([Ok(jane)]);
    assert [Err(e), Ok(jane)] == [Err(e)] + [Ok(jane)];
  }

  /** A row with an empty phone column gives a user without phone; a filled column is kept as text. */
  lemma PhoneColumn()
    ensures ToUser(CsvData("alice.johnson@example.com", "Alice", "Johnson", "")).phone == None
    ensures ToUser(CsvData("bob.williams@example.com", "Bob", "Williams", "+4444444444")).phone
      == Some(Users.String("+4444444444"))
  {
  }
}

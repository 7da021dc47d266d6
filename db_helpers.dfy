/**
 * The database helpers of the loan service, over an in-memory store in
 * place of the SQL engine: a `Database` object owns the two tables as
 * sequences of rows in storage order, and each helper is a method that
 * changes those sequences the way the helper's SQL statement changes the
 * tables.
 *
 * New rows get the primary key the engine gives an integer key it assigns
 * itself: one more than the largest key in the table, or 1 when the table
 * is empty. Rows are kept in key order, which is the order a query without
 * `ORDER BY` returns them in.
 */
module DbHelpers {
  import opened Results
  import opened RestModels
  import opened DbModels

  // ------------------------------------------------------------- invariants

  /** Keys are positive and strictly increase along the storage order. */
  ghost predicate LoanIdsIncreasing(loans: seq<LoanRequest>) {
    (forall i :: 0 <= i < |loans| ==> loans[i].id >= 1)
    && forall i, j :: 0 <= i < j < |loans| ==> loans[i].id < loans[j].id
  }

  /** Keys are positive and strictly increase along the storage order. */
  ghost predicate AdminIdsIncreasing(admins: seq<AdminUser>) {
    (forall i :: 0 <= i < |admins| ==> admins[i].id >= 1)
    && forall i, j :: 0 <= i < j < |admins| ==> admins[i].id < admins[j].id
  }

  /** No two administrators share a username. */
  ghost predicate UniqueUsernames(admins: seq<AdminUser>) {
    forall i, j :: 0 <= i < j < |admins| ==> admins[i].username != admins[j].username
  }

  // ---------------------------------------------------------------- queries

  /** `query(AdminUser).filter(AdminUser.username == username).first()`, as a position. */
  function FirstAdminNamed(admins: seq<AdminUser>, username: string): (r: Option<nat>)
    ensures r.None? <==> forall i :: 0 <= i < |admins| ==> admins[i].username != username
    ensures r.Some? ==> r.value < |admins| && admins[r.value].username == username
    ensures r.Some? ==> forall i :: 0 <= i < r.value ==> admins[i].username != username
  {
    if |admins| == 0 then None
    else if admins[0].username == username then Some(0)
    else
      match FirstAdminNamed(admins[1..], username)
      case None => None
      case Some(k) => Some(k + 1)
  }

  /** With unique usernames the first administrator with a name is the only one. */
  lemma {:induction false} FirstAdminNamedUnique(admins: seq<AdminUser>, i: nat)
    requires UniqueUsernames(admins)
    requires i < |admins|
    ensures FirstAdminNamed(admins, admins[i].username) == Some(i)
  {
    var r := FirstAdminNamed(admins, admins[i].username);
    assert r.Some?;
    assert r.value <= i;
    assert admins[r.value].username == admins[i].username;
  }

  /** `query(LoanRequest).filter(LoanRequest.id == id_)`, as a position. */
  function IndexOfLoan(loans: seq<LoanRequest>, id: int): (r: Option<nat>)
    ensures r.None? <==> forall i :: 0 <= i < |loans| ==> loans[i].id != id
    ensures r.Some? ==> r.value < |loans| && loans[r.value].id == id
  {
    if |loans| == 0 then None
    else if loans[0].id == id then Some(0)
    else
      match IndexOfLoan(loans[1..], id)
      case None => None
      case Some(k) => Some(k + 1)
  }

  /** The key the engine assigns to a new loan row. */
  function NextLoanId(loans: seq<LoanRequest>): (r: int)
    requires LoanIdsIncreasing(loans)
    ensures r >= 1
    ensures forall i :: 0 <= i < |loans| ==> loans[i].id < r
  {
    if |loans| == 0 then 1 else loans[|loans| - 1].id + 1
  }

  /** The key the engine assigns to a new administrator row. */
  function NextAdminId(admins: seq<AdminUser>): (r: int)
    requires AdminIdsIncreasing(admins)
    ensures r >= 1
    ensures forall i :: 0 <= i < |admins| ==> admins[i].id < r
  {
    if |admins| == 0 then 1 else admins[|admins| - 1].id + 1
  }

  // ------------------------------------------------------- records as dicts

  /** A column value in a record dictionary. */
  datatype Cell = IntCell(i: int) | TextCell(s: string) | RealCell(x: real)

  /** The names of the seven columns of a loan record. */
  const LoanRecordKeys: set<string> := {"id", "dni", "full_name", "genre", "email", "loan_amount", "status"}

  /** The dictionary `get_loan_records` builds for one row. */
  function RecordToDict(r: LoanRequest): (d: map<string, Cell>)
    ensures d.Keys == LoanRecordKeys
  {
    map["id" := IntCell(r.id), "dni" := IntCell(r.dni), "full_name" := TextCell(r.fullName),
        "genre" := TextCell(r.genre), "email" := TextCell(r.email),
        "loan_amount" := RealCell(r.loanAmount), "status" := TextCell(r.status)]
  }

  /** Reading a row back out of its dictionary. */
  function DictToRecord(d: map<string, Cell>): (r: Option<LoanRequest>)
    ensures r.Some? ==> LoanRecordKeys <= d.Keys
  {
    if LoanRecordKeys <= d.Keys && d["id"].IntCell? && d["dni"].IntCell? && d["full_name"].TextCell?
       && d["genre"].TextCell? && d["email"].TextCell? && d["loan_amount"].RealCell? && d["status"].TextCell?
    then Some(LoanRequest(d["id"].i, d["dni"].i, d["full_name"].s, d["genre"].s, d["email"].s,
                          d["loan_amount"].x, d["status"].s))
    else None
  }

  /** The dictionary of a row holds every column of the row: nothing is lost. */
  lemma RecordDictRoundTrip(r: LoanRequest)
    ensures DictToRecord(RecordToDict(r)) == Some(r)
  {
    var d := RecordToDict(r);
    assert LoanRecordKeys <= d.Keys;
  }

  // -------------------------------------------------------- partial updates

  /** A change set with at least one field that is not None. */
  predicate HasChanges(change: LoanRecord) {
    change != EmptyLoanRecord
  }

  /** `.update(updated_data)` on one row: each field of the change that is not None overwrites its column. */
  function ApplyChange(row: LoanRequest, change: LoanRecord): (r: LoanRequest)
    ensures r.id == row.id
    ensures change.dni.Some? ==> r.dni == change.dni.value
    ensures change.fullName.Some? ==> r.fullName == change.fullName.value
    ensures change.genre.Some? ==> r.genre == SexValue(change.genre.value)
    ensures change.email.Some? ==> r.email == change.email.value
    ensures change.loanAmount.Some? ==> r.loanAmount == change.loanAmount.value
    ensures change.status.Some? ==> r.status == change.status.value
  {
    LoanRequest(
      row.id,
      if change.dni.Some? then change.dni.value else row.dni,
      if change.fullName.Some? then change.fullName.value else row.fullName,
      if change.genre.Some? then SexValue(change.genre.value) else row.genre,
      if change.email.Some? then change.email.value else row.email,
      if change.loanAmount.Some? then change.loanAmount.value else row.loanAmount,
      if change.status.Some? then change.status.value else row.status)
  }

  /** The change set that applies `later` over `earlier`. */
  function MergeChanges(earlier: LoanRecord, later: LoanRecord): LoanRecord {
    LoanRecord(
      if later.dni.Some? then later.dni else earlier.dni,
      if later.fullName.Some? then later.fullName else earlier.fullName,
      if later.genre.Some? then later.genre else earlier.genre,
      if later.email.Some? then later.email else earlier.email,
      if later.loanAmount.Some? then later.loanAmount else earlier.loanAmount,
      if later.status.Some? then later.status else earlier.status)
  }

  /** A partial update keeps the key and every column whose new value is None. */
  lemma ApplyChangeFrame(row: LoanRequest, change: LoanRecord)
    ensures ApplyChange(row, change).id == row.id
    ensures change.dni.None? ==> ApplyChange(row, change).dni == row.dni
    ensures change.fullName.None? ==> ApplyChange(row, change).fullName == row.fullName
    ensures change.genre.None? ==> ApplyChange(row, change).genre == row.genre
    ensures change.email.None? ==> ApplyChange(row, change).email == row.email
    ensures change.loanAmount.None? ==> ApplyChange(row, change).loanAmount == row.loanAmount
    ensures change.status.None? ==> ApplyChange(row, change).status == row.status
    ensures !HasChanges(change) ==> ApplyChange(row, change) == row
  {
  }

  /** Two partial updates in a row are one update with the merged change set; repeating one changes nothing more. */
  lemma ApplyChangeCompose(row: LoanRequest, earlier: LoanRecord, later: LoanRecord)
    ensures ApplyChange(ApplyChange(row, earlier), later) == ApplyChange(row, MergeChanges(earlier, later))
    ensures ApplyChange(ApplyChange(row, later), later) == ApplyChange(row, later)
  {
  }

  // ---------------------------------------------------------------- deletes

  /** The table without its rows that have key `id` (the rows a `DELETE ... WHERE id = id_` leaves). */
  function RemoveId(loans: seq<LoanRequest>, id: int): (r: seq<LoanRequest>)
    ensures |r| <= |loans|
  {
    if |loans| == 0 then []
    else (if loans[0].id == id then [] else [loans[0]]) + RemoveId(loans[1..], id)
  }

  /** The rows left are exactly the rows whose key is not `id`. */
  lemma {:induction false} RemoveIdMembers(loans: seq<LoanRequest>, id: int)
    ensures forall x :: x in RemoveId(loans, id) <==> x in loans && x.id != id
  {
    if |loans| > 0 {
      RemoveIdMembers(loans[1..], id);
      assert loans == [loans[0]] + loans[1..];
    }
  }

  /** When no row has the key, removing it changes nothing. */
  lemma {:induction false} RemoveAbsentId(loans: seq<LoanRequest>, id: int)
    requires forall i :: 0 <= i < |loans| ==> loans[i].id != id
    ensures RemoveId(loans, id) == loans
  {
    if |loans| > 0 {
      RemoveAbsentId(loans[1..], id);
    }
  }

  /** Dropping the first row keeps the keys increasing. */
  lemma LoanIdsIncreasingTail(loans: seq<LoanRequest>)
    requires LoanIdsIncreasing(loans) && |loans| > 0
    ensures LoanIdsIncreasing(loans[1..])
  {
    forall k | 0 <= k < |loans| - 1 ensures loans[1..][k] == loans[k + 1] { }
  }

  /** Removing the key of the first row drops just that row. */
  lemma RemoveFirstId(loans: seq<LoanRequest>)
    requires LoanIdsIncreasing(loans) && |loans| > 0
    ensures RemoveId(loans, loans[0].id) == loans[1..]
  {
    var tail := loans[1..];
    forall k | 0 <= k < |tail| ensures tail[k].id != loans[0].id {
      assert tail[k] == loans[k + 1];
    }
    RemoveAbsentId(tail, loans[0].id);
  }

  /** When the keys are distinct, removing a key drops exactly the row at its position. */
  lemma {:induction false} RemoveIdAt(loans: seq<LoanRequest>, id: int, i: nat)
    requires LoanIdsIncreasing(loans)
    requires i < |loans| && loans[i].id == id
    ensures RemoveId(loans, id) == loans[..i] + loans[i + 1..]
  {
    if i == 0 {
      RemoveFirstId(loans);
    } else {
      var tail := loans[1..];
      assert loans[0].id < loans[i].id;
      LoanIdsIncreasingTail(loans);
      RemoveIdAt(tail, id, i - 1);
      calc {
        RemoveId(loans, id);
        [loans[0]] + RemoveId(tail, id);
        [loans[0]] + (tail[..i - 1] + tail[i..]);
        { assert tail[..i - 1] == loans[1..i]; assert tail[i..] == loans[i + 1..]; }
        [loans[0]] + (loans[1..i] + loans[i + 1..]);
        { assert loans[..i] == [loans[0]] + loans[1..i]; }
        loans[..i] + loans[i + 1..];
      }
    }
  }

  // ---------------------------------------------------------------- the store

  /** The two tables of the database, in storage order. */
  class Database {
    var admins: seq<AdminUser>
    var loans: seq<LoanRequest>

    ghost predicate Valid()
      reads this
    {
      AdminIdsIncreasing(admins) && UniqueUsernames(admins) && LoanIdsIncreasing(loans)
    }

    /** An empty database. */
    constructor ()
      ensures Valid() && admins == [] && loans == []
    {
      admins := [];
      loans := [];
    }

    /** `add_loan_record`: store one row built from the applicant and the decision. */
    method AddLoanRecord(user: Person, loanStatus: string)
      requires Valid()
      modifies this
      ensures Valid() && admins == old(admins)
      ensures loans == old(loans) + [LoanRequest(NextLoanId(old(loans)), user.dni, user.fullName,
                                                 SexValue(user.genre), user.email, user.loanAmount, loanStatus)]
    {
      var row := LoanRequest(NextLoanId(loans), user.dni, user.fullName, SexValue(user.genre),
                             user.email, user.loanAmount, loanStatus);
      loans := loans + [row];
    }

    /** `get_loan_records`: one dictionary per row, in storage order, or None for an empty table. */
    method GetLoanRecords() returns (records: Option<seq<map<string, Cell>>>)
      ensures records.None? <==> loans == []
      ensures records.Some? ==> |records.value| == |loans|
      ensures records.Some? ==> forall i :: 0 <= i < |loans| ==> records.value[i] == RecordToDict(loans[i])
    {
      var response := loans;
      if response == [] {
        return None;
      }
      var acc: seq<map<string, Cell>> := [];
      for i := 0 to |response|
        invariant |acc| == i
        invariant forall k :: 0 <= k < i ==> acc[k] == RecordToDict(response[k])
      {
        acc := acc + [RecordToDict(response[i])];
      }
      records := Some(acc);
    }

    /**
     * `update_loan_record`: apply the fields of `change` that are not None
     * to the row with key `id`, and report whether such a row exists. With
     * no field to apply, only the table's being unchanged is stated.
     */
    method UpdateLoanRecord(id: int, change: LoanRecord) returns (matched: bool)
      requires Valid()
      modifies this
      ensures Valid() && admins == old(admins)
      ensures HasChanges(change) ==> (matched <==> exists i :: 0 <= i < |old(loans)| && old(loans)[i].id == id)
      ensures |loans| == |old(loans)|
      ensures forall i :: 0 <= i < |loans| ==>
        loans[i] == if old(loans)[i].id == id then ApplyChange(old(loans)[i], change) else old(loans)[i]
      ensures !HasChanges(change) ==> loans == old(loans)
    {
      match IndexOfLoan(loans, id)
      case None =>
        matched := false;
      case Some(i) =>
        ApplyChangeFrame(loans[i], change);
        loans := loans[i := ApplyChange(loans[i], change)];
        matched := true;
    }

    /** `delete_loan_record`: remove the row with key `id`, and report whether it existed. */
    method DeleteLoanRecord(id: int) returns (existed: bool)
      requires Valid()
      modifies this
      ensures Valid() && admins == old(admins)
      ensures existed <==> exists i :: 0 <= i < |old(loans)| && old(loans)[i].id == id
      ensures loans == RemoveId(old(loans), id)
      ensures forall x :: x in loans <==> x in old(loans) && x.id != id
      ensures existed ==> |loans| == |old(loans)| - 1
      ensures !existed ==> loans == old(loans)
    {
      RemoveIdMembers(loans, id);
      match IndexOfLoan(loans, id)
      case None =>
        RemoveAbsentId(loans, id);
        existed := false;
      case Some(i) =>
        RemoveIdAt(loans, id, i);
        loans := loans[..i] + loans[i + 1..];
        existed := true;
    }

    /**
     * `add_new_admin`: insert the administrator unless the username is
     * taken. `hashed` is the hash of the password that the row's
     * constructor computes (a salted hash, so it is an input here).
     */
    method AddNewAdmin(user: Admin, hashed: string) returns (added: bool)
      requires Valid()
      modifies this
      ensures Valid() && loans == old(loans)
      ensures added <==> forall i :: 0 <= i < |old(admins)| ==> old(admins)[i].username != user.username
      ensures !added ==> admins == old(admins)
      ensures added ==> admins == old(admins) + [AdminUser(NextAdminId(old(admins)), user.username, hashed)]
    {
      if FirstAdminNamed(admins, user.username).Some? {
        return false;
      }
      admins := admins + [AdminUser(NextAdminId(admins), user.username, hashed)];
      added := true;
    }
  }
}

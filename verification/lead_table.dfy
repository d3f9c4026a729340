/** The durable mirror of the lead records: `leads.csv`, modelled as the list
    of its rows (row 0 is the header), with `initialize_csv` and
    `update_lead_in_csv` as pure transformations of it. */
module LeadTable {
  import opened Records

  type Row = seq<string>
  type Table = seq<Row>

  /** The column names written once, when the file is created. */
  const Header: Row := ["lead_id", "name", "age", "country", "interest", "status"]

  /** The status `update_lead_in_csv` writes when its caller names none. */
  const DefaultStatus: string := "pending"

  /** Every data row has the six columns this program writes; a shorter row
      would make the lookup or the field assignments raise `IndexError`. */
  predicate WellFormed(t: Table) {
    forall i :: 1 <= i < |t| ==> |t[i]| == 6
  }

  /** Python's `v or fallback` where `v` is a string or `None`: an empty
      string is as falsy as `None`. */
  function Or(v: Option<string>, fallback: string): string {
    if v.Some? && v.value != "" then v.value else fallback
  }

  /** First data row at index `k` or later whose `lead_id` column is `id`. */
  function FindFrom(t: Table, id: string, k: nat): (r: Option<nat>)
    requires WellFormed(t) && 1 <= k
    ensures r.Some? ==> k <= r.value < |t| && t[r.value][0] == id
    ensures r.Some? ==> forall j :: k <= j < r.value ==> t[j][0] != id
    ensures r.None? ==> forall j :: k <= j < |t| ==> t[j][0] != id
    decreases |t| - k
  {
    if k >= |t| then None
    else if t[k][0] == id then Some(k)
    else FindFrom(t, id, k + 1)
  }

  /** The loop over `temp_data[1:]` that stops at the first matching row. */
  function FindLead(t: Table, id: string): (r: Option<nat>)
    requires WellFormed(t)
    ensures r.Some? ==> 1 <= r.value < |t| && t[r.value][0] == id
    ensures r.Some? ==> forall j :: 1 <= j < r.value ==> t[j][0] != id
    ensures r.None? ==> forall j :: 1 <= j < |t| ==> t[j][0] != id
  {
    FindFrom(t, id, 1)
  }

  /** The row appended for a lead the table does not hold yet. */
  function NewRow(id: string, name: string, age: Option<string>, country: Option<string>,
                  interest: Option<string>, status: string): Row
  {
    [id, Or(Some(name), ""), Or(age, ""), Or(country, ""), Or(interest, ""), status]
  }

  /** The matching row after the field assignments of the update. */
  function MergeRow(row: Row, name: string, age: Option<string>, country: Option<string>,
                    interest: Option<string>, status: string): Row
    requires |row| == 6
  {
    [row[0], Or(Some(name), ""), Or(age, row[2]), Or(country, row[3]), Or(interest, row[4]), status]
  }

  /** The merge rule stated column by column: the key stays, the name and
      the status are always overwritten, and each answer column is
      overwritten only by a present, non-empty value. */
  ghost predicate Merged(before: Row, after: Row, name: string, age: Option<string>,
                         country: Option<string>, interest: Option<string>, status: string)
    requires |before| == 6
  {
    && |after| == 6
    && after[0] == before[0]
    && after[1] == name
    && (age.Some? && age.value != "" ==> after[2] == age.value)
    && (age.None? || age.value == "" ==> after[2] == before[2])
    && (country.Some? && country.value != "" ==> after[3] == country.value)
    && (country.None? || country.value == "" ==> after[3] == before[3])
    && (interest.Some? && interest.value != "" ==> after[4] == interest.value)
    && (interest.None? || interest.value == "" ==> after[4] == before[4])
    && after[5] == status
  }

  /** The read-modify-write of `update_lead_in_csv` on the file's rows. */
  function Upsert(t: Table, id: string, name: string, age: Option<string>, country: Option<string>,
                  interest: Option<string>, status: string): (r: Table)
    requires WellFormed(t)
    ensures WellFormed(r)
    ensures |t| > 0 ==> |r| > 0 && r[0] == t[0]
    ensures FindLead(t, id).Some? ==>
      var i := FindLead(t, id).value;
      && |r| == |t|
      && Merged(t[i], r[i], name, age, country, interest, status)
      && (forall j :: 0 <= j < |t| && j != i ==> r[j] == t[j])
    ensures FindLead(t, id).None? ==>
      r == t + [[id, name,
                 if age.Some? then age.value else "",
                 if country.Some? then country.value else "",
                 if interest.Some? then interest.value else "",
                 status]]
  {
    match FindLead(t, id)
    case Some(i) => t[i := MergeRow(t[i], name, age, country, interest, status)]
    case None => t + [NewRow(id, name, age, country, interest, status)]
  }

  /** The lead ids of the data rows. */
  function Ids(t: Table): set<string>
    requires WellFormed(t)
  {
    set i | 1 <= i < |t| :: t[i][0]
  }

  /** At most one data row per lead id. */
  predicate UniqueIds(t: Table)
    requires WellFormed(t)
  {
    forall i, j :: 1 <= i < |t| && 1 <= j < |t| && t[i][0] == t[j][0] ==> i == j
  }

  /** The row the table holds for `id`, if any. */
  function RowFor(t: Table, id: string): Option<Row>
    requires WellFormed(t)
  {
    match FindLead(t, id)
    case Some(i) => Some(t[i])
    case None => None
  }

  /** Two tables whose data rows carry the same keys up to `|t|`, and where
      the extra rows of `u` do not carry `id`, locate `id` alike. */
  lemma FindLeadSameKeys(t: Table, u: Table, id: string)
    requires WellFormed(t) && WellFormed(u) && 1 <= |t| <= |u|
    requires forall j :: 1 <= j < |t| ==> u[j][0] == t[j][0]
    requires forall j :: |t| <= j < |u| ==> u[j][0] != id
    ensures FindLead(u, id) == FindLead(t, id)
  {
    var a := FindLead(t, id);
    var b := FindLead(u, id);
    if a.Some? {
      assert u[a.value][0] == id;
    }
    if b.Some? {
      assert b.value < |t|;
      assert t[b.value][0] == id;
    }
  }

  /** After an upsert into a table with a header, the row for `id` is the
      merged row (or the new row), and every other lead's row is the one it
      had before. */
  lemma UpsertRowFor(t: Table, id: string, name: string, age: Option<string>, country: Option<string>,
                     interest: Option<string>, status: string)
    requires WellFormed(t) && |t| >= 1
    ensures var r := Upsert(t, id, name, age, country, interest, status);
      && RowFor(r, id) == Some(
           if FindLead(t, id).Some? then MergeRow(t[FindLead(t, id).value], name, age, country, interest, status)
           else NewRow(id, name, age, country, interest, status))
      && forall k :: k != id ==> RowFor(r, k) == RowFor(t, k)
  {
    var r := Upsert(t, id, name, age, country, interest, status);
    match FindLead(t, id)
    case Some(i) =>
      forall k | true
        ensures FindLead(r, k) == FindLead(t, k)
      {
        FindLeadSameKeys(t, r, k);
      }
    case None =>
      assert r[|t|][0] == id;
      assert FindLead(r, id) == Some(|t|);
      forall k | k != id
        ensures FindLead(r, k) == FindLead(t, k)
      {
        FindLeadSameKeys(t, r, k);
      }
  }

  /** An upsert adds `id` to the keys and removes none. */
  lemma UpsertIds(t: Table, id: string, name: string, age: Option<string>, country: Option<string>,
                  interest: Option<string>, status: string)
    requires WellFormed(t) && |t| >= 1
    ensures Ids(Upsert(t, id, name, age, country, interest, status)) == Ids(t) + {id}
  {
    var r := Upsert(t, id, name, age, country, interest, status);
    match FindLead(t, id)
    case Some(i) =>
      assert forall j :: 1 <= j < |r| ==> r[j][0] == t[j][0];
      assert Ids(r) == Ids(t);
    case None =>
      assert r[|t|][0] == id;
      assert forall j :: 1 <= j < |t| ==> r[j][0] == t[j][0];
  }

  /** "At most one data row per lead id" survives every upsert, and the
      upserted id then has exactly one row. */
  lemma UpsertKeepsIdsUnique(t: Table, id: string, name: string, age: Option<string>, country: Option<string>,
                             interest: Option<string>, status: string)
    requires WellFormed(t) && |t| >= 1 && UniqueIds(t)
    ensures var r := Upsert(t, id, name, age, country, interest, status);
      UniqueIds(r) && id in Ids(r)
  {
    var r := Upsert(t, id, name, age, country, interest, status);
    UpsertIds(t, id, name, age, country, interest, status);
    match FindLead(t, id)
    case Some(i) =>
      assert forall j :: 1 <= j < |r| ==> r[j][0] == t[j][0];
    case None =>
      assert forall j :: 1 <= j < |t| ==> r[j][0] == t[j][0];
      assert r[|t|][0] == id;
  }

  /** Repeating an upsert with the same arguments changes nothing more. */
  lemma UpsertIdempotent(t: Table, id: string, name: string, age: Option<string>, country: Option<string>,
                         interest: Option<string>, status: string)
    requires WellFormed(t) && |t| >= 1
    ensures var r := Upsert(t, id, name, age, country, interest, status);
      Upsert(r, id, name, age, country, interest, status) == r
  {
    var r := Upsert(t, id, name, age, country, interest, status);
    match FindLead(t, id)
    case Some(i) =>
      FindLeadSameKeys(t, r, id);
      assert MergeRow(r[i], name, age, country, interest, status) == r[i];
    case None =>
      assert r[|t|][0] == id;
      assert FindLead(r, id) == Some(|t|);
      assert MergeRow(r[|t|], name, age, country, interest, status) == r[|t|];
  }

  /** The backing file: absent, or present with its rows. */
  datatype File = Missing | Present(rows: Table)

  /** The outcome of an operation that takes `csv_lock`: it either waits
      forever for the lock or completes with a value. */
  datatype Locked<T> = Blocked | Done(value: T)

  /** `initialize_csv`: create the file holding only the header unless it
      exists. `lockHeld` says whether the caller already holds `csv_lock`,
      a non-reentrant lock, in which case acquiring it never returns. */
  function InitializeCsv(f: File, lockHeld: bool): (r: Locked<File>)
    ensures r.Blocked? <==> lockHeld
    ensures r.Done? && f.Missing? ==> r.value == Present([Header])
    ensures r.Done? && f.Present? ==> r.value == f
  {
    if lockHeld then Blocked
    else if f.Missing? then Done(Present([Header]))
    else Done(f)
  }

  /** Creating the file a second time is a no-op. */
  lemma InitializeIdempotent(f: File)
    ensures InitializeCsv(InitializeCsv(f, false).value, false) == InitializeCsv(f, false)
  {
  }

  /** The rows an update reads: a missing file reads as the freshly
      initialised file, the header alone. */
  function Contents(f: File): Table {
    match f
    case Missing => [Header]
    case Present(rows) => rows
  }

  /** `update_lead_in_csv` as written. On a missing file the handler calls
      `initialize_csv` while `csv_lock` is still held from the start of the
      update, so the update never returns; were the lock to be granted, the
      row would be appended to an empty list and the header lost. */
  function UpdateLeadInCsvAsWritten(f: File, id: string, name: string, age: Option<string>,
                                    country: Option<string>, interest: Option<string>, status: string)
    : (r: Locked<File>)
    requires f.Present? ==> WellFormed(f.rows)
    ensures r.Blocked? <==> f.Missing?
    ensures f.Present? ==> r == Done(Present(Upsert(f.rows, id, name, age, country, interest, status)))
  {
    match f
    case Present(t) => Done(Present(Upsert(t, id, name, age, country, interest, status)))
    case Missing =>
      match InitializeCsv(Missing, true)
      case Blocked => Blocked
      case Done(_) => Done(Present([NewRow(id, name, age, country, interest, status)]))
  }

  /** `update_lead_in_csv` with the missing-file path doing what its handler
      evidently intends: recreate the file and update it as if it held only
      the header. This is the update the conversation uses. */
  function UpdateLeadInCsv(f: File, id: string, name: string, age: Option<string>,
                           country: Option<string>, interest: Option<string>, status: string)
    : (r: File)
    requires WellFormed(Contents(f))
    ensures r.Present? && WellFormed(r.rows)
    ensures |Contents(f)| > 0 ==> |r.rows| > 0 && r.rows[0] == Contents(f)[0]
    ensures f.Missing? ==> r.rows == [Header, NewRow(id, name, age, country, interest, status)]
  {
    Present(Upsert(Contents(f), id, name, age, country, interest, status))
  }

  /** Where the file exists the corrected update is the update as written;
      where it is missing the one blocks and the other yields the header
      followed by the new row. */
  lemma UpdateCorrectionAgrees(f: File, id: string, name: string, age: Option<string>,
                               country: Option<string>, interest: Option<string>, status: string)
    requires WellFormed(Contents(f))
    ensures f.Present? ==>
      UpdateLeadInCsvAsWritten(f, id, name, age, country, interest, status)
        == Done(UpdateLeadInCsv(f, id, name, age, country, interest, status))
    ensures f.Missing? ==>
      && UpdateLeadInCsvAsWritten(f, id, name, age, country, interest, status) == Blocked
      && UpdateLeadInCsv(f, id, name, age, country, interest, status).rows[0] == Header
  {
  }

  /** The row the corrected update leaves for `id`: the existing row merged
      with the arguments, or the new row when the lead had none. */
  lemma UpdateRowFor(f: File, id: string, name: string, age: Option<string>,
                     country: Option<string>, interest: Option<string>, status: string)
    requires WellFormed(Contents(f)) && |Contents(f)| >= 1
    ensures var before := RowFor(Contents(f), id);
      RowFor(Contents(UpdateLeadInCsv(f, id, name, age, country, interest, status)), id)
        == Some(if before.Some? then MergeRow(before.value, name, age, country, interest, status)
                else NewRow(id, name, age, country, interest, status))
  {
    UpsertRowFor(Contents(f), id, name, age, country, interest, status);
  }

  /** The corrected update keeps the file's keys unique, adds `id` to them,
      leaves every other lead's row alone, and writes the requested status
      and the caller's name into the row for `id`. */
  lemma UpdateLeadInCsvMirrors(f: File, id: string, name: string, age: Option<string>,
                               country: Option<string>, interest: Option<string>, status: string)
    requires WellFormed(Contents(f)) && |Contents(f)| >= 1 && UniqueIds(Contents(f))
    ensures var t := Contents(UpdateLeadInCsv(f, id, name, age, country, interest, status));
      && |t| >= 1
      && UniqueIds(t)
      && Ids(t) == Ids(Contents(f)) + {id}
      && RowFor(t, id).Some?
      && RowFor(t, id).value[1] == name
      && RowFor(t, id).value[5] == status
      && forall k :: k != id ==> RowFor(t, k) == RowFor(Contents(f), k)
  {
    UpsertKeepsIdsUnique(Contents(f), id, name, age, country, interest, status);
    UpsertIds(Contents(f), id, name, age, country, interest, status);
    UpsertRowFor(Contents(f), id, name, age, country, interest, status);
  }
}

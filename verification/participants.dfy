/** The participants listing: every stored document becomes a row that
    copies its fields and adds the department computed from the USN. */
module ParticipantsApi {
  import opened Records
  import Department

  datatype Row = Row(name: string, email: string, usn: string, year: string, phone: string, department: string)

  /** One document as a listing row. */
  function ToRow(r: Record): (row: Row)
    ensures row.department in Department.Labels
  {
    Row(r.name, r.email, r.usn, r.year, r.phone, Department.DepartmentLabel(r.usn))
  }

  /** The document a row was made from: the row without its department. */
  function RecordOf(row: Row): Record
  {
    Record(row.name, row.usn, row.email, row.year, row.phone)
  }

  /** The listing of the whole collection, in store order. */
  function Project(store: seq<Record>): (rows: seq<Row>)
    ensures |rows| == |store|
    ensures forall i :: 0 <= i < |rows| ==> RecordOf(rows[i]) == store[i]
    ensures forall i :: 0 <= i < |rows| ==> rows[i].department == Department.Classify(store[i].usn).Label()
  {
    seq(|store|, i requires 0 <= i < |store| => ToRow(store[i]))
  }

  /** The listing of a grown collection extends the old listing. */
  lemma {:induction false} ProjectAppend(store: seq<Record>, r: Record)
    ensures Project(store + [r]) == Project(store) + [ToRow(r)]
  {
    assert forall i :: 0 <= i < |store| ==> (store + [r])[i] == store[i];
  }
}

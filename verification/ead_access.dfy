/**
 * The EAD access sheet of a class: a dictionary from student id to the three access
 * dates being edited, filled from the enrolled students, edited one cell at a time and
 * saved as rows of the `ead_access` table keyed by (class id, student id).
 */
module EadAccess {
  import opened Wrappers

  /** The three date columns `access_date_1`, `access_date_2`, `access_date_3`. */
  datatype Slot = Date1 | Date2 | Date3

  /**
   * One dictionary value. A property that the object does not have is `None`: an entry
   * created by an edit of a student who had none holds only the edited property.
   */
  datatype Entry = Entry(date1: Option<string>, date2: Option<string>, date3: Option<string>)

  /** The access record already stored for a student; a `null` column is `None`. */
  datatype StoredAccess = StoredAccess(date1: Option<string>, date2: Option<string>, date3: Option<string>)

  /** An enrolled student as the sheet receives it; `accessData` may be missing. */
  datatype Enrollment = Enrollment(studentId: string, accessData: Option<StoredAccess>)

  type AccessMap = map<string, Entry>

  /** A row written to `ead_access`; an empty date is written as `null` (`None`). */
  datatype Row = Row(classId: string, studentId: string,
                     date1: Option<string>, date2: Option<string>, date3: Option<string>)

  /** The conflict key of the upsert: `class_id,student_id`. */
  type Key = (string, string)

  type Table = map<Key, Row>

  const EmptyEntry: Entry := Entry(None, None, None)

  function Get(e: Entry, slot: Slot): Option<string> {
    match slot
    case Date1 => e.date1
    case Date2 => e.date2
    case Date3 => e.date3
  }

  function StoredGet(a: StoredAccess, slot: Slot): Option<string> {
    match slot
    case Date1 => a.date1
    case Date2 => a.date2
    case Date3 => a.date3
  }

  function RowGet(r: Row, slot: Slot): Option<string> {
    match slot
    case Date1 => r.date1
    case Date2 => r.date2
    case Date3 => r.date3
  }

  /** `value || ''` for a string that may be missing: missing and empty both give `''`. */
  function OrEmpty(value: Option<string>): (r: string)
    ensures value.Some? && value.value != "" ==> r == value.value
    ensures !(value.Some? && value.value != "") ==> r == ""
  {
    match value
    case Some(v) => v
    case None => ""
  }

  /** `value || null`: a present non-empty string is kept, anything else becomes `null`. */
  function OrNull(value: Option<string>): (r: Option<string>)
    ensures r == None <==> (value == None || value == Some(""))
    ensures r != None ==> r == value
  {
    match value
    case Some(v) => if v == "" then None else Some(v)
    case None => None
  }

  /** `student.accessData?.access_date_k || ''` for the slot `k`. */
  function StoredDate(student: Enrollment, slot: Slot): (r: string)
    ensures student.accessData.None? ==> r == ""
    ensures student.accessData.Some? ==> r == OrEmpty(StoredGet(student.accessData.value, slot))
    ensures r != "" ==> student.accessData.Some? && StoredGet(student.accessData.value, slot) == Some(r)
  {
    match student.accessData
    case Some(a) => OrEmpty(StoredGet(a, slot))
    case None => ""
  }

  /** The dictionary value the sheet starts with for one student: all three properties set. */
  function InitialEntry(student: Enrollment): (e: Entry)
    ensures forall slot :: Get(e, slot) == Some(StoredDate(student, slot))
    ensures forall slot :: student.accessData.None? ==> Get(e, slot) == Some("")
    ensures forall slot :: student.accessData.Some? && StoredGet(student.accessData.value, slot).Some? ==>
      Get(e, slot) == Some(StoredGet(student.accessData.value, slot).value)
  {
    Entry(Some(StoredDate(student, Date1)), Some(StoredDate(student, Date2)), Some(StoredDate(student, Date3)))
  }

  /** The dictionary after the students' `forEach` has run over `students`. */
  function InitialAccess(students: seq<Enrollment>): (r: AccessMap)
    ensures |r| <= |students|
    ensures forall id :: id in r ==> Get(r[id], Date1).Some? && Get(r[id], Date2).Some? && Get(r[id], Date3).Some?
  {
    if students == [] then map[]
    else
      var last := students[|students| - 1];
      InitialAccess(students[..|students| - 1])[last.studentId := InitialEntry(last)]
  }

  predicate Enrolled(students: seq<Enrollment>, id: string) {
    exists i :: 0 <= i < |students| && students[i].studentId == id
  }

  /** No student after position `i` has the same id as the one at `i`. */
  predicate LastWithId(students: seq<Enrollment>, i: nat)
    requires i < |students|
  {
    forall j :: i < j < |students| ==> students[j].studentId != students[i].studentId
  }

  /** The initial dictionary has an entry for exactly the enrolled ids. */
  lemma {:induction false} InitialAccessKeys(students: seq<Enrollment>)
    ensures forall id :: id in InitialAccess(students) <==> Enrolled(students, id)
  {
    if students != [] {
      var n := |students| - 1;
      var prefix := students[..n];
      InitialAccessKeys(prefix);
      forall id | Enrolled(students, id) && id != students[n].studentId
        ensures Enrolled(prefix, id)
      {
        var i :| 0 <= i < |students| && students[i].studentId == id;
        assert prefix[i].studentId == id;
      }
      forall id | Enrolled(prefix, id)
        ensures Enrolled(students, id)
      {
        var i :| 0 <= i < |prefix| && prefix[i].studentId == id;
        assert students[i].studentId == id;
      }
    }
  }

  /**
   * The entry of an id is the one built from its last occurrence: a later duplicate
   * overwrites an earlier one.
   */
  lemma {:induction false} InitialAccessLastWins(students: seq<Enrollment>, i: nat)
    requires i < |students| && LastWithId(students, i)
    ensures students[i].studentId in InitialAccess(students)
    ensures InitialAccess(students)[students[i].studentId] == InitialEntry(students[i])
  {
    var n := |students| - 1;
    if i < n {
      var prefix := students[..n];
      assert students[n].studentId != students[i].studentId;
      assert LastWithId(prefix, i);
      InitialAccessLastWins(prefix, i);
    }
  }

  /** The `useEffect` body: an empty dictionary filled by a loop over the students. */
  method BuildAccessMap(students: seq<Enrollment>) returns (initial: AccessMap)
    ensures initial == InitialAccess(students)
    ensures forall id :: id in initial <==> Enrolled(students, id)
    ensures forall i :: 0 <= i < |students| && LastWithId(students, i) ==>
      students[i].studentId in initial && initial[students[i].studentId] == InitialEntry(students[i])
  {
    initial := map[];
    for i := 0 to |students|
      invariant initial == InitialAccess(students[..i])
    {
      var student := students[i];
      initial := initial[student.studentId := InitialEntry(student)];
      assert students[..i + 1][..i] == students[..i];
    }
    assert students[..|students|] == students;
    InitialAccessKeys(students);
    forall i | 0 <= i < |students| && LastWithId(students, i)
      ensures students[i].studentId in initial && initial[students[i].studentId] == InitialEntry(students[i])
    {
      InitialAccessLastWins(students, i);
    }
  }

  /** The entry with the property of `slot` set to `value`, every other property kept. */
  function WithDate(e: Entry, slot: Slot, value: string): (r: Entry)
    ensures Get(r, slot) == Some(value)
    ensures forall other :: other != slot ==> Get(r, other) == Get(e, other)
  {
    match slot
    case Date1 => e.(date1 := Some(value))
    case Date2 => e.(date2 := Some(value))
    case Date3 => e.(date3 := Some(value))
  }

  /**
   * The date input's `onChange`: `{ ...accessData, [id]: { ...accessData[id], [field]: value } }`.
   * Spreading a missing entry adds nothing, so a new entry holds only the edited date.
   */
  function EditCell(access: AccessMap, id: string, slot: Slot, value: string): (r: AccessMap)
    ensures r.Keys == access.Keys + {id}
    ensures Get(r[id], slot) == Some(value)
    ensures forall other :: other != slot && id in access ==> Get(r[id], other) == Get(access[id], other)
    ensures forall other :: other != slot && id !in access ==> Get(r[id], other) == None
    ensures forall k :: k in access && k != id ==> r[k] == access[k]
  {
    var entry := if id in access then access[id] else EmptyEntry;
    access[id := WithDate(entry, slot, value)]
  }

  /** What a date input shows: `accessData[id]?.[field] || ''`. */
  function CellValue(access: AccessMap, id: string, slot: Slot): (r: string)
    ensures id !in access ==> r == ""
    ensures id in access && Get(access[id], slot) == None ==> r == ""
    ensures id in access && Get(access[id], slot).Some? ==> r == Get(access[id], slot).value
  {
    if id in access then OrEmpty(Get(access[id], slot)) else ""
  }

  /** After an edit the edited input shows the new value and every other input is unchanged. */
  lemma EditCellShows(access: AccessMap, id: string, slot: Slot, value: string)
    ensures CellValue(EditCell(access, id, slot, value), id, slot) == value
    ensures forall k, s :: (k != id || s != slot) ==>
      CellValue(EditCell(access, id, slot, value), k, s) == CellValue(access, k, s)
  {
    var r := EditCell(access, id, slot, value);
    forall k, s | k != id || s != slot
      ensures CellValue(r, k, s) == CellValue(access, k, s)
    {
      if k == id && id !in access {
        assert Get(r[id], s) == None;
      }
    }
  }

  /** The row `handleSaveAccess`/`handleSaveAll` writes for one student's entry. */
  function RowFor(classId: string, id: string, e: Entry): (r: Row)
    ensures r.classId == classId && r.studentId == id
    ensures forall slot :: RowGet(r, slot) == None <==> (Get(e, slot) == None || Get(e, slot) == Some(""))
    ensures forall slot :: RowGet(r, slot) != None ==> RowGet(r, slot) == Get(e, slot)
  {
    Row(classId, id, OrNull(e.date1), OrNull(e.date2), OrNull(e.date3))
  }

  function KeyOf(r: Row): Key {
    (r.classId, r.studentId)
  }

  /** The upsert with `onConflict: 'class_id,student_id'`: the row replaces any row with its key. */
  function Upsert(table: Table, row: Row): (t: Table)
    ensures KeyOf(row) in t && t[KeyOf(row)] == row
    ensures t.Keys == table.Keys + {KeyOf(row)}
    ensures forall k :: k in table && k != KeyOf(row) ==> t[k] == table[k]
  {
    table[KeyOf(row) := row]
  }

  /** Saving the same student twice leaves a single row, holding the later dates. */
  lemma UpsertSameKeyTwice(table: Table, first: Row, second: Row)
    requires KeyOf(first) == KeyOf(second)
    ensures Upsert(Upsert(table, first), second) == Upsert(table, second)
  {
  }

  /**
   * `handleSaveAccess(id)`: the upsert of the student's row. The source reads the entry's
   * properties without a guard, so a student without an entry fails (`None`).
   */
  function SaveAccess(classId: string, access: AccessMap, table: Table, id: string): (r: Option<Table>)
    ensures r.None? <==> id !in access
    ensures r.Some? ==> r.value == Upsert(table, RowFor(classId, id, access[id]))
  {
    if id in access then Some(Upsert(table, RowFor(classId, id, access[id]))) else None
  }

  /** The rows `handleSaveAll` writes, in the order it writes them. */
  function RowsToSave(classId: string, students: seq<Enrollment>, access: AccessMap): (rows: seq<Row>)
    ensures |rows| <= |students|
  {
    if students == [] then []
    else
      var last := students[|students| - 1];
      RowsToSave(classId, students[..|students| - 1], access)
        + (if last.studentId in access then [RowFor(classId, last.studentId, access[last.studentId])] else [])
  }

  /** The table after the given upserts, applied in order. */
  function UpsertAll(table: Table, rows: seq<Row>): (t: Table)
    ensures table.Keys <= t.Keys
    ensures rows != [] ==> KeyOf(rows[|rows| - 1]) in t && t[KeyOf(rows[|rows| - 1])] == rows[|rows| - 1]
  {
    if rows == [] then table else Upsert(UpsertAll(table, rows[..|rows| - 1]), rows[|rows| - 1])
  }

  /**
   * One row per student with an entry, none for a student without one; every row belongs
   * to the class and carries that student's current dates.
   */
  lemma {:induction false} RowsToSaveSpec(classId: string, students: seq<Enrollment>, access: AccessMap)
    ensures var rows := RowsToSave(classId, students, access);
      && |rows| <= |students|
      && (forall r :: r in rows ==>
            && r.classId == classId && r.studentId in access
            && Enrolled(students, r.studentId)
            && r == RowFor(classId, r.studentId, access[r.studentId]))
      && (forall i :: 0 <= i < |students| && students[i].studentId in access ==>
            RowFor(classId, students[i].studentId, access[students[i].studentId]) in rows)
  {
    if students != [] {
      var n := |students| - 1;
      var prefix := students[..n];
      RowsToSaveSpec(classId, prefix, access);
      var rows := RowsToSave(classId, students, access);
      forall r | r in rows
        ensures Enrolled(students, r.studentId)
      {
        if r in RowsToSave(classId, prefix, access) {
          var i :| 0 <= i < |prefix| && prefix[i].studentId == r.studentId;
          assert students[i].studentId == r.studentId;
        } else {
          assert students[n].studentId == r.studentId;
        }
      }
      forall i | 0 <= i < |students| && students[i].studentId in access
        ensures RowFor(classId, students[i].studentId, access[students[i].studentId]) in rows
      {
        if i < n {
          assert prefix[i] == students[i];
        }
      }
    }
  }

  predicate Written(rows: seq<Row>, k: Key) {
    exists r :: r in rows && KeyOf(r) == k
  }

  /** After a sequence of upserts a key holds a row exactly when it held one before or was written. */
  lemma {:induction false} UpsertAllKeys(table: Table, rows: seq<Row>)
    ensures forall k :: k in UpsertAll(table, rows) <==> k in table || Written(rows, k)
  {
    if rows != [] {
      var n := |rows| - 1;
      var prefix := rows[..n];
      assert rows == prefix + [rows[n]];
      UpsertAllKeys(table, prefix);
      WrittenSnoc(prefix, rows[n]);
    }
  }


  /**
   * After a sequence of upserts a written key holds one of the rows written with that key;
   * a key no row was written to holds the row it held before.
   */
  lemma {:induction false} UpsertAllValues(table: Table, rows: seq<Row>)
    ensures var t := UpsertAll(table, rows);
      && (forall k :: k in t && Written(rows, k) ==> t[k] in rows && KeyOf(t[k]) == k)
      && (forall k :: k in t && !Written(rows, k) ==> k in table && t[k] == table[k])
  {
    if rows != [] {
      var n := |rows| - 1;
      var prefix := rows[..n];
      var last := rows[n];
      assert rows == prefix + [last];
      UpsertAllValues(table, prefix);
      WrittenSnoc(prefix, last);
    }
  }

  /** Writing one more row adds exactly its key to the written keys. */
  lemma WrittenSnoc(rows: seq<Row>, row: Row)
    ensures forall k :: Written(rows + [row], k) <==> Written(rows, k) || k == KeyOf(row)
    ensures forall r :: r in rows + [row] <==> r in rows || r == row
  {
    forall k | Written(rows + [row], k) && k != KeyOf(row)
      ensures Written(rows, k)
    {
      var r :| r in rows + [row] && KeyOf(r) == k;
      assert r in rows;
    }
    forall k | Written(rows, k)
      ensures Written(rows + [row], k)
    {
      var r :| r in rows && KeyOf(r) == k;
      assert r in rows + [row];
    }
  }


  /** The positions, in increasing order, of the students that have an entry. */
  function EntryPositions(students: seq<Enrollment>, access: AccessMap): (pos: seq<nat>)
    ensures forall j :: 0 <= j < |pos| ==> pos[j] < |students| && students[pos[j]].studentId in access
    ensures forall j, j' :: 0 <= j < j' < |pos| ==> pos[j] < pos[j']
    ensures forall i :: 0 <= i < |students| && students[i].studentId in access ==> i in pos
  {
    if students == [] then []
    else
      var n := |students| - 1;
      var prefix := students[..n];
      assert forall i :: 0 <= i < n ==> prefix[i] == students[i];
      EntryPositions(prefix, access) + (if students[n].studentId in access then [n] else [])
  }

  /**
   * Save-all writes exactly one row per student that has an entry, in list order: row j
   * is the row of the student at the j-th of the positions `EntryPositions` lists.
   */
  lemma {:induction false} RowsToSaveOrder(classId: string, students: seq<Enrollment>, access: AccessMap)
    ensures var rows, pos := RowsToSave(classId, students, access), EntryPositions(students, access);
      && |rows| == |pos|
      && (forall j :: 0 <= j < |pos| ==>
            rows[j] == RowFor(classId, students[pos[j]].studentId, access[students[pos[j]].studentId]))
  {
    if students != [] {
      var n := |students| - 1;
      var prefix := students[..n];
      RowsToSaveOrder(classId, prefix, access);
      var rows, pos := RowsToSave(classId, students, access), EntryPositions(students, access);
      var prefixRows, prefixPos := RowsToSave(classId, prefix, access), EntryPositions(prefix, access);
      var id := students[n].studentId;
      var has := id in access;
      assert rows == prefixRows + (if has then [RowFor(classId, id, access[id])] else []);
      assert pos == prefixPos + (if has then [n] else []);
      forall j | 0 <= j < |pos|
        ensures rows[j] == RowFor(classId, students[pos[j]].studentId, access[students[pos[j]].studentId])
      {
        if j < |prefixPos| {
          assert students[prefixPos[j]] == prefix[prefixPos[j]];
        }
      }
    }
  }

  /**
   * Upserts are last-write-wins: a key holds the last row written with that key.
   */
  lemma {:induction false} UpsertAllLastWins(table: Table, rows: seq<Row>, j: nat)
    requires j < |rows|
    requires forall j' :: j < j' < |rows| ==> KeyOf(rows[j']) != KeyOf(rows[j])
    ensures KeyOf(rows[j]) in UpsertAll(table, rows) && UpsertAll(table, rows)[KeyOf(rows[j])] == rows[j]
  {
    var n := |rows| - 1;
    if j < n {
      assert KeyOf(rows[n]) != KeyOf(rows[j]);
      UpsertAllLastWins(table, rows[..n], j);
    }
  }

  /**
   * What the table looks like after save-all: each student with an entry has its current
   * row under its key, no key is added but those of enrolled students with an entry in
   * this class, and every other row is unchanged.
   */
  predicate SavedAll(classId: string, students: seq<Enrollment>, access: AccessMap, table: Table, result: Table)
  {
    && (forall i :: 0 <= i < |students| && students[i].studentId in access ==>
          var key := (classId, students[i].studentId);
          key in result && result[key] == RowFor(classId, students[i].studentId, access[students[i].studentId]))
    && (forall k :: k in result ==> k in table || (k.0 == classId && k.1 in access && Enrolled(students, k.1)))
    && (forall k :: k in table && !(k.0 == classId && k.1 in access && Enrolled(students, k.1)) ==>
          k in result && result[k] == table[k])
  }

  /** The upserts of save-all leave the table as `SavedAll` describes. */
  lemma SaveAllTable(classId: string, students: seq<Enrollment>, access: AccessMap, table: Table)
    ensures SavedAll(classId, students, access, table, UpsertAll(table, RowsToSave(classId, students, access)))
  {
    var written := RowsToSave(classId, students, access);
    var result := UpsertAll(table, written);
    RowsToSaveSpec(classId, students, access);
    UpsertAllKeys(table, written);
    UpsertAllValues(table, written);
    forall i | 0 <= i < |students| && students[i].studentId in access
      ensures (classId, students[i].studentId) in result
      ensures result[(classId, students[i].studentId)] == RowFor(classId, students[i].studentId, access[students[i].studentId])
    {
      assert Written(written, KeyOf(RowFor(classId, students[i].studentId, access[students[i].studentId])));
    }
  }

  /** Visiting one more student adds that student's row, if it has an entry. */
  lemma RowsToSaveStep(classId: string, students: seq<Enrollment>, access: AccessMap, i: nat)
    requires i < |students|
    ensures RowsToSave(classId, students[..i + 1], access)
      == RowsToSave(classId, students[..i], access)
        + (if students[i].studentId in access then [RowFor(classId, students[i].studentId, access[students[i].studentId])] else [])
  {
    assert students[..i + 1][..i] == students[..i];
  }

  /** One more upsert extends a run of upserts. */
  lemma UpsertAllSnoc(table: Table, rows: seq<Row>, row: Row)
    ensures UpsertAll(table, rows + [row]) == Upsert(UpsertAll(table, rows), row)
  {
    assert (rows + [row])[..|rows|] == rows;
  }

  /**
   * `handleSaveAll`: visits the students in list order and upserts one row for each
   * student that has an entry, skipping the others. Returns the rows written, in order,
   * and the table afterwards.
   */
  method SaveAll(classId: string, students: seq<Enrollment>, access: AccessMap, table: Table)
    returns (written: seq<Row>, result: Table)
    ensures written == RowsToSave(classId, students, access)
    ensures result == UpsertAll(table, written)
    ensures SavedAll(classId, students, access, table, result)
  {
    written, result := [], table;
    for i := 0 to |students|
      invariant written == RowsToSave(classId, students[..i], access)
      invariant result == UpsertAll(table, written)
    {
      var id := students[i].studentId;
      RowsToSaveStep(classId, students, access, i);
      if id in access {
        var row := RowFor(classId, id, access[id]);
        UpsertAllSnoc(table, written, row);
        written := written + [row];
        result := Upsert(result, row);
      }
    }
    assert students[..|students|] == students;
    SaveAllTable(classId, students, access, table);
  }
}

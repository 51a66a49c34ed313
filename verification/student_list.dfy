/** The roster screen: the list of students, the text of the "new student"
    field, and the `students` key of the device store that mirrors the list. */
module StudentList {
  import opened JsText
  import opened Storage

  /** The roster with every entry whose id is `studentId` filtered out. */
  function WithoutStudent(students: seq<Student>, studentId: string): (r: seq<Student>)
    ensures |r| <= |students|
    ensures forall s :: s in r <==> s in students && s.id != studentId
  {
    if students == [] then []
    else
      var kept := if students[0].id == studentId then [] else [students[0]];
      kept + WithoutStudent(students[1..], studentId)
  }

  /** `a` is `b` with some entries dropped, the rest kept in order. */
  predicate IsSubsequence<T(==)>(a: seq<T>, b: seq<T>)
    decreases |b|
  {
    if a == [] then true
    else if b == [] then false
    else (a[0] == b[0] && IsSubsequence(a[1..], b[1..])) || IsSubsequence(a, b[1..])
  }

  /** The survivors of a delete keep their relative order. */
  lemma {:induction false} WithoutStudentKeepsOrder(students: seq<Student>, studentId: string)
    ensures IsSubsequence(WithoutStudent(students, studentId), students)
  {
    if students != [] {
      WithoutStudentKeepsOrder(students[1..], studentId);
      var rest := WithoutStudent(students[1..], studentId);
      if students[0].id == studentId {
        assert WithoutStudent(students, studentId) == rest;
        SubsequenceOfTail(rest, students);
      } else {
        assert WithoutStudent(students, studentId) == [students[0]] + rest;
      }
    }
  }

  /** Dropping the head of `b` keeps every subsequence of the tail a
      subsequence of `b`. */
  lemma SubsequenceOfTail<T>(a: seq<T>, b: seq<T>)
    requires b != [] && IsSubsequence(a, b[1..])
    ensures IsSubsequence(a, b)
  {
  }

  /** Deleting from a concatenation deletes from each part. */
  lemma {:induction false} WithoutStudentAppend(a: seq<Student>, b: seq<Student>, studentId: string)
    ensures WithoutStudent(a + b, studentId) == WithoutStudent(a, studentId) + WithoutStudent(b, studentId)
  {
    if a != [] {
      assert (a + b)[1..] == a[1..] + b;
      WithoutStudentAppend(a[1..], b, studentId);
    } else {
      assert a + b == b;
    }
  }

  /** Deleting an id no student has changes nothing. */
  lemma {:induction false} WithoutAbsentStudent(students: seq<Student>, studentId: string)
    requires forall s :: s in students ==> s.id != studentId
    ensures WithoutStudent(students, studentId) == students
  {
    if students != [] {
      WithoutAbsentStudent(students[1..], studentId);
      assert students == [students[0]] + students[1..];
    }
  }

  /** Deleting the same id twice is deleting it once. */
  lemma WithoutStudentIdempotent(students: seq<Student>, studentId: string)
    ensures WithoutStudent(WithoutStudent(students, studentId), studentId)
      == WithoutStudent(students, studentId)
  {
    WithoutAbsentStudent(WithoutStudent(students, studentId), studentId);
  }

  /** What `loadStudents` leaves in `students`: the stored roster when the
      key holds one, and the current list otherwise. With nothing stored a
      load keeps the list the screen already had; in a store the app alone
      has written, a stored roster always replaces it. */
  function LoadedStudents(items: map<string, Value>, current: seq<Student>): (r: seq<Student>)
    ensures StudentsKey !in items ==> r == current
    ensures WellTyped(items) && StudentsKey in items ==> r == items[StudentsKey].students
  {
    if StudentsKey in items && items[StudentsKey].Roster? then items[StudentsKey].students
    else current
  }

  /** A roster written under its key is the roster a later load finds, which
      is what lets the list survive a restart of the app. */
  lemma LoadAfterSaveStudents(items: map<string, Value>, saved: seq<Student>, current: seq<Student>)
    ensures LoadedStudents(items[StudentsKey := Roster(saved)], current) == saved
  {
  }

  /** Rewriting the roster leaves every student's session list where it was,
      the deleted student's included. */
  lemma SaveStudentsKeepsRecords(items: map<string, Value>, saved: seq<Student>, studentId: string)
    ensures var after := items[StudentsKey := Roster(saved)];
      (RecordsKey(studentId) in after <==> RecordsKey(studentId) in items) &&
      (RecordsKey(studentId) in items ==> after[RecordsKey(studentId)] == items[RecordsKey(studentId)])
  {
  }

  class StudentListScreen {
    /** The device store, shared with the profile screen. */
    const storage: AsyncStorage
    var students: seq<Student>
    var newStudentName: string

    /** The screen as first rendered, before its effect loads the roster. */
    constructor (storage: AsyncStorage)
      ensures this.storage == storage
      ensures students == [] && newStudentName == ""
    {
      this.storage := storage;
      students := [];
      newStudentName := "";
    }

    /** The roster as the `students` key holds it, when it holds one. */
    predicate Mirrored()
      reads this, storage
    {
      StudentsKey in storage.items && storage.items[StudentsKey] == Roster(students)
    }

    /** `loadStudents`: replace the list by the stored roster if there is
        one; keep it otherwise. */
    method LoadStudents()
      modifies this`students
      ensures students == LoadedStudents(storage.items, old(students))
    {
      var saved := storage.GetItem(StudentsKey);
      if saved.Some? && saved.value.Roster? {
        students := saved.value.students;
      }
    }

    /** `saveStudents(list)`: write the whole roster under `students`. */
    method SaveStudents(list: seq<Student>)
      modifies storage
      ensures storage.items == old(storage.items)[StudentsKey := Roster(list)]
    {
      storage.SetItem(StudentsKey, Roster(list));
    }

    /** The name field's `onChangeText`. */
    method ChangeStudentName(text: string)
      modifies this`newStudentName
      ensures newStudentName == text
    {
      newStudentName := text;
    }

    /** `addStudent`, with `freshId` for the random id: a blank name changes
        nothing; any other is appended as typed, untrimmed, the roster is
        written back and the field cleared. */
    method AddStudent(freshId: string)
      modifies this, storage
      ensures |Trim(old(newStudentName))| == 0 ==>
        students == old(students) && newStudentName == old(newStudentName) &&
        storage.items == old(storage.items)
      ensures |Trim(old(newStudentName))| != 0 ==>
        students == old(students) + [Student(freshId, old(newStudentName))] &&
        newStudentName == "" &&
        storage.items == old(storage.items)[StudentsKey := Roster(students)] &&
        Mirrored()
    {
      if |Trim(newStudentName)| == 0 {
        return;
      }
      var updated := students + [Student(freshId, newStudentName)];
      students := updated;
      SaveStudents(updated);
      newStudentName := "";
    }

    /** `deleteStudent(studentId)`: drop every entry with that id and write
        the roster back; the student's sessions stay in the store. */
    method DeleteStudent(studentId: string)
      modifies this`students, storage
      ensures students == WithoutStudent(old(students), studentId)
      ensures storage.items == old(storage.items)[StudentsKey := Roster(students)]
      ensures Mirrored()
    {
      var updated := WithoutStudent(students, studentId);
      students := updated;
      SaveStudents(updated);
    }
  }
}

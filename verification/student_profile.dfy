/** The profile screen of one student: the list of memorisation sessions,
    the dialog's fields (amount text, date, whether it edits an existing
    session and which one), and the `records_<id>` key that mirrors the
    list in the device store. */
module StudentProfile {
  import opened JsText
  import opened AmountFormat
  import opened Storage

  /** The replace-by-id map of `updateRecord`: every session whose id is
      the one being edited takes the new amount text and date, the others
      stay as they are, and the list keeps its length and order. A null id
      (`None`) matches no session. */
  function UpdatedRecords(records: seq<Record>, editId: Option<string>, amount: string, date: string)
    : (r: seq<Record>)
    ensures |r| == |records|
    ensures forall i :: 0 <= i < |r| ==> r[i].id == records[i].id
    ensures forall i :: 0 <= i < |r| && editId == Some(records[i].id) ==>
      r[i].amount == amount && r[i].date == date
    ensures forall i :: 0 <= i < |r| && editId != Some(records[i].id) ==> r[i] == records[i]
  {
    if records == [] then []
    else
      var head := if editId == Some(records[0].id) then records[0].(amount := amount, date := date)
                  else records[0];
      [head] + UpdatedRecords(records[1..], editId, amount, date)
  }

  /** An update whose id matches no session (a null id among them) leaves
      the list as it was, and raises nothing. */
  lemma UpdateUnknownId(records: seq<Record>, editId: Option<string>, amount: string, date: string)
    requires forall i :: 0 <= i < |records| ==> editId != Some(records[i].id)
    ensures UpdatedRecords(records, editId, amount, date) == records
  {
  }

  /** Repeating an update changes nothing more. */
  lemma UpdateIdempotent(records: seq<Record>, editId: Option<string>, amount: string, date: string)
    ensures var once := UpdatedRecords(records, editId, amount, date);
      UpdatedRecords(once, editId, amount, date) == once
  {
    var once := UpdatedRecords(records, editId, amount, date);
    var twice := UpdatedRecords(once, editId, amount, date);
    forall i | 0 <= i < |once| ensures twice[i] == once[i] {
      if editId == Some(records[i].id) {
        assert once[i] == records[i].(amount := amount, date := date);
      }
    }
  }

  /** The replace-by-id map given a session's own amount text and date
      gives back the same list, when no other session shares its id with
      different contents. */
  lemma EditThenUpdateUnchanged(records: seq<Record>, k: nat)
    requires k < |records|
    requires forall i :: 0 <= i < |records| && records[i].id == records[k].id ==> records[i] == records[k]
    ensures UpdatedRecords(records, Some(records[k].id), records[k].amount, records[k].date) == records
  {
    var r := UpdatedRecords(records, Some(records[k].id), records[k].amount, records[k].date);
    forall i | 0 <= i < |records| ensures r[i] == records[i] {
      if records[i].id == records[k].id {
        assert records[i] == records[k];
      }
    }
  }

  /** An update stores the typed text as it is: it is not passed through the
      formatter, so "16" stays "16" where adding it would show "2 حزب". */
  lemma UpdateSkipsFormatter(id: string, date: string, shown: string)
    ensures UpdatedRecords([Record(id, date, shown)], Some(id), "16", date) == [Record(id, date, "16")]
    ensures MapAmountToArabic("16") == "2 حزب" != "16"
  {
    FormatHizbExamples("16");
  }

  /** What `loadRecords` leaves in `records`: the stored list when the
      student's key holds one, and the current list otherwise. With nothing
      stored for the student a load keeps the current list; in a store the
      app alone has written, a stored list always replaces it. */
  function LoadedRecords(items: map<string, Value>, studentId: string, current: seq<Record>)
    : (r: seq<Record>)
    ensures RecordsKey(studentId) !in items ==> r == current
    ensures WellTyped(items) && RecordsKey(studentId) in items ==> r == items[RecordsKey(studentId)].records
  {
    var key := RecordsKey(studentId);
    if key in items && items[key].RecordList? then items[key].records else current
  }

  /** A list written under a student's key is what a later load finds. */
  lemma LoadAfterSaveRecords(items: map<string, Value>, studentId: string, saved: seq<Record>,
                             current: seq<Record>)
    ensures LoadedRecords(items[RecordsKey(studentId) := RecordList(saved)], studentId, current) == saved
  {
  }

  /** Saving one student's sessions touches neither the roster nor any other
      student's sessions. */
  lemma SaveRecordsKeepsOthers(items: map<string, Value>, studentId: string, saved: seq<Record>,
                               other: string, current: seq<Record>)
    requires other != studentId
    ensures var after := items[RecordsKey(studentId) := RecordList(saved)];
      (StudentsKey in after <==> StudentsKey in items) &&
      (StudentsKey in items ==> after[StudentsKey] == items[StudentsKey]) &&
      LoadedRecords(after, other, current) == LoadedRecords(items, other, current)
  {
    RecordsKeyInjective(studentId, other);
  }

  class StudentProfileScreen {
    /** The device store, shared with the roster screen. */
    const storage: AsyncStorage
    /** The student the screen was opened for. */
    const student: Student
    var records: seq<Record>
    var newAmount: string
    /** The dialog's date, as its locale display string. */
    var date: string
    var isEditing: bool
    /** `editRecordId`; `None` is `null`. */
    var editRecordId: Option<string>

    /** The screen as first rendered, `today` standing for `new Date()`. */
    constructor (storage: AsyncStorage, student: Student, today: string)
      ensures this.storage == storage && this.student == student
      ensures records == [] && newAmount == "" && date == today
      ensures !isEditing && editRecordId == None
    {
      this.storage := storage;
      this.student := student;
      records := [];
      newAmount := "";
      date := today;
      isEditing := false;
      editRecordId := None;
    }

    /** The session list as the student's key holds it. */
    predicate Mirrored()
      reads this, storage
    {
      var key := RecordsKey(student.id);
      key in storage.items && storage.items[key] == RecordList(records)
    }

    /** `loadRecords`: replace the list by the stored one if there is one;
        keep it otherwise. */
    method LoadRecords()
      modifies this`records
      ensures records == LoadedRecords(storage.items, student.id, old(records))
    {
      var saved := storage.GetItem(RecordsKey(student.id));
      if saved.Some? && saved.value.RecordList? {
        records := saved.value.records;
      }
    }

    /** `saveRecords(list)`: write the whole list under `records_<id>`. */
    method SaveRecords(list: seq<Record>)
      modifies storage
      ensures storage.items == old(storage.items)[RecordsKey(student.id) := RecordList(list)]
    {
      storage.SetItem(RecordsKey(student.id), RecordList(list));
    }

    /** The amount field's `onChangeText`. */
    method ChangeAmount(text: string)
      modifies this`newAmount
      ensures newAmount == text
    {
      newAmount := text;
    }

    /** `addRecord`, with `freshId` for the random id: blank text changes
        nothing; otherwise one session holding the formatted amount and the
        dialog's date is appended, the list written back and the text
        cleared. */
    method AddRecord(freshId: string)
      modifies this, storage
      ensures date == old(date) && isEditing == old(isEditing) && editRecordId == old(editRecordId)
      ensures |Trim(old(newAmount))| == 0 ==>
        records == old(records) && newAmount == old(newAmount) &&
        storage.items == old(storage.items)
      ensures |Trim(old(newAmount))| != 0 ==>
        records == old(records) + [Record(freshId, date, MapAmountToArabic(old(newAmount)))] &&
        newAmount == "" &&
        storage.items == old(storage.items)[RecordsKey(student.id) := RecordList(records)] &&
        Mirrored()
    {
      if |Trim(newAmount)| == 0 {
        return;
      }
      var mapped := MapAmountToArabic(newAmount);
      var updated := records + [Record(freshId, date, mapped)];
      records := updated;
      SaveRecords(updated);
      newAmount := "";
    }

    /** `editRecord(record)`: load a session into the dialog, its shown
        amount into the text field, and remember its id. `shownDate` stands
        for the display string of `new Date(record.date)`, which the app's
        date parsing need not map back to `record.date`. */
    method EditRecord(record: Record, shownDate: string)
      modifies this`newAmount, this`date, this`editRecordId, this`isEditing
      ensures newAmount == record.amount && date == shownDate
      ensures editRecordId == Some(record.id) && isEditing
    {
      newAmount := record.amount;
      date := shownDate;
      editRecordId := Some(record.id);
      isEditing := true;
    }

    /** `updateRecord`: every session with the remembered id takes the text
        as typed and the dialog's date, the list is written back, and the
        dialog is reset. */
    method UpdateRecord()
      modifies this, storage
      ensures records == UpdatedRecords(old(records), old(editRecordId), old(newAmount), old(date))
      ensures storage.items == old(storage.items)[RecordsKey(student.id) := RecordList(records)]
      ensures Mirrored()
      ensures newAmount == "" && !isEditing && editRecordId == None && date == old(date)
    {
      var updated := UpdatedRecords(records, editRecordId, newAmount, date);
      records := updated;
      SaveRecords(updated);
      newAmount := "";
      isEditing := false;
      editRecordId := None;
    }

    /** The dialog's confirm button: update while editing, add otherwise. */
    method Submit(freshId: string)
      modifies this, storage
      ensures old(isEditing) ==>
        records == UpdatedRecords(old(records), old(editRecordId), old(newAmount), old(date)) &&
        storage.items == old(storage.items)[RecordsKey(student.id) := RecordList(records)] &&
        Mirrored() &&
        newAmount == "" && !isEditing && editRecordId == None && date == old(date)
      ensures !old(isEditing) ==>
        !isEditing && editRecordId == old(editRecordId) && date == old(date)
      ensures !old(isEditing) && |Trim(old(newAmount))| != 0 ==>
        records == old(records) + [Record(freshId, date, MapAmountToArabic(old(newAmount)))] &&
        newAmount == "" &&
        storage.items == old(storage.items)[RecordsKey(student.id) := RecordList(records)] &&
        Mirrored()
      ensures !old(isEditing) && |Trim(old(newAmount))| == 0 ==>
        records == old(records) && newAmount == old(newAmount) && storage.items == old(storage.items)
    {
      if isEditing {
        UpdateRecord();
      } else {
        AddRecord(freshId);
      }
    }

    /** The dialog's cancel button: leave editing and clear the text; the
        remembered id is kept. */
    method Cancel()
      modifies this`isEditing, this`newAmount
      ensures !isEditing && newAmount == ""
    {
      isEditing := false;
      newAmount := "";
    }
  }
}

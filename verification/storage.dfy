/** The app's persistent state: the two kinds of list it keeps and the
    device key-value store (AsyncStorage) both screens share. A stored value
    is kept as the list itself rather than as its JSON text. */
module Storage {
  import opened JsText

  /** A roster entry; `id` is the text of a random number. */
  datatype Student = Student(id: string, name: string)

  /** One memorisation session; `date` is the locale display string of the
      day and `amount` the text shown for the quantity. */
  datatype Record = Record(id: string, date: string, amount: string)

  /** What a key can hold: the roster, or one student's sessions. */
  datatype Value = Roster(students: seq<Student>) | RecordList(records: seq<Record>)

  /** The key the roster lives under. */
  const StudentsKey: string := "students"

  const RecordsPrefix: string := "records_"

  /** Keys of the form `records_<id>`. */
  predicate IsRecordsKey(key: string) {
    |RecordsPrefix| <= |key| && key[..|RecordsPrefix|] == RecordsPrefix
  }

  /** The key one student's sessions live under. */
  function RecordsKey(studentId: string): (key: string)
    ensures IsRecordsKey(key) && key[|RecordsPrefix|..] == studentId
    ensures key != StudentsKey
  {
    var key := RecordsPrefix + studentId;
    assert key[0] != StudentsKey[0];
    key
  }

  /** Distinct students own distinct record keys. */
  lemma RecordsKeyInjective(a: string, b: string)
    ensures RecordsKey(a) == RecordsKey(b) <==> a == b
  {
    if RecordsKey(a) == RecordsKey(b) {
      assert a == RecordsKey(a)[|RecordsPrefix|..];
    }
  }

  /** Every key the app writes holds the kind of list the app reads from it. */
  predicate WellTyped(items: map<string, Value>) {
    forall key :: key in items ==>
      (key == StudentsKey ==> items[key].Roster?) &&
      (IsRecordsKey(key) ==> items[key].RecordList?)
  }

  /** Writing the roster under its key keeps the store well typed. */
  lemma WriteStudentsWellTyped(items: map<string, Value>, students: seq<Student>)
    requires WellTyped(items)
    ensures WellTyped(items[StudentsKey := Roster(students)])
  {
    assert StudentsKey[..|RecordsPrefix|][0] != RecordsPrefix[0];
  }

  /** Writing a session list under a record key keeps the store well typed. */
  lemma WriteRecordsWellTyped(items: map<string, Value>, studentId: string, records: seq<Record>)
    requires WellTyped(items)
    ensures WellTyped(items[RecordsKey(studentId) := RecordList(records)])
  {
  }

  /** The device store: `getItem` and `setItem` on a map from keys to values. */
  class AsyncStorage {
    var items: map<string, Value>

    /** The store as the app finds it when it starts. */
    constructor (persisted: map<string, Value>)
      ensures items == persisted
    {
      items := persisted;
    }

    /** `getItem(key)`: the value under `key`, or `None` when there is none. */
    method GetItem(key: string) returns (v: Option<Value>)
      ensures v.Some? <==> key in items
      ensures v.Some? ==> v.value == items[key]
    {
      v := if key in items then Some(items[key]) else None;
    }

    /** `setItem(key, value)`: replaces what `key` holds and nothing else. */
    method SetItem(key: string, value: Value)
      modifies this
      ensures items == old(items)[key := value]
    {
      items := items[key := value];
    }
  }
}

# hifdh: a Dafny model of the student and session stores

The app tracks Qur'an memorisation. A roster screen keeps a list of
students. A profile screen keeps, for each student, the list of
memorisation sessions. Each session has an id, a date and an amount.
Amounts are typed as a number of eighths of a hizb. They are shown in one
unit: hizb (حزب, 8 eighths), half (نصف, 4), quarter (ربع, 2) or eighth
(ثمن, 1). Both lists live in the component state of their screen. After
every change the whole list is written back to the device's key-value
store (AsyncStorage): the roster under `students`, a student's sessions
under `records_<id>`.

Modules:

- `JsText` (`js_text.dfy`) holds the JavaScript runtime behaviour the
  screens rely on: `trim` with JavaScript's white-space set, the decimal
  rendering of an integral Number, and `parseInt(s, 10)`. A NaN is `None`.
- `AmountFormat` (`amount_format.dfy`) holds `mapAmountToArabic`. It has a
  reader, `ReadAmount`, that turns a displayed amount back into a count and
  a unit. Lemmas show that `ReadAmount` inverts the formatter.
- `Storage` (`storage.dfy`) holds the stored entities and the shared store.
  The store is the class `AsyncStorage`, with a `map` from keys to values.
  A stored value is the list itself, not its JSON text.
- `StudentList` (`student_list.dfy`) holds the roster screen. It is a class
  with the screen's state fields `students` and `newStudentName`. Its pure
  part is the delete filter, with lemmas about it.
- `StudentProfile` (`student_profile.dfy`) holds the profile screen. It is a
  class with `records`, `newAmount`, `date`, `isEditing` and
  `editRecordId`. Its pure part is the replace-by-id map, with lemmas about
  it.

Random ids and the current date are given by the caller: `freshId` and
`today`. Dates are opaque display strings.

Behaviour of the code that is easy to miss:

- The formatter accepts every integer: 0 gives `0 حزب` and negative
  amounts are formatted too. Text that `parseInt` cannot read gives
  `NaN ثمن `. Nothing rejects an invalid amount.
- Adding a session rejects only blank text.
- Updating a session stores the typed text verbatim. It does not run the
  formatter again. An unknown id is not an error: the list stays as it
  was.
- Loading a key that is absent keeps the list the screen already has. It
  does not reset the list to empty.
- Deleting a student keeps that student's `records_<id>` entry.
- Ids are not checked for uniqueness. Update and delete act on every entry
  that matches.

## Model

| member | source | states |
|---|---|---|
| JsText.TrimStart | screens/StudentProfileScreen.js:59 | the result is a suffix of the input; everything removed is white space; the result is empty or starts with a non-white-space character |
| JsText.TrimEnd | screens/StudentListScreen.js:35 | the result is a prefix of the input; everything removed is white space; the result is empty or ends with a non-white-space character |
| JsText.TrimEmptyIffBlank | screens/StudentListScreen.js:35 | trimming both ends leaves nothing exactly when every character of `s` is JavaScript white space, in both directions |
| JsText.Trim | screens/StudentListScreen.js:35 | `trim` never lengthens its input; its result is empty or starts and ends with a non-white-space character; it is empty exactly when the input is blank, the test `addStudent` makes here and `addRecord` makes on the amount text |
| JsText.NatToString | screens/StudentProfileScreen.js:14 | the rendering of a natural number is a non-empty string of decimal digits; it starts with `0` only when it is exactly `"0"`, the rendering of zero |
| JsText.IntToString | screens/StudentProfileScreen.js:20 | the rendering of an integer starts with a minus sign or a digit |
| JsText.DigitsValueOfNatToString | screens/StudentProfileScreen.js:14 | the digits of the rendering of `n` have the value `n` |
| JsText.DigitRun | screens/StudentProfileScreen.js:11 | `parseInt` reads the longest prefix made of digits: every character before the stop is a digit, and the stop is the end or a non-digit |
| JsText.SplitDigits | screens/StudentProfileScreen.js:11 | reading digits fails exactly when the text is empty or starts with a non-digit; a successful read gives a non-negative value and a strictly shorter remainder |
| JsText.SplitDigitsReadsRun | screens/StudentProfileScreen.js:11 | a successful read consumes a non-empty prefix made only of digits, stops at the end or at a non-digit, returns the text after the prefix as the remainder, and gives the prefix's decimal value |
| JsText.ParseInt10Reads | screens/StudentProfileScreen.js:11 | `parseInt(s, 10)` is NaN exactly when no digit follows the leading white space and the optional sign; otherwise it is the value of the longest run of digits there, negated after a minus sign |
| JsText.DigitRunOfDigitsThen | screens/StudentProfileScreen.js:11 | a digit run stops exactly where a string of digits meets text that does not start with a digit |
| JsText.DigitsOfNatToStringThen | screens/StudentProfileScreen.js:11 | the rendering of a natural number, followed by a non-digit, reads back as that number and that remainder |
| JsText.SplitIntOfIntToString | screens/StudentProfileScreen.js:11 | the rendering of any integer, followed by a non-digit, reads back as that integer and that remainder |
| JsText.ParseIntOfIntToString | screens/StudentProfileScreen.js:11 | `parseInt(String(i), 10) == i` for every integer `i` |
| AmountFormat.ChooseUnit | screens/StudentProfileScreen.js:13-21 | the unit chosen divides the amount exactly, and no larger unit among 8, 4, 2, 1 does |
| AmountFormat.FormatAmountShape | screens/StudentProfileScreen.js:13-21 | the contract of `FormatAmount`, the branches after the parse: the output is the count in the chosen unit followed by that unit's label; only the eighth carries a trailing space; the count times the unit's size is the amount |
| AmountFormat.MapAmountToArabicReadsBack | screens/StudentProfileScreen.js:9-23 | the contract of `MapAmountToArabic`: text `parseInt` cannot read is shown as `NaN ثمن `, which reads back as nothing; any other text is shown so that it reads back as the largest exact unit and a count of it that makes up the number read |
| AmountFormat.NaNReadsAsNothing | screens/StudentProfileScreen.js:20 | the NaN display is not read back as an amount |
| AmountFormat.MapRenderedCount | screens/StudentProfileScreen.js:11 | the rendering of any integer reaches the formatter as that integer |
| AmountFormat.ReadAmountOfShown | screens/StudentProfileScreen.js:14-20 | any count followed by any unit's suffix reads back as that count and unit |
| AmountFormat.ReadAmountOfFormat | screens/StudentProfileScreen.js:9-23 | reading back the formatted amount gives the chosen unit and a count that, multiplied by the unit's size, equals the amount |
| AmountFormat.OddIffEighth | screens/StudentProfileScreen.js:17-20 | odd amounts are shown in eighths and even amounts never are |
| AmountFormat.FormatHizbExamples | screens/StudentProfileScreen.js:13-14 | "8" → `1 حزب`, "16" → `2 حزب` |
| AmountFormat.FormatPartExamples | screens/StudentProfileScreen.js:15-20 | "12" → `3 نصف`, "6" → `3 ربع`, "5" → `5 ثمن ` |
| AmountFormat.FormatUnreadable | screens/StudentProfileScreen.js:9-23 | unreadable text and empty text give `NaN ثمن ` |
| AmountFormat.FormatZero | screens/StudentProfileScreen.js:13-14 | "0", which no branch rejects, gives `0 حزب` |
| Storage.RecordsKey | screens/StudentProfileScreen.js:41 | a student's record key is `records_` followed by the id, and it never equals `students` |
| Storage.RecordsKeyInjective | screens/StudentProfileScreen.js:52 | two students share a record key only when their ids are equal |
| Storage.WriteStudentsWellTyped | screens/StudentListScreen.js:28 | writing the roster keeps every key holding the kind of list the app reads from it |
| Storage.WriteRecordsWellTyped | screens/StudentProfileScreen.js:52 | writing a session list keeps every key holding the kind of list the app reads from it |
| Storage.AsyncStorage.constructor | screens/StudentListScreen.js:3 | the store starts with what was persisted before the app started |
| Storage.AsyncStorage.GetItem | screens/StudentListScreen.js:17 | `getItem` gives the stored value, or none exactly when the key is absent |
| Storage.AsyncStorage.SetItem | screens/StudentListScreen.js:28 | `setItem` replaces the value of one key and changes no other key |
| StudentList.WithoutStudent | screens/StudentListScreen.js:45 | a student survives the delete exactly when it was on the roster with a different id; the list never grows |
| StudentList.WithoutStudentKeepsOrder | screens/StudentListScreen.js:45 | the survivors appear in their original relative order |
| StudentList.WithoutStudentAppend | screens/StudentListScreen.js:45 | deleting from a concatenation deletes from each part |
| StudentList.WithoutAbsentStudent | screens/StudentListScreen.js:45 | deleting an id that no student has leaves the roster unchanged |
| StudentList.WithoutStudentIdempotent | screens/StudentListScreen.js:45 | deleting the same id twice gives the same roster as deleting it once |
| StudentList.LoadedStudents | screens/StudentListScreen.js:15-24 | with no `students` key a load keeps the current list; in a store the app alone has written, a stored roster always replaces it |
| StudentList.LoadAfterSaveStudents | screens/StudentListScreen.js:15-32 | a roster written under `students` is the roster a later load finds |
| StudentList.SaveStudentsKeepsRecords | screens/StudentListScreen.js:44-48 | rewriting the roster neither adds nor removes any `records_<id>` entry and leaves each present one as it was, including the deleted student's |
| StudentList.StudentListScreen.constructor | screens/StudentListScreen.js:6-8 | the screen starts with an empty roster and an empty name field |
| StudentList.StudentListScreen.LoadStudents | screens/StudentListScreen.js:15-24 | the roster becomes the stored one if the key holds one, and stays as it was otherwise |
| StudentList.StudentListScreen.SaveStudents | screens/StudentListScreen.js:26-32 | the whole list is written under `students` and no other key changes |
| StudentList.StudentListScreen.ChangeStudentName | screens/StudentListScreen.js:75 | the name field holds the typed text |
| StudentList.StudentListScreen.AddStudent | screens/StudentListScreen.js:34-42 | a blank name changes neither the roster, the field nor the store; any other name is appended once, untrimmed, after the old entries; the field is cleared; the store holds the new roster |
| StudentList.StudentListScreen.DeleteStudent | screens/StudentListScreen.js:44-48 | the roster becomes the filtered list and the store's `students` key holds it; no other key changes |
| StudentProfile.UpdatedRecords | screens/StudentProfileScreen.js:91-93 | length and ids stay at each position; a matching session takes the new amount text verbatim and the new date; every other session is unchanged |
| StudentProfile.UpdateUnknownId | screens/StudentProfileScreen.js:91-93 | an id that matches no session, null included, leaves the list unchanged |
| StudentProfile.UpdateIdempotent | screens/StudentProfileScreen.js:91-93 | repeating an update changes nothing more |
| StudentProfile.EditThenUpdateUnchanged | screens/StudentProfileScreen.js:90-93 | the replace-by-id map, given a session's id with that session's own amount text and date string, gives back the same list, when no other session shares the id with different contents; for a confirmed edit this applies only when the dialog's date displays as the stored string |
| StudentProfile.UpdateSkipsFormatter | screens/StudentProfileScreen.js:92 | an update stores "16" as "16", while adding "16" would store `2 حزب` |
| StudentProfile.LoadedRecords | screens/StudentProfileScreen.js:39-48 | with no `records_<id>` key a load keeps the current list; in a store the app alone has written, a stored list always replaces it |
| StudentProfile.LoadAfterSaveRecords | screens/StudentProfileScreen.js:39-56 | a list written under `records_<id>` is the list a later load finds |
| StudentProfile.SaveRecordsKeepsOthers | screens/StudentProfileScreen.js:52 | saving one student's sessions leaves the roster and every other student's sessions as they were |
| StudentProfile.StudentProfileScreen.constructor | screens/StudentProfileScreen.js:26-33 | the screen starts with no sessions, empty text, today's date, and no edit in progress |
| StudentProfile.StudentProfileScreen.LoadRecords | screens/StudentProfileScreen.js:39-48 | the list becomes the stored one if the student's key holds one, and stays as it was otherwise |
| StudentProfile.StudentProfileScreen.SaveRecords | screens/StudentProfileScreen.js:50-56 | the whole list is written under `records_<id>` and no other key changes |
| StudentProfile.StudentProfileScreen.ChangeAmount | screens/StudentProfileScreen.js:144 | the amount field holds the typed text |
| StudentProfile.StudentProfileScreen.AddRecord | screens/StudentProfileScreen.js:58-69 | blank text changes neither the list, the field nor the store; otherwise exactly one session is appended after the old ones, holding the fresh id, the dialog's date and the formatted amount; the text is cleared; the store holds the new list |
| StudentProfile.StudentProfileScreen.EditRecord | screens/StudentProfileScreen.js:81-87 | the dialog takes the session's shown amount and the display string of the re-parsed date, remembers its id, and enters editing |
| StudentProfile.StudentProfileScreen.UpdateRecord | screens/StudentProfileScreen.js:90-100 | the list becomes the replace-by-id update with the text and date; the store holds it; the text is cleared, editing ends and the remembered id is null |
| StudentProfile.StudentProfileScreen.Submit | screens/StudentProfileScreen.js:148 | while editing, the confirm button has the whole effect of `updateRecord` (list, store, cleared text, editing ended, id null, date kept); otherwise the whole effect of `addRecord` (blank text changes nothing; other text appends one formatted session, writes the store and clears the text; editing state and date kept) |
| StudentProfile.StudentProfileScreen.Cancel | screens/StudentProfileScreen.js:149 | cancelling ends editing and clears the text; the remembered id is kept |

## Left out

- JSON serialisation: the store holds lists, not their JSON text. A stored
  value of the wrong shape would replace the screen's list in the app. In
  the model it is ignored. `WellTyped` shows that the app's own writes
  never produce such a value.
- Asynchrony: `getItem` and `setItem` are awaited promises, and React
  applies state setters on the next render. Each operation is modelled as
  one atomic step, with the store written at once.
- Storage errors: a failed load or save is only logged, so there is no
  error path to model.
- Number precision: `parseInt` and the `/` in the formatter work on
  doubles. Above 2^53 they round, and `String` switches to exponent form at
  10^21. The model uses unbounded integers. `parseInt("-0")` gives a
  negative zero, which the screens show as `0`; the model reads it as 0.
- Random ids (`Math.random().toString()`): they are the `freshId`
  parameter. Uniqueness is not assumed anywhere.
- Dates: `new Date()` and `toLocaleDateString()` are locale-dependent. The
  dialog's date is the display string, and `today` stands for the current
  date.
- StudentProfile.StudentProfileScreen.EditRecord: the app parses the
  session's date string back with `new Date(...)` and later saves its
  display string. Parsing a non-ISO string is left to the JavaScript
  engine: a day-first string may come back as another day, or as
  `Invalid Date`. The model does not compute that parse. The resulting
  display string is the `shownDate` parameter, so no round trip is
  promised.
- StudentProfile.EditThenUpdateUnchanged: it is a property of the
  replace-by-id map. It says that confirming an unchanged edit keeps the
  list only when `shownDate` equals the stored string, which the app does
  not guarantee.
- The date picker (`showDatepicker`, `onDateChange`): it is UI. In the
  model the dialog's date changes only through the constructor and
  `EditRecord`.
- Modal visibility (`modalVisible`), `I18nManager.forceRTL`, rendering,
  styles and navigation (`App.js`): they are display only. The route
  parameter `student` is the `student` constant of the profile screen.

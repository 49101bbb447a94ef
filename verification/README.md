# Contact book model

A Dafny model of an in-memory contact address book written in Python
(`main.py`). The book holds contacts (`Record`s) under their names. Each
contact has a name, a birthday and an ordered list of phone numbers. A phone
number is valid when it is exactly ten digits. A contact's phone numbers can
be added, found, edited and removed, and its birthday gives the number of
days until the next one. The book can add, find and delete records, and it
can be iterated page by page.

Everything is modelled as immutable data and pure functions:

- `Phone` — the ten-digit check (`Phone.validate`), digits being ASCII `'0'..'9'`.
- `PhoneList` — `Record.add_phone`, `find_phone`, `edit_phone` and
  `remove_phone` as functions on the phone list `seq<string>`. Each returns
  the new list or the error raised. A found phone is identified by its
  position in the list.
- `Calendar` — the parts of Python's `datetime.date` the countdown relies
  on: valid dates (years 1..9999), the Gregorian leap-year rule, day
  ordinals as `toordinal()` counts them, and field-by-field date comparison.
- `Records` — the `Record` datatype, its construction,
  `days_to_birthday` (with today's date as a parameter) and `__str__`.
- `AddressBook` — the dictionary of records as a sequence of entries with
  distinct keys (`KeysUnique`, which every book operation requires and
  keeps), kept in the dictionary's enumeration order. A new key is
  appended at the end and an overwritten key keeps its place. A reference
  `map` view (`AsMap`) states what each operation does to the mapping.
- `Pagination` — `__iter__` / `__next__` as a cursor over a snapshot of
  the records, and the list of pages a full pass yields.
- `Wrappers`, `Errors`, `Seqs`, `Arith` — `Option`/`Result`, the kinds of
  exception raised, a first-match search and removal by position, and
  division facts.

Three behaviours of the code are easy to misread; the model follows what
the code does:

- The guard `if phone not in self.phones` (main.py:51) is there to skip a
  number that is already stored. But it compares a freshly built `Phone`
  object by identity, since `Field` defines no equality. So the guard never
  holds back a number, and the model always appends
  (`PhoneList.AddPhoneKeepsDuplicates`). No "no duplicates" invariant is
  claimed. Because of this, "the edited or removed number is no longer
  found" holds only when it occurred once.
- The code has no special case for a Feb 29 birthday in a common year:
  `datetime(...)` raises `ValueError` when asked for Feb 29 of a common
  year, at line 72 for the current year or at line 74 when the birthday is
  rolled forward. The model raises `DayOutOfRange` in
  both places. Rolling forward from year 9999 raises `YearOutOfRange`, since
  `datetime` stops at 9999.
- When today is the birthday, the result is 0, because the roll-forward
  test is a strict `today > next_birthday`.

Two defects in the code are recorded under "## Findings". Each has an
as-written model. The rest of the model uses the intended behaviour:

- `validate` cannot be called as a method.
- The birthday's parsed date is never stored where it is read.

## Model

| member | source | states |
|---|---|---|
| `Phone.IsDigitString` | main.py:30 | `isdigit` holds exactly for a non-empty string of digit characters |
| `Phone.Validate` | main.py:29-33 | succeeds exactly when the string has length 10 and only digits, and then returns it unchanged; otherwise the error is the invalid-phone `ValueError` |
| `Seqs.IndexOf` | main.py:56-58 | the scan stops at the first element equal to the query: that element matches, none before it does; None exactly when nothing matches |
| `Seqs.RemoveAt` | main.py:84 | removing one position shortens the list by one, keeps the other elements in order, and takes exactly one copy of that element out of the multiset |
| `PhoneList.AddPhone` | main.py:48-52 | a valid number is appended at the end, so the length grows by one and earlier entries are unchanged; an invalid number is the invalid-phone error and nothing is stored |
| `PhoneList.FindPhone` | main.py:54-58 | returns the position of the first entry equal to the query; returns None, not an error, exactly when no entry matches |
| `PhoneList.EditPhone` | main.py:62-68 | an absent `old` is "Phone not found", even when `new` is also invalid; a present `old` with an invalid `new` is the invalid-phone error; otherwise the first match is overwritten in place, with the same length and every other entry unchanged |
| `PhoneList.RemovePhone` | main.py:81-86 | an absent number is "Phone not found"; otherwise exactly the first match is removed, with the entries before it unchanged and those after it shifted down by one |
| `PhoneList.OperationsKeepAllValid` | main.py:48-86 | if every stored number is valid, every successful add, edit or remove leaves every stored number valid |
| `PhoneList.AddThenFind` | main.py:48-58 | after adding a valid number, `find_phone` of it succeeds: at the earlier copy if there was one, else at the new last position |
| `PhoneList.AddPhoneKeepsDuplicates` | main.py:51-52 | adding a valid number always adds one more occurrence of it, even when it is already stored |
| `PhoneList.EditThenFind` | main.py:54-68 | an edit replaces one occurrence of `old` by `new` in the multiset; `new` is then found; `old` is no longer found when it occurred once and differs from `new` |
| `PhoneList.RemoveThenFind` | main.py:54-86 | a remove takes one occurrence away; a number that occurred once is no longer found |
| `PhoneList.AddPhoneAsWritten` | main.py:48-50 | as written, `add_phone` raises TypeError for every input, because `phone.validate` is a string |
| `PhoneList.EditPhoneAsWritten` | main.py:62-68 | as written, `edit_phone` never succeeds: "Phone not found" exactly when `old` is absent, TypeError exactly when it is present |
| `PhoneList.AsWrittenRefusesValidPhone` | main.py:28-33 | for every valid number, the as-written add and edit fail while the intended ones succeed |
| `Calendar.MonthTableSumsLengths` | main.py:76 | the days-before-month table starts at 0, grows by each month's length, and reaches the year's length after December |
| `Calendar.DaysBeforeYearClosedForm` | main.py:76 | counting the days of the earlier years one at a time gives 365 per year plus the Gregorian leap days, the closed form `datetime` uses |
| `Calendar.OrdinalOrder` | main.py:73-76 | for valid dates, the field-by-field comparison `<` agrees with comparing day ordinals, and two dates have the same ordinal exactly when they are equal |
| `Records.NewRecord` | main.py:39-42 | constructing a contact fails exactly on a birthday that is not a real calendar date; a new contact has its name and birthday and no phones, and satisfies `ValidRecord` (real birthday, every number validated), the invariant the later operations keep |
| `Records.PhoneOperationsKeepValidRecord` | main.py:48-86 | a valid contact stays valid after every successful `add_phone`, `edit_phone` or `remove_phone`, so the countdown's precondition and the rendering's read-back hold for every contact built by the operations |
| `Records.NextBirthday` | main.py:71-74 | the candidate has the birthday's month and day, is not before today, and is in this year or the next; no valid date with that month and day lies on or after today and before it; an error is raised exactly for Feb 29 when this year's Feb 29 does not exist or is past, or when year 9999's date is past |
| `Records.DaysToBirthday` | main.py:70-77 | fails exactly when the next birthday cannot be built; otherwise today plus the result is the next birthday's ordinal, the result is at most 365, and it is 0 exactly when today has the birthday's month and day |
| `Records.DaysToBirthdayAtMost365` | main.py:72-76 | the next birthday is at most 365 days after today, also when it is rolled into the next year |
| `Records.DaysToBirthdayTomorrow` | main.py:72-77 | a birthday on the day after today, in the same month, gives 1 |
| `Records.DaysToBirthdayDefined` | main.py:72-74 | a birthday other than Feb 29, with today before year 9999, never raises |
| `Records.Render` | main.py:45-46 | the text is "Contact name: ", then the name, then ", phones: ", then the "; "-joined phone list; for validated numbers, splitting the text after that prefix gives back exactly the stored phone list |
| `Records.SplitJoinPhones` | main.py:46 | the "; "-joined list can be split back into the numbers it came from when none is empty or contains ';' |
| `Records.ValidPhonesSeparable` | main.py:46 | a list of validated numbers is always recovered from its rendering |
| `Records.DaysToBirthdayAsWritten` | main.py:70-72 | as written, the countdown raises AttributeError exactly when `birthday.value` is None |
| `Records.BirthdayNeverStored` | main.py:127-130 | as written, `birthday.value` is None for every parsed date, so the countdown always raises; over the parsed date it returns a count, except for Feb 29 or year 9999 |
| `AddressBook.EmptyBook` | main.py:91-93 | a new book is a valid dictionary with page size 5 in which `find` returns None for every name |
| `AddressBook.AsMap` | main.py:96 | the dictionary built by storing each entry in turn has exactly the entries' keys |
| `AddressBook.AddRecord` | main.py:95-96 | the mapping becomes the old one with the name mapped to the record, and keys stay distinct; an existing name is overwritten in its place, a new one is appended |
| `AddressBook.Find` | main.py:98-99 | returns the record stored under the name, or None when the name is absent |
| `AddressBook.Delete` | main.py:102-104 | an absent name leaves the book unchanged; a present one is removed from the mapping, and the other entries keep their order |
| `AddressBook.Values` | main.py:109 | the snapshot has one record per dictionary entry, in enumeration order, and each is exactly what `find` returns for the name it is stored under |
| `AddressBook.AddThenFind` | main.py:95-99 | after `add_record(r)`, `find(r.name)` is `r`, and every other name finds what it found before |
| `AddressBook.DeleteThenFind` | main.py:98-104 | after `delete(name)`, `find(name)` is None, and every other name finds what it found before |
| `Pagination.Slice` | main.py:115 | Python slicing keeps the elements from `lo` up to `hi` that exist, and is empty when `lo` is past the end |
| `Pagination.OffsetIsProduct` | main.py:113-114 | the offset of page `k`, counted one page at a time, is `k * page_size`, the slice bounds `start_idx` and `end_idx` |
| `Pagination.Iter` | main.py:107-110 | a new pass starts at page 0 over a snapshot with one record per dictionary entry, the `i`-th being what `find` returns for the `i`-th name in enumeration order |
| `Pagination.Next` | main.py:112-121 | stops exactly when the page size is 0 or the cursor's offset is past the snapshot; otherwise yields the next `min(page_size, rest)` records from the offset and advances the cursor by one page |
| `Pagination.NextPageIsSlice` | main.py:113-115 | a yielded page is the snapshot's slice from `k*page_size`, and the next offset is one page further on |
| `Pagination.PagesBounded` | main.py:112-121 | every yielded page is non-empty and has at most `page_size` records |
| `Pagination.PagesFull` | main.py:112-121 | every page except the last has exactly `page_size` records |
| `Pagination.PagesFlatten` | main.py:112-121 | the pages from a cursor concatenate to the rest of the snapshot from its offset |
| `Pagination.PagesCount` | main.py:112-121 | there are just enough pages to hold the remaining records and no more |
| `Pagination.PagesOfBook` | main.py:107-121 | with `page_size > 0`, a full pass yields `ceil(n / page_size)` non-empty pages of at most `page_size` records, all but the last full, that concatenate back to the snapshot |
| `Pagination.TwelveRecordsInPagesOfFive` | main.py:107-121 | twelve records in pages of five come out as pages of 5, 5 and 2 |
| `Pagination.PagesOfZeroSize` | main.py:113-118 | with `page_size == 0`, a pass yields no pages |
| `Pagination.EmptyBookHasNoPages` | main.py:133-137 | the loop over a new `AddressBook()` gets StopIteration at once and sees no page |
| `Pagination.ResumeYieldsRest` | main.py:107-121 | after `j` pages, a cursor yields the pages a fresh pass yields from position `j` on; an exhausted cursor keeps stopping; a new `__iter__` therefore replays the same pages |

## Left out

- The `print` calls of the module-level demo loop (main.py:133-137): console I/O. `Pagination.EmptyBookHasNoPages` states that the loop gets no page.
- `datetime.now()` (main.py:71): it is nondeterministic, so today's date is a parameter of `Records.DaysToBirthday`.
- The unused `value` parameter of `days_to_birthday` (main.py:70) is dropped.
- The text format of the birthday (`strptime` with `'%Y.%m.%d'`, main.py:130): its lexical rules belong to the library. A birthday enters the model as a year, month and day, and `Records.NewRecord` refuses one that is not a valid calendar date.
- `str.isdigit` is Unicode-aware in Python. `Phone.IsDigitString` accepts only ASCII `'0'..'9'`, so non-ASCII digits, which Python would accept, are refused here.
- The `Field` property and descriptor machinery, the name mangling and the `UserDict` base class (main.py:5-19, 90-92) keep only their data effects. Names are plain strings, phones are strings, the birthday is a `Calendar.Date`, and the book's dictionary is an entry sequence. The two defects they cause are modelled separately (see Findings).
- Raw assignment to `Phone.value`, which skips validation, is not modelled. The phone list is changed only through the record operations, and those validate.
- The cursor (`current_page`, `contacts`) as mutable object state (main.py:107-121). A pass is a `Pagination.Cursor` value passed from step to step. Two passes interleaved on one book object therefore cannot interfere in the model.
- A negative `page_size` is not modelled: the page size is a `nat`.
- Sharing of `Record` objects by reference. `add_record` stores the caller's object (main.py:96), `find` returns that same object (main.py:99), and `__iter__` copies references into `contacts` (main.py:109). In the code, a later `add_phone`, `edit_phone` or `remove_phone` on that object is seen by `find` and by the pages of a pass already started. In the model a `Records.Record` is an immutable value: a changed record reaches the book only through another `AddressBook.AddRecord`, and never reaches the snapshot of a pass already started.
- `AddressBook.iterator` (main.py:123-124) only calls `__iter__`, which is `Pagination.Iter`.

## Findings

| source | as written | input that shows it | evidently intended | confidence | as-written member | corrected member |
|---|---|---|---|---|---|---|
| main.py:28-29 | `validate` is declared under `@Field.value.setter`, so it is a property whose getter returns the stored string; `phone.validate(x)` at lines 50 and 65 calls that string and raises TypeError | `add_phone("0501234567")` on any record, or `edit_phone` of a stored number | `validate` is a method that returns a ten-digit string and raises `ValueError` otherwise, before the number is stored | high; not executed | `PhoneList.AddPhoneAsWritten`, `PhoneList.EditPhoneAsWritten`, `PhoneList.AsWrittenRefusesValidPhone` | `PhoneList.AddPhone`, `PhoneList.EditPhone` |
| main.py:130 | the `Birthday` setter writes `self.__value`, which is mangled to `_Birthday__value`, while the inherited getter (line 12) reads `_Field__value`, which `Field.__init__` set to None; `days_to_birthday` then raises AttributeError on `None.month` | `Record("Ann", "2000.05.17").days_to_birthday(None)` | the parsed date is the birthday's `value`, and `days_to_birthday` counts the days to its next occurrence | high; not executed | `Records.DaysToBirthdayAsWritten`, `Records.BirthdayNeverStored` | `Records.DaysToBirthday` |

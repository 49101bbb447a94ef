/** A contact (`Record`): a name, a birthday and an ordered phone list, with
    the birthday countdown and the text rendering. The phone-list operations
    live in `PhoneList` and act on `phones`. */
module Records {
  import opened Wrappers
  import opened Errors
  import opened Calendar
  import opened Seqs
  import opened Phone
  import opened PhoneList

  /** `Record`: the `Name` field's string, the birthday as the date
      `strptime` parsed, and the phone numbers in insertion order. */
  datatype Record = Record(name: string, birthday: Date, phones: seq<string>)

  /** What every contact the operations build satisfies: its birthday is a
      real calendar date and every stored number passed validation. */
  predicate ValidRecord(r: Record) {
    ValidDate(r.birthday) && AllValid(r.phones)
  }

  /** `Record(name, birthday)`: parsing the birthday text fails on a date
      the calendar does not have; a new contact has no phones. */
  function NewRecord(name: string, birthday: Date): (r: Result<Record, Error>)
    ensures r.Ok? <==> ValidDate(birthday)
    ensures r.Err? ==> r.error == BadDate
    ensures r.Ok? ==> ValidRecord(r.value)
    ensures r.Ok? ==> r.value.name == name && r.value.birthday == birthday && r.value.phones == []
  {
    if ValidDate(birthday) then Ok(Record(name, birthday, [])) else Err(BadDate)
  }

  /** A contact stays valid through every successful phone-list operation,
      so its countdown and rendering keep their preconditions and their
      read-back property. */
  lemma PhoneOperationsKeepValidRecord(r: Record, p: string, q: string)
    requires ValidRecord(r)
    ensures AddPhone(r.phones, p).Ok? ==> ValidRecord(r.(phones := AddPhone(r.phones, p).value))
    ensures EditPhone(r.phones, p, q).Ok? ==> ValidRecord(r.(phones := EditPhone(r.phones, p, q).value))
    ensures RemovePhone(r.phones, p).Ok? ==> ValidRecord(r.(phones := RemovePhone(r.phones, p).value))
  {
    OperationsKeepAllValid(r.phones, p, q);
  }

  /** `next_birthday` in `days_to_birthday`: the birthday's month and day in
      today's year, or in the next year when that is already past. Building
      a Feb 29 in a common year, or any date in year 10000, raises. */
  function NextBirthday(b: Date, today: Date): (r: Result<Date, Error>)
    requires ValidDate(b) && ValidDate(today)
    ensures r.Ok? ==> ValidDate(r.value) && r.value.month == b.month && r.value.day == b.day
    ensures r.Ok? ==> !Before(r.value, today)
    ensures r.Ok? ==> r.value.year == today.year || r.value.year == today.year + 1
    ensures r.Ok? ==> forall e :: ValidDate(e) && e.month == b.month && e.day == b.day && !Before(e, today)
                                  ==> !Before(e, r.value)
    ensures r.Err? <==>
              (b.month == 2 && b.day == 29 && !(IsLeapYear(today.year) && today.month <= 2))
              || (today.year == MaxYear && Before(Date(MaxYear, b.month, b.day), today))
  {
    var candidate := Date(today.year, b.month, b.day);
    if !ValidDate(candidate) then Err(DayOutOfRange)
    else if Before(candidate, today) then
      if today.year + 1 > MaxYear then Err(YearOutOfRange)
      else
        var following := Date(today.year + 1, b.month, b.day);
        if !ValidDate(following) then Err(DayOutOfRange) else Ok(following)
    else Ok(candidate)
  }

  /** `days_to_birthday`, with today's date passed in: whole days from today
      to the next birthday. It is never more than 365, and 0 exactly on the
      birthday itself. */
  function DaysToBirthday(r: Record, today: Date): (n: Result<nat, Error>)
    requires ValidDate(r.birthday) && ValidDate(today)
    ensures n.Err? <==> NextBirthday(r.birthday, today).Err?
    ensures n.Ok? ==> Ordinal(today) + n.value == Ordinal(NextBirthday(r.birthday, today).value)
    ensures n.Ok? ==> n.value <= 365
    ensures n == Ok(0) <==> today.month == r.birthday.month && today.day == r.birthday.day
  {
    match NextBirthday(r.birthday, today)
    case Err(e) => Err(e)
    case Ok(next) =>
      OrdinalOrder(next, today);
      DaysToBirthdayAtMost365(r.birthday, today);
      Ok(Ordinal(next) - Ordinal(today))
  }

  /** The next birthday is fewer than 366 days away. */
  lemma DaysToBirthdayAtMost365(b: Date, today: Date)
    requires ValidDate(b) && ValidDate(today)
    requires NextBirthday(b, today).Ok?
    ensures Ordinal(NextBirthday(b, today).value) - Ordinal(today) <= 365
  {
    var next := NextBirthday(b, today).value;
    var candidate := Date(today.year, b.month, b.day);
    DayOfYearInRange(today);
    DayOfYearInRange(next);
    if next != candidate {
      OrdinalOrder(candidate, today);
      assert DaysBeforeYear(next.year) == DaysBeforeYear(today.year) + DaysInYear(today.year);
    }
  }

  /** A birthday falling the day after today, within today's month, is one
      day away. */
  lemma DaysToBirthdayTomorrow(r: Record, today: Date)
    requires ValidDate(r.birthday) && ValidDate(today)
    requires r.birthday.month == today.month && r.birthday.day == today.day + 1
    requires today.day < DaysInMonth(today.year, today.month)
    ensures DaysToBirthday(r, today) == Ok(1)
  {
    var candidate := Date(today.year, today.month, today.day + 1);
    assert ValidDate(candidate);
    assert NextBirthday(r.birthday, today) == Ok(candidate);
  }

  /** `days_to_birthday` never raises for a birthday other than Feb 29
      before year 9999. */
  lemma DaysToBirthdayDefined(r: Record, today: Date)
    requires ValidDate(r.birthday) && ValidDate(today)
    requires !(r.birthday.month == 2 && r.birthday.day == 29) && today.year < MaxYear
    ensures DaysToBirthday(r, today).Ok?
  {
  }

  /** The phone numbers joined with "; ", as `'; '.join(...)` does. */
  function JoinPhones(phones: seq<string>): (s: string)
  {
    if |phones| == 0 then ""
    else if |phones| == 1 then phones[0]
    else phones[0] + "; " + JoinPhones(phones[1..])
  }

  /** `Record.__str__`. The phone list can be read back from the text
      after the fixed prefix whenever the numbers were validated. */
  function Render(r: Record): (s: string)
    ensures |s| >= 24 + |r.name|
    ensures s[..14] == "Contact name: " && s[14..14 + |r.name|] == r.name
    ensures s[14 + |r.name|..24 + |r.name|] == ", phones: "
    ensures s[24 + |r.name|..] == JoinPhones(r.phones)
    ensures AllValid(r.phones) ==> SplitPhones(s[24 + |r.name|..]) == r.phones
  {
    var s := "Contact name: " + r.name + ", phones: " + JoinPhones(r.phones);
    if AllValid(r.phones) then
      ValidPhonesSeparable(r.phones);
      s
    else s
  }

  /** Reads a "; "-joined list back: the inverse of `JoinPhones` for
      numbers that are non-empty and contain no ';'. */
  function SplitPhones(s: string): (phones: seq<string>)
    decreases |s|
  {
    match IndexOf(s, ';')
    case None => if s == "" then [] else [s]
    case Some(i) =>
      var rest := if i + 2 <= |s| then s[i + 2..] else "";
      [s[..i]] + SplitPhones(rest)
  }

  predicate Separable(phones: seq<string>) {
    forall k :: 0 <= k < |phones| ==> phones[k] != "" && ';' !in phones[k]
  }

  /** The rendered phone list determines the phones it was made from. */
  lemma {:induction false} SplitJoinPhones(phones: seq<string>)
    requires Separable(phones)
    ensures SplitPhones(JoinPhones(phones)) == phones
    decreases |phones|
  {
    if |phones| == 1 {
      assert IndexOf(phones[0], ';') == None;
    } else if |phones| > 1 {
      SeparableTail(phones);
      SplitJoinPhones(phones[1..]);
      SplitJoinCons(phones[0], phones[1..]);
      assert [phones[0]] + phones[1..] == phones;
    }
  }

  /** One step of the round trip: a separable number in front of a
      non-empty list that already round-trips. */
  lemma SplitJoinCons(p: string, tail: seq<string>)
    requires p != "" && ';' !in p && |tail| > 0
    requires SplitPhones(JoinPhones(tail)) == tail
    ensures SplitPhones(JoinPhones([p] + tail)) == [p] + tail
  {
    var rest := JoinPhones(tail);
    assert ([p] + tail)[1..] == tail;
    assert JoinPhones([p] + tail) == p + "; " + rest;
    FirstSeparator(p, rest);
  }

  lemma SeparableTail(phones: seq<string>)
    requires Separable(phones) && |phones| > 0
    ensures Separable(phones[1..])
  {
    forall k | 0 <= k < |phones[1..]|
      ensures phones[1..][k] != "" && ';' !in phones[1..][k]
    {
      assert phones[1..][k] == phones[k + 1];
    }
  }

  /** In `p + "; " + rest`, the first ';' is the one just after `p`. */
  lemma FirstSeparator(p: string, rest: string)
    requires ';' !in p
    ensures var s := p + "; " + rest;
            IndexOf(s, ';') == Some(|p|) && s[..|p|] == p && s[|p| + 2..] == rest
  {
    var s := p + "; " + rest;
    assert s[|p|] == ';';
    assert s[..|p|] == p;
  }

  /** Validated phone numbers can always be read back from `__str__`'s list. */
  lemma ValidPhonesSeparable(phones: seq<string>)
    requires AllValid(phones)
    ensures SplitPhones(JoinPhones(phones)) == phones
  {
    forall k | 0 <= k < |phones|
      ensures phones[k] != "" && ';' !in phones[k]
    {
      assert IsValidPhone(phones[k]);
    }
    SplitJoinPhones(phones);
  }

  /** The `Birthday` field's two attribute slots as the class leaves them:
      `Field.__init__` writes `_Field__value`, the `Birthday` setter writes
      `_Birthday__value` (name mangling), and the inherited getter reads
      `_Field__value`. */
  datatype BirthdayField = BirthdayField(fieldSlot: Option<Date>, birthdaySlot: Option<Date>)

  /** `Birthday(text)` as written: the parsed date lands in the slot the
      getter never reads. */
  function NewBirthdayAsWritten(parsed: Date): BirthdayField
  {
    BirthdayField(None, Some(parsed))
  }

  /** `birthday.value`: the inherited getter. */
  function BirthdayFieldValue(f: BirthdayField): Option<Date>
  {
    f.fieldSlot
  }

  /** `days_to_birthday` as written: it reads `self.birthday.value.month`,
      which raises AttributeError on None. */
  function DaysToBirthdayAsWritten(f: BirthdayField, name: string, today: Date): (n: Result<nat, Error>)
    requires ValidDate(today)
    requires BirthdayFieldValue(f).Some? ==> ValidDate(BirthdayFieldValue(f).value)
    ensures BirthdayFieldValue(f).None? <==> n == Err(NoBirthday)
  {
    match BirthdayFieldValue(f)
    case None => Err(NoBirthday)
    case Some(b) => DaysToBirthday(Record(name, b, []), today)
  }

  /** The discrepancy: for every birthday, the code as written raises, while
      the countdown over the parsed date returns a day count whenever that
      date is not Feb 29 and today is before year 9999. */
  lemma BirthdayNeverStored(parsed: Date, name: string, today: Date)
    requires ValidDate(parsed) && ValidDate(today)
    ensures BirthdayFieldValue(NewBirthdayAsWritten(parsed)) == None
    ensures DaysToBirthdayAsWritten(NewBirthdayAsWritten(parsed), name, today) == Err(NoBirthday)
    ensures !(parsed.month == 2 && parsed.day == 29) && today.year < MaxYear ==>
              DaysToBirthday(Record(name, parsed, []), today).Ok?
  {
  }
}

/** A record's phone list (`Record.phones`): an ordered sequence of phone
    strings, with the add / find / edit / remove operations of `Record`.
    Each operation returns the new list, or the error it raises. */
module PhoneList {
  import opened Wrappers
  import opened Errors
  import opened Phone
  import opened Seqs

  /** Every stored number passed validation. */
  predicate AllValid(phones: seq<string>) {
    forall i :: 0 <= i < |phones| ==> IsValidPhone(phones[i])
  }

  /** `add_phone`: validate, then append. The `not in` guard compares a new
      `Phone` object by identity, so it never holds back a number and an
      equal number already present is appended again. */
  function AddPhone(phones: seq<string>, p: string): (r: Result<seq<string>, Error>)
    ensures r.Ok? <==> IsValidPhone(p)
    ensures r.Err? ==> r.error == InvalidPhone
    ensures r.Ok? ==> |r.value| == |phones| + 1 && r.value[..|phones|] == phones
                      && r.value[|phones|] == p
  {
    match Validate(p)
    case Err(e) => Err(e)
    case Ok(v) => Ok(phones + [v])
  }

  /** `find_phone`: the position of the first stored number equal to `p`,
      or None; it never raises. */
  function FindPhone(phones: seq<string>, p: string): (r: Option<nat>)
    ensures r.None? <==> p !in phones
    ensures r.Some? ==> r.value < |phones| && phones[r.value] == p
                        && forall j :: 0 <= j < r.value ==> phones[j] != p
  {
    var r := IndexOf(phones, p);
    assert r.Some? ==> forall j :: 0 <= j < r.value ==> phones[..r.value][j] == phones[j];
    r
  }

  /** `edit_phone`: the first entry equal to `oldPhone` is looked up, then `newPhone`
      is validated, then that entry is overwritten in place. */
  function EditPhone(phones: seq<string>, oldPhone: string, newPhone: string): (r: Result<seq<string>, Error>)
    ensures oldPhone !in phones ==> r == Err(PhoneNotFound)
    ensures oldPhone in phones && !IsValidPhone(newPhone) ==> r == Err(InvalidPhone)
    ensures oldPhone in phones && IsValidPhone(newPhone) ==>
              var i := FindPhone(phones, oldPhone).value;
              r.Ok? && |r.value| == |phones| && r.value[i] == newPhone
              && forall j :: 0 <= j < |phones| && j != i ==> r.value[j] == phones[j]
  {
    match FindPhone(phones, oldPhone)
    case None => Err(PhoneNotFound)
    case Some(i) =>
      match Validate(newPhone)
      case Err(e) => Err(e)
      case Ok(v) => Ok(phones[i := v])
  }

  /** `remove_phone`: the first entry equal to `p` is removed; the others
      keep their order. */
  function RemovePhone(phones: seq<string>, p: string): (r: Result<seq<string>, Error>)
    ensures p !in phones ==> r == Err(PhoneNotFound)
    ensures p in phones ==>
              var i := FindPhone(phones, p).value;
              r.Ok? && |r.value| == |phones| - 1
              && r.value[..i] == phones[..i] && r.value[i..] == phones[i + 1..]
              && multiset(r.value) == multiset(phones) - multiset{p}
  {
    match FindPhone(phones, p)
    case None => Err(PhoneNotFound)
    case Some(i) => Ok(RemoveAt(phones, i))
  }

  /** The list operations only ever store validated numbers. */
  lemma OperationsKeepAllValid(phones: seq<string>, p: string, q: string)
    requires AllValid(phones)
    ensures AddPhone(phones, p).Ok? ==> AllValid(AddPhone(phones, p).value)
    ensures EditPhone(phones, p, q).Ok? ==> AllValid(EditPhone(phones, p, q).value)
    ensures RemovePhone(phones, p).Ok? ==> AllValid(RemovePhone(phones, p).value)
  {
    if p in phones {
      var i := FindPhone(phones, p).value;
      var r := RemovePhone(phones, p).value;
      forall j | 0 <= j < |r|
        ensures IsValidPhone(r[j])
      {
        if j < i { assert r[j] == r[..i][j]; } else { assert r[j] == r[i..][j - i]; }
      }
    }
  }

  /** After a successful add, `find_phone` of the same number succeeds: at the
      earlier entry when the number was already there, else at the new end. */
  lemma AddThenFind(phones: seq<string>, p: string)
    requires IsValidPhone(p)
    ensures FindPhone(AddPhone(phones, p).value, p)
            == if p in phones then FindPhone(phones, p) else Some(|phones|)
  {
    var r := AddPhone(phones, p).value;
    assert r == phones + [p];
    if p in phones {
      var i := FindPhone(phones, p).value;
      assert r[i] == p;
    }
  }

  /** The duplicate guard never fires: adding a valid number that is already
      stored still grows the list, so it then occurs one more time. */
  lemma AddPhoneKeepsDuplicates(phones: seq<string>, p: string)
    requires IsValidPhone(p)
    ensures multiset(AddPhone(phones, p).value)[p] == multiset(phones)[p] + 1
  {
    assert AddPhone(phones, p).value == phones + [p];
  }

  /** A successful edit swaps one occurrence of `oldPhone` for `newPhone`; when `oldPhone`
      occurred once and differs from `newPhone`, it is no longer found. */
  lemma EditThenFind(phones: seq<string>, oldPhone: string, newPhone: string)
    requires oldPhone in phones && IsValidPhone(newPhone)
    ensures multiset(EditPhone(phones, oldPhone, newPhone).value)
            == multiset(phones) - multiset{oldPhone} + multiset{newPhone}
    ensures FindPhone(EditPhone(phones, oldPhone, newPhone).value, newPhone).Some?
    ensures multiset(phones)[oldPhone] == 1 && oldPhone != newPhone ==>
              FindPhone(EditPhone(phones, oldPhone, newPhone).value, oldPhone).None?
  {
    var i := FindPhone(phones, oldPhone).value;
    var r := EditPhone(phones, oldPhone, newPhone).value;
    assert r == phones[i := newPhone];
    UpdateMultiset(phones, i, newPhone);
    assert r[i] == newPhone;
    if oldPhone in r {
      assert oldPhone in multiset(r);
    }
  }

  /** A successful remove takes away one occurrence of `p`; when `p`
      occurred once, it is no longer found. */
  lemma RemoveThenFind(phones: seq<string>, p: string)
    requires p in phones
    ensures multiset(RemovePhone(phones, p).value)[p] == multiset(phones)[p] - 1
    ensures multiset(phones)[p] == 1 ==> FindPhone(RemovePhone(phones, p).value, p).None?
  {
    var r := RemovePhone(phones, p).value;
    if p in r {
      assert p in multiset(r);
    }
  }

  /** `add_phone` as written: `phone.validate` reads the inherited `value`
      property, yielding the stored string, and calling that string raises
      TypeError before anything is appended. */
  function AddPhoneAsWritten(phones: seq<string>, p: string): (r: Result<seq<string>, Error>)
    ensures r.Err? && r.error == NotCallable
  {
    Err(NotCallable)
  }

  /** `edit_phone` as written: a missing `oldPhone` still raises "Phone not found",
      but a present one reaches the same uncallable `validate`. */
  function EditPhoneAsWritten(phones: seq<string>, oldPhone: string, newPhone: string): (r: Result<seq<string>, Error>)
    ensures r.Ok? == false
    ensures oldPhone in phones <==> r == Err(NotCallable)
    ensures oldPhone !in phones <==> r == Err(PhoneNotFound)
  {
    match FindPhone(phones, oldPhone)
    case None => Err(PhoneNotFound)
    case Some(_) => Err(NotCallable)
  }

  /** The discrepancy: a well-formed number is refused by the code as
      written and accepted by the intended check. */
  lemma AsWrittenRefusesValidPhone(phones: seq<string>, p: string, q: string)
    requires p in phones && IsValidPhone(q)
    ensures AddPhoneAsWritten(phones, q).Err? && AddPhone(phones, q).Ok?
    ensures EditPhoneAsWritten(phones, p, q) == Err(NotCallable) && EditPhone(phones, p, q).Ok?
  {
  }
}

/** A contact (Task_1.py, class Record): a name, an ordered list of phones and an optional birthday. */
module Contacts {
  import opened Results
  import opened Calendar
  import opened Fields

  /** The position of the first element of `s` equal to `v`, if any. */
  function IndexOf(s: seq<string>, v: string): (r: Option<nat>)
    ensures r.Some? ==> r.value < |s| && s[r.value] == v && forall j :: 0 <= j < r.value ==> s[j] != v
    ensures r.None? <==> v !in s
  {
    if s == [] then None
    else if s[0] == v then Some(0)
    else match IndexOf(s[1..], v)
      case Some(i) => Some(i + 1)
      case None => None
  }

  /** `list.remove(v)` on values: `s` without its first `v`; `s` itself when `v` is absent. */
  function RemoveFirst(s: seq<string>, v: string): (r: seq<string>)
    ensures v !in s ==> r == s
    ensures v in s ==> |r| == |s| - 1 && multiset(r) == multiset(s) - multiset{v}
  {
    match IndexOf(s, v)
    case Some(i) =>
      assert s == s[..i] + [v] + s[i + 1..];
      assert multiset(s) == multiset(s[..i]) + multiset{v} + multiset(s[i + 1..]);
      s[..i] + s[i + 1..]
    case None => s
  }

  /** Removing a present value drops exactly one copy of it and keeps the order of the rest. */
  lemma RemoveFirstDropsOne(s: seq<string>, v: string)
    requires v in s
    ensures |RemoveFirst(s, v)| == |s| - 1
    ensures multiset(RemoveFirst(s, v)) == multiset(s) - multiset{v}
    ensures exists i :: 0 <= i < |s| && s[i] == v && v !in s[..i] && RemoveFirst(s, v) == s[..i] + s[i + 1..]
  {
    var i := IndexOf(s, v).value;
    assert s[i] == v;
  }

  /**
   * Appending a number and then removing the first copy of a present one equals
   * removing first and appending last: an edited number moves to the end.
   */
  lemma AppendThenRemove(s: seq<string>, phone: string, newPhone: string)
    requires phone in s
    ensures RemoveFirst(s + [newPhone], phone) == RemoveFirst(s, phone) + [newPhone]
    ensures |RemoveFirst(s + [newPhone], phone)| == |s|
  {
    var i := IndexOf(s, phone).value;
    var j := IndexOf(s + [newPhone], phone).value;
    assert (s + [newPhone])[i] == phone;
    assert j == i;
    assert (s + [newPhone])[..i] == s[..i];
    assert (s + [newPhone])[i + 1..] == s[i + 1..] + [newPhone];
  }

  class Record {
    const name: string
    var phones: seq<string>
    var birthday: Option<Date>

    /** Every stored phone passed validation and the birthday is a real date. */
    ghost predicate Valid()
      reads this
    {
      (forall i :: 0 <= i < |phones| ==> IsValidPhone(phones[i])) &&
      (birthday.Some? ==> IsPyDate(birthday.value))
    }

    constructor (name: string)
      ensures Valid()
      ensures this.name == name && phones == [] && birthday == None
    {
      this.name := name;
      phones := [];
      birthday := None;
    }

    /** `add_phone`: appends the number when it is valid, even if it is already stored. */
    method AddPhone(v: string) returns (r: Outcome)
      requires Valid()
      modifies this`phones
      ensures Valid()
      ensures r == if IsValidPhone(v) then Pass else Fail(InvalidPhoneFormat)
      ensures phones == if r.Pass? then old(phones) + [v] else old(phones)
    {
      r := CheckPhone(v);
      if r.Pass? {
        phones := phones + [v];
      }
    }

    /** `add_birthday`: sets or overwrites the birthday when the text parses. */
    method AddBirthday(text: string) returns (r: Outcome)
      requires Valid()
      modifies this`birthday
      ensures Valid()
      ensures r == if ParseBirthday(text).Ok? then Pass else Fail(InvalidDateFormat)
      ensures birthday == if r.Pass? then Some(ParseBirthday(text).value) else old(birthday)
    {
      var d := ParseBirthday(text);
      if d.Err? {
        return Fail(d.error);
      }
      birthday := Some(d.value);
      r := Pass;
    }

    /**
     * `find_phone`: the first stored phone equal to `v`, given by its position
     * (which identifies the stored Phone object), or None.
     */
    method FindPhone(v: string) returns (r: Option<nat>)
      ensures r.Some? ==> r.value < |phones| && phones[r.value] == v
      ensures r.Some? ==> forall j :: 0 <= j < r.value ==> phones[j] != v
      ensures r.None? <==> v !in phones
    {
      var i := 0;
      while i < |phones|
        invariant 0 <= i <= |phones|
        invariant forall j :: 0 <= j < i ==> phones[j] != v
      {
        if phones[i] == v {
          return Some(i);
        }
        i := i + 1;
      }
      return None;
    }

    /** `remove_phone`: removes the first stored copy of `v`; fails and changes nothing when absent. */
    method RemovePhone(v: string) returns (r: Outcome)
      requires Valid()
      modifies this`phones
      ensures Valid()
      ensures r == if v in old(phones) then Pass else Fail(PhoneNotFound)
      ensures phones == RemoveFirst(old(phones), v)
    {
      var found := FindPhone(v);
      if found.None? {
        return Fail(PhoneNotFound);
      }
      var i := found.value;
      assert IndexOf(phones, v) == Some(i);
      phones := phones[..i] + phones[i + 1..];
      r := Pass;
    }

    /**
     * `edit_phone`: when `phone` is stored, appends `newPhone` and then removes the
     * first `phone`. Fails first on an absent `phone`, then on an invalid `newPhone`,
     * and changes nothing when it fails.
     */
    method EditPhone(phone: string, newPhone: string) returns (r: Outcome)
      requires Valid()
      modifies this`phones
      ensures Valid()
      ensures r == if phone !in old(phones) then Fail(PhoneNotFound)
                   else if !IsValidPhone(newPhone) then Fail(InvalidPhoneFormat)
                   else Pass
      ensures phones == if r.Pass? then RemoveFirst(old(phones) + [newPhone], phone) else old(phones)
    {
      var found := FindPhone(phone);
      if found.None? {
        return Fail(PhoneNotFound);
      }
      r := AddPhone(newPhone);
      if r.Fail? {
        return;
      }
      r := RemovePhone(phone);
    }
  }
}

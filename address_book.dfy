/** The contact store (Task_1.py, class AddressBook): a dict from name to record, kept in insertion order. */
module Book {
  import opened Results
  import opened Text
  import opened Calendar
  import opened Contacts
  import opened Birthdays

  /** The position of the first key, in insertion order, equal to `name` once both are lower-cased. */
  function FirstMatch(keys: seq<string>, name: string): (r: Option<nat>)
    ensures r.Some? ==> r.value < |keys| && Lower(keys[r.value]) == Lower(name)
    ensures r.Some? ==> forall j :: 0 <= j < r.value ==> Lower(keys[j]) != Lower(name)
    ensures r.None? <==> forall j :: 0 <= j < |keys| ==> Lower(keys[j]) != Lower(name)
  {
    if keys == [] then None
    else if Lower(keys[0]) == Lower(name) then Some(0)
    else match FirstMatch(keys[1..], name)
      case Some(i) => Some(i + 1)
      case None => None
  }

  /** The key order of a dict after `d[k] = v`: a new key goes last, an existing key keeps its place. */
  function InsertKey(keys: seq<string>, k: string): (r: seq<string>)
    ensures |r| == if k in keys then |keys| else |keys| + 1
    ensures r[..|keys|] == keys
    ensures forall x :: x in r <==> x in keys || x == k
  {
    if k in keys then keys else keys + [k]
  }

  /** Names that differ only in letter case find the same entry. */
  lemma FindIgnoresCase(keys: seq<string>, a: string, b: string)
    requires Lower(a) == Lower(b)
    ensures FirstMatch(keys, a) == FirstMatch(keys, b)
  {
  }

  /**
   * After inserting key `k` into a book where no other key has the same
   * lower-case form, every case variant of `k` finds `k`.
   */
  lemma InsertedKeyIsFound(keys: seq<string>, k: string, q: string)
    requires forall j :: 0 <= j < |keys| && keys[j] != k ==> Lower(keys[j]) != Lower(k)
    requires Lower(q) == Lower(k)
    ensures FirstMatch(InsertKey(keys, k), q).Some?
    ensures InsertKey(keys, k)[FirstMatch(InsertKey(keys, k), q).value] == k
  {
    var ks := InsertKey(keys, k);
    assert k in ks;
    var i :| 0 <= i < |ks| && ks[i] == k;
    assert Lower(ks[i]) == Lower(q);
  }

  /**
   * Lines 95-99: each record's name and birthday, in key order. Reading the
   * birthday of a record that has none fails the whole list.
   */
  function Users(keys: seq<string>, data: map<string, Record>): (r: Result<seq<User>>)
    requires forall i :: 0 <= i < |keys| ==> keys[i] in data
    requires forall k :: k in data ==> data[k].Valid()
    reads data.Values
    ensures r.Err? <==> exists i :: 0 <= i < |keys| && data[keys[i]].birthday.None?
    ensures r.Err? ==> r.error == MissingBirthday
    ensures r.Ok? ==> |r.value| == |keys| && AllPyDates(r.value)
    ensures r.Ok? ==> forall i :: 0 <= i < |keys| ==>
              r.value[i] == User(data[keys[i]].name, data[keys[i]].birthday.value)
  {
    if keys == [] then Ok([])
    else
      var init := keys[..|keys| - 1];
      var rec := data[keys[|keys| - 1]];
      match Users(init, data)
      case Err(e) => Err(e)
      case Ok(us) =>
        if rec.birthday.None? then Err(MissingBirthday)
        else Ok(us + [User(rec.name, rec.birthday.value)])
  }

  class AddressBook {
    /** The dict's keys in insertion order. */
    var keys: seq<string>
    var data: map<string, Record>

    /** Keys are distinct and are exactly the dict's keys; each record is filed under its own name. */
    ghost predicate Valid()
      reads this, data.Values
    {
      (forall i, j :: 0 <= i < j < |keys| ==> keys[i] != keys[j]) &&
      (forall k :: k in data <==> k in keys) &&
      (forall k :: k in data ==> data[k].name == k && data[k].Valid())
    }

    constructor ()
      ensures Valid() && keys == [] && data == map[]
    {
      keys := [];
      data := map[];
    }

    /** `add_record`: files the record under its exact name, replacing only an entry with that same key. */
    method AddRecord(record: Record)
      requires Valid() && record.Valid()
      modifies this
      ensures Valid()
      ensures data == old(data)[record.name := record]
      ensures keys == InsertKey(old(keys), record.name)
    {
      if record.name !in data {
        keys := keys + [record.name];
      }
      data := data[record.name := record];
    }

    /** `find`: the record under the first key, in insertion order, that matches `name` ignoring case. */
    method Find(name: string) returns (r: Record?)
      requires Valid()
      ensures r == match FirstMatch(keys, name)
                   case Some(i) => data[keys[i]]
                   case None => null
    {
      var i := 0;
      while i < |keys|
        invariant 0 <= i <= |keys|
        invariant forall j :: 0 <= j < i ==> Lower(keys[j]) != Lower(name)
      {
        if Lower(keys[i]) == Lower(name) {
          return data[keys[i]];
        }
        i := i + 1;
      }
      return null;
    }

    /**
     * `get_upcoming_birthdays(days)` on the day `today`: fails if any record
     * has no birthday, otherwise greets the records whose next birthday is
     * within `days` days, in insertion order. The window is a week unless
     * the caller says otherwise.
     */
    method GetUpcomingBirthdays(today: Date, days: int := 7) returns (r: Result<seq<Greeting>>)
      requires Valid() && IsPyDate(today)
      ensures r == match Users(keys, data)
                   case Err(e) => Err(e)
                   case Ok(users) => UpcomingBirthdays(users, today, days)
    {
      var users: seq<User> := [];
      var i := 0;
      while i < |keys|
        invariant 0 <= i <= |keys|
        invariant Users(keys[..i], data) == Ok(users)
      {
        assert keys[..i + 1][..i] == keys[..i];
        var rec := data[keys[i]];
        if rec.birthday.None? {
          assert keys[i] == keys[..i + 1][i];
          UsersFailFromPrefix(keys, data, i + 1);
          return Err(MissingBirthday);
        }
        users := users + [User(rec.name, rec.birthday.value)];
        i := i + 1;
      }
      assert keys[..i] == keys;
      r := CollectGreetings(users, today, days);
    }
  }

  /** A record without a birthday among the first `k` fails the whole list. */
  lemma UsersFailFromPrefix(keys: seq<string>, data: map<string, Record>, k: nat)
    requires forall i :: 0 <= i < |keys| ==> keys[i] in data
    requires forall key :: key in data ==> data[key].Valid()
    requires k <= |keys| && Users(keys[..k], data).Err?
    ensures Users(keys, data).Err?
  {
    var i :| 0 <= i < k && data[keys[..k][i]].birthday.None?;
    assert keys[..k][i] == keys[i];
  }
}

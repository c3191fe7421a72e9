/**
 * The address book: records keyed by their name, iterated in insertion
 * order as a Python dict is, and the upcoming-birthdays query over them.
 */
module Book {
  import opened Wrappers
  import opened Calendar
  import opened Fields
  import opened Contacts
  import opened Reminders

  predicate Distinct(s: seq<string>) {
    forall i, j :: 0 <= i < j < |s| ==> s[i] != s[j]
  }

  /** `s` without the element `k`, the others kept in their order. */
  function Without(s: seq<string>, k: string): (r: seq<string>)
    ensures forall x :: x in r <==> x in s && x != k
    ensures Distinct(s) ==> Distinct(r)
  {
    if s == [] then []
    else if s[0] == k then Without(s[1..], k)
    else
      var rest := Without(s[1..], k);
      assert Distinct(s) ==> s[0] !in s[1..];
      [s[0]] + rest
  }

  /** Removing a key that is not there changes nothing. */
  lemma {:induction false} WithoutAbsent(s: seq<string>, k: string)
    requires k !in s
    ensures Without(s, k) == s
  {
    if s != [] {
      WithoutAbsent(s[1..], k);
      assert [s[0]] + s[1..] == s;
    }
  }

  /** In a list without repeats, removing a key removes exactly its one position. */
  lemma {:induction false} WithoutAt(s: seq<string>, k: string, i: nat)
    requires Distinct(s) && i < |s| && s[i] == k
    ensures Without(s, k) == s[..i] + s[i + 1..]
  {
    if i == 0 {
      assert k !in s[1..];
      WithoutAbsent(s[1..], k);
    } else {
      assert s[0] != k;
      WithoutAt(s[1..], k, i - 1);
      assert s[1..][..i - 1] == s[1..i];
      assert s[1..][i..] == s[i + 1..];
      assert [s[0]] + s[1..i] == s[..i];
    }
  }

  class AddressBook {
    /** The records, by the value of their name. */
    var data: map<string, Record>
    /** The keys in the order the dict iterates them: first insertion first. */
    var order: seq<string>

    ghost predicate Valid()
      reads this
    {
      && (forall k :: k in data <==> k in order)
      && Distinct(order)
      && (forall k :: k in data ==> data[k].name.value == k)
    }

    /** An empty book. */
    constructor ()
      ensures Valid() && data == map[] && order == []
      ensures RecordsValid()
    {
      data := map[];
      order := [];
    }

    /** `find`: the record stored under `name`, if any; it carries that name. */
    function Find(name: string): (r: Option<Record>)
      reads this
      ensures r.Some? <==> name in data
      ensures r.Some? ==> r.value == data[name]
      ensures Valid() && r.Some? ==> r.value.name.value == name
    {
      if name in data then Some(data[name]) else None
    }

    /** `add_record`: stores `rec` under its name. A record already there is replaced
        in place (the dict keeps that key's position); a new key goes last. */
    method AddRecord(rec: Record)
      requires Valid()
      modifies this
      ensures Valid()
      ensures data == old(data)[rec.name.value := rec]
      ensures order == if rec.name.value in old(data) then old(order) else old(order) + [rec.name.value]
      ensures Find(rec.name.value) == Some(rec)
      ensures forall k :: k != rec.name.value ==> Find(k) == old(Find(k))
      ensures rec.Valid() && old(RecordsValid()) ==> RecordsValid()
    {
      var key := rec.name.value;
      if key !in data {
        order := order + [key];
      }
      data := data[key := rec];
    }

    /** `delete`: removes the entry under `name`; for an absent name nothing changes. */
    method Delete(name: string)
      requires Valid()
      modifies this
      ensures Valid()
      ensures data == old(data) - {name}
      ensures order == Without(old(order), name)
      ensures name !in old(data) ==> data == old(data) && order == old(order)
      ensures Find(name) == None
      ensures forall k :: k != name ==> Find(k) == old(Find(k))
      ensures old(RecordsValid()) ==> RecordsValid()
    {
      if name in data {
        data := data - {name};
        order := Without(order, name);
      } else {
        WithoutAbsent(order, name);
      }
    }

    /** Every record keeps its own invariant. */
    ghost predicate RecordsValid()
      reads this, data.Values
    {
      forall k :: k in data ==> data[k].Valid()
    }

    /** What the query sees of the records under `keys`, in that order. */
    function ContactsOf(keys: seq<string>): (cs: seq<Contact>)
      reads this, data.Values
      requires forall k :: k in keys ==> k in data
      ensures |cs| == |keys|
      ensures forall i :: 0 <= i < |keys| ==>
        cs[i] == Contact(data[keys[i]].name.value, data[keys[i]].birthday)
    {
      if keys == [] then []
      else
        var rec := data[keys[|keys| - 1]];
        ContactsOf(keys[..|keys| - 1]) + [Contact(rec.name.value, rec.birthday)]
    }

    /** What the query sees of the whole book, in the book's order. */
    function ContactsInOrder(): (cs: seq<Contact>)
      reads this, data.Values
      requires Valid() && RecordsValid()
      ensures |cs| == |order| && AllValidContacts(cs)
      ensures forall i :: 0 <= i < |order| ==>
        cs[i] == Contact(data[order[i]].name.value, data[order[i]].birthday)
    {
      var cs := ContactsOf(order);
      assert AllValidContacts(cs) by {
        forall i | 0 <= i < |cs| ensures ValidContact(cs[i]) {
          assert data[order[i]].Valid();
        }
      }
      cs
    }

    /** `get_upcoming_birthdays(today)`: the reminders of the records, taken in the
        book's order; a birthday that cannot be moved into range aborts the query. */
    method GetUpcomingBirthdays(today: Date) returns (r: Result<seq<Upcoming>, Error>)
      requires Valid() && RecordsValid() && ValidDate(today)
      ensures r == UpcomingBirthdays(ContactsInOrder(), today)
    {
      r := CollectUpcoming(ContactsInOrder(), today);
    }
  }
}

/**
 * A contact record: one name, an ordered list of phones and an optional
 * birthday. The phone list and the birthday are changed in place.
 */
module Contacts {
  import opened Wrappers
  import opened Calendar
  import opened Fields

  /** Position of the first phone whose value is `key`, or None when no phone has it. */
  function FirstMatch(phones: seq<Phone>, key: string): (r: Option<nat>)
    ensures r.Some? ==> r.value < |phones| && phones[r.value].value == key
    ensures r.Some? ==> forall j :: 0 <= j < r.value ==> phones[j].value != key
    ensures r.None? ==> forall j :: 0 <= j < |phones| ==> phones[j].value != key
  {
    if phones == [] then None
    else if phones[0].value == key then Some(0)
    else match FirstMatch(phones[1..], key)
      case None => None
      case Some(i) => Some(i + 1)
  }

  /** A phone added at the end is found again by its own value; an earlier entry with
      the same value is found first. */
  lemma {:induction false} AppendedIsFound(phones: seq<Phone>, p: Phone)
    ensures FirstMatch(phones + [p], p.value).Some?
    ensures FirstMatch(phones, p.value).Some? ==>
      FirstMatch(phones + [p], p.value) == FirstMatch(phones, p.value)
  {
    if phones != [] {
      assert (phones + [p])[1..] == phones[1..] + [p];
      AppendedIsFound(phones[1..], p);
    }
  }

  /** `'; '.join(p.value for p in phones)`. */
  function JoinPhones(phones: seq<Phone>): string
  {
    if phones == [] then ""
    else if |phones| == 1 then phones[0].value
    else JoinPhones(phones[..|phones| - 1]) + "; " + phones[|phones| - 1].value
  }

  predicate AllValidPhones(phones: seq<Phone>) {
    forall i :: 0 <= i < |phones| ==> IsValidPhone(phones[i].value)
  }

  /** The joined phones have a fixed layout: phone i occupies characters 12i to 12i+9,
      and "; " stands between neighbours, so the list can be read back from the text. */
  lemma {:induction false} JoinLayout(phones: seq<Phone>)
    requires AllValidPhones(phones)
    ensures |JoinPhones(phones)| == (if phones == [] then 0 else 12 * |phones| - 2)
    ensures forall i :: 0 <= i < |phones| ==> JoinPhones(phones)[12 * i..12 * i + 10] == phones[i].value
    ensures forall i :: 0 <= i < |phones| - 1 ==> JoinPhones(phones)[12 * i + 10..12 * i + 12] == "; "
  {
    if |phones| > 1 {
      var init := phones[..|phones| - 1];
      JoinLayout(init);
      var t := JoinPhones(init);
      var s := JoinPhones(phones);
      var n := |phones|;
      assert s == t + "; " + phones[n - 1].value;
      forall i | 0 <= i < n ensures s[12 * i..12 * i + 10] == phones[i].value {
        if i < n - 1 {
          assert s[12 * i..12 * i + 10] == t[12 * i..12 * i + 10];
          assert init[i] == phones[i];
        }
      }
      forall i | 0 <= i < n - 1 ensures s[12 * i + 10..12 * i + 12] == "; " {
        if i < n - 2 {
          assert s[12 * i + 10..12 * i + 12] == t[12 * i + 10..12 * i + 12];
        }
      }
    }
  }

  class Record {
    const name: Name
    var phones: seq<Phone>
    var birthday: Option<Birthday>

    /** What every record built through this interface keeps. */
    ghost predicate Valid()
      reads this
    {
      && ValidName(name)
      && AllValidPhones(phones)
      && (birthday.Some? ==> ValidDate(birthday.value.value))
    }

    /** A record with a validated name, no phones and no birthday. */
    constructor (name: Name)
      requires ValidName(name)
      ensures Valid()
      ensures this.name == name && phones == [] && birthday == None
    {
      this.name := name;
      phones := [];
      birthday := None;
    }

    /** `Record(name)`: fails like `Name(name)` does. */
    static method Create(raw: string) returns (r: Result<Record, Error>)
      ensures r.Failure? <==> ParseName(raw).Failure?
      ensures r.Failure? ==> r.error == ParseName(raw).error
      ensures r.Success? ==> fresh(r.value) && r.value.Valid()
      ensures r.Success? ==> r.value.name == ParseName(raw).value
      ensures r.Success? ==> r.value.phones == [] && r.value.birthday == None
    {
      match ParseName(raw)
      case Failure(e) =>
        r := Failure(e);
      case Success(n) =>
        var rec := new Record(n);
        r := Success(rec);
    }

    /** `add_phone`: appends the validated phone, duplicates included; on an invalid
        number nothing changes. */
    method AddPhone(raw: string) returns (r: Outcome<Error>)
      requires Valid()
      modifies this
      ensures Valid() && birthday == old(birthday)
      ensures r.Pass? <==> ParsePhone(raw).Success?
      ensures r.Pass? ==> phones == old(phones) + [ParsePhone(raw).value]
      ensures r.Fail? ==> r.error == PhoneNeedsTenDigits && phones == old(phones)
      ensures r.Pass? ==> FirstMatch(phones, Digits(raw)).Some?
    {
      match ParsePhone(raw)
      case Failure(e) =>
        r := Fail(e);
      case Success(p) =>
        AppendedIsFound(phones, p);
        phones := phones + [p];
        r := Pass;
    }

    /** `find_phone`: the position of the first phone equal to the digits of `raw`. */
    method FindPhone(raw: string) returns (r: Option<nat>)
      ensures r == FirstMatch(phones, Digits(raw))
    {
      var cleaned := Digits(raw);
      var i := 0;
      while i < |phones|
        invariant 0 <= i <= |phones|
        invariant forall j :: 0 <= j < i ==> phones[j].value != cleaned
      {
        if phones[i].value == cleaned {
          return Some(i);
        }
        i := i + 1;
      }
      return None;
    }

    /** `remove_phone`: drops the first matching phone and keeps the others in order;
        without a match it fails and nothing changes. */
    method RemovePhone(raw: string) returns (r: Outcome<Error>)
      requires Valid()
      modifies this
      ensures Valid() && birthday == old(birthday)
      ensures r.Pass? <==> FirstMatch(old(phones), Digits(raw)).Some?
      ensures r.Fail? ==> r.error == PhoneNotFound && phones == old(phones)
      ensures r.Pass? ==>
        var i := FirstMatch(old(phones), Digits(raw)).value;
        |phones| == |old(phones)| - 1 && phones == old(phones)[..i] + old(phones)[i + 1..]
    {
      var found := FindPhone(raw);
      match found
      case None =>
        r := Fail(PhoneNotFound);
      case Some(i) =>
        phones := phones[..i] + phones[i + 1..];
        r := Pass;
    }

    /** `edit_phone`: gives the first phone matching `oldRaw` the value of `newRaw`.
        It fails with nothing changed when no phone matches (checked first) or when
        `newRaw` is not a valid phone. */
    method EditPhone(oldRaw: string, newRaw: string) returns (r: Outcome<Error>)
      requires Valid()
      modifies this
      ensures Valid() && birthday == old(birthday)
      ensures FirstMatch(old(phones), Digits(oldRaw)).None? ==>
        r == Fail(PhoneNotFound) && phones == old(phones)
      ensures FirstMatch(old(phones), Digits(oldRaw)).Some? && ParsePhone(newRaw).Failure? ==>
        r == Fail(PhoneNeedsTenDigits) && phones == old(phones)
      ensures r.Pass? <==> FirstMatch(old(phones), Digits(oldRaw)).Some? && ParsePhone(newRaw).Success?
      ensures r.Pass? ==>
        var i := FirstMatch(old(phones), Digits(oldRaw)).value;
        |phones| == |old(phones)| && phones == old(phones)[i := ParsePhone(newRaw).value]
    {
      var found := FindPhone(oldRaw);
      match found
      case None =>
        r := Fail(PhoneNotFound);
      case Some(i) =>
        match ParsePhone(newRaw)
        case Failure(e) =>
          r := Fail(e);
        case Success(p) =>
          phones := phones[i := p];
          r := Pass;
    }

    /** `add_birthday`: sets or replaces the birthday; on invalid text nothing changes. */
    method AddBirthday(raw: string) returns (r: Outcome<Error>)
      requires Valid()
      modifies this
      ensures Valid() && phones == old(phones)
      ensures r.Pass? <==> ParseBirthday(raw).Success?
      ensures r.Pass? ==> birthday == Some(ParseBirthday(raw).value)
      ensures r.Fail? ==> r.error == InvalidDateFormat && birthday == old(birthday)
    {
      match ParseBirthday(raw)
      case Failure(e) =>
        r := Fail(e);
      case Success(b) =>
        birthday := Some(b);
        r := Pass;
    }

    /** `__str__`: "Contact name: <name>, phones: <p1>; <p2>...[, birthday: DD.MM.YYYY]".
        Each phone sits at a fixed place after the head, "; " between neighbours; the
        birthday part is there exactly when a birthday is set, and can be told apart
        from the phones by the dot eight characters from the end. */
    function ToString(): (s: string)
      reads this
      requires Valid()
      ensures IsRecordText(s, name, phones, birthday)
    {
      RenderText(name, phones, birthday, Render(name, phones, birthday));
      Render(name, phones, birthday)
    }
  }

  /** The text of a record with these fields. */
  function Render(name: Name, phones: seq<Phone>, birthday: Option<Birthday>): string
    requires birthday.Some? ==> ValidDate(birthday.value.value)
  {
    var tail := if birthday.Some? then ", birthday: " + FormatDate(birthday.value.value) else "";
    Head(name) + JoinPhones(phones) + tail
  }

  /** The layout of `s` as the text of a record with these fields: the head
      "Contact name: <name>, phones: ", then phone i at offset 12i after the head with
      "; " between neighbours, then ", birthday: DD.MM.YYYY" exactly when a birthday is
      set; that part can be told apart from the phones by the dot eight characters from
      the end. */
  predicate IsRecordText(s: string, name: Name, phones: seq<Phone>, birthday: Option<Birthday>)
    requires birthday.Some? ==> ValidDate(birthday.value.value)
  {
    && |s| == |Head(name)| + (if phones == [] then 0 else 12 * |phones| - 2)
                           + (if birthday.Some? then 22 else 0)
    && s[..|Head(name)|] == Head(name)
    && (forall i :: 0 <= i < |phones| ==>
          s[|Head(name)| + 12 * i..|Head(name)| + 12 * i + 10] == phones[i].value)
    && (forall i :: 0 <= i < |phones| - 1 ==>
          s[|Head(name)| + 12 * i + 10..|Head(name)| + 12 * i + 12] == "; ")
    && (phones == [] && birthday.None? ==> s == Head(name))
    && (birthday.Some? <==> s[|s| - 8] == '.')
    && (birthday.Some? ==> s[|s| - 22..] == ", birthday: " + FormatDate(birthday.value.value))
  }

  /** The rendered text has the layout of a record's text. */
  lemma RenderText(name: Name, phones: seq<Phone>, birthday: Option<Birthday>, s: string)
    requires AllValidPhones(phones)
    requires birthday.Some? ==> ValidDate(birthday.value.value)
    requires s == Render(name, phones, birthday)
    ensures IsRecordText(s, name, phones, birthday)
  {
    var tail := if birthday.Some? then ", birthday: " + FormatDate(birthday.value.value) else "";
    TextLayout(Head(name), phones, tail, s);
  }

  /** Head, joined phones and tail, where the tail is empty or the birthday part: each
      phone and each separator at its fixed place after the head, and the tail told apart
      from the phones by the dot eight characters from the end. */
  lemma TextLayout(head: string, phones: seq<Phone>, tail: string, s: string)
    requires AllValidPhones(phones)
    requires |head| >= 10 && head[|head| - 8] != '.'
    requires tail == [] || (|tail| == 22 && tail[14] == '.')
    requires s == head + JoinPhones(phones) + tail
    ensures |s| == |head| + (if phones == [] then 0 else 12 * |phones| - 2) + |tail|
    ensures s[..|head|] == head
    ensures forall i :: 0 <= i < |phones| ==>
      s[|head| + 12 * i..|head| + 12 * i + 10] == phones[i].value
    ensures forall i :: 0 <= i < |phones| - 1 ==>
      s[|head| + 12 * i + 10..|head| + 12 * i + 12] == "; "
    ensures phones == [] && tail == [] ==> s == head
    ensures tail != [] <==> s[|s| - 8] == '.'
    ensures s[|s| - |tail|..] == tail
  {
    JoinLayout(phones);
    if phones != [] {
      JoinedEndsInDigit(phones);
    }
    RenderLayout(head, JoinPhones(phones), tail, s);
    RenderPhones(head, JoinPhones(phones), tail, s, phones);
    RenderSeparators(head, JoinPhones(phones), tail, s, |phones|);
  }

  /** The start of a record's text, before its phones. */
  function Head(name: Name): string {
    "Contact name: " + name.value + ", phones: "
  }

  /** The middle part of a three-part text, read back by its own positions. */
  lemma MiddleSlice(head: string, mid: string, tail: string, lo: int, hi: int)
    requires 0 <= lo <= hi <= |mid|
    ensures (head + mid + tail)[|head| + lo..|head| + hi] == mid[lo..hi]
  {
    assert (head + mid + tail)[|head| + lo..|head| + hi] == (head + mid)[|head| + lo..|head| + hi];
  }

  /** Each phone of the joined list sits at its fixed place after the head. */
  lemma RenderPhones(head: string, joined: string, tail: string, s: string, phones: seq<Phone>)
    requires s == head + joined + tail
    requires |joined| == (if phones == [] then 0 else 12 * |phones| - 2)
    requires forall i :: 0 <= i < |phones| ==> joined[12 * i..12 * i + 10] == phones[i].value
    ensures forall i :: 0 <= i < |phones| ==> s[|head| + 12 * i..|head| + 12 * i + 10] == phones[i].value
  {
    forall i | 0 <= i < |phones| ensures s[|head| + 12 * i..|head| + 12 * i + 10] == phones[i].value {
      MiddleSlice(head, joined, tail, 12 * i, 12 * i + 10);
    }
  }

  /** "; " stands between neighbouring phones after the head. */
  lemma RenderSeparators(head: string, joined: string, tail: string, s: string, n: nat)
    requires s == head + joined + tail
    requires |joined| == (if n == 0 then 0 else 12 * n - 2)
    requires forall i :: 0 <= i < n - 1 ==> joined[12 * i + 10..12 * i + 12] == "; "
    ensures forall i :: 0 <= i < n - 1 ==> s[|head| + 12 * i + 10..|head| + 12 * i + 12] == "; "
  {
    forall i | 0 <= i < n - 1 ensures s[|head| + 12 * i + 10..|head| + 12 * i + 12] == "; " {
      MiddleSlice(head, joined, tail, 12 * i + 10, 12 * i + 12);
    }
  }

  /** The length, the head and the tail of head, joined phones and tail, with the tail
      either empty or the birthday part, whose dot is eight characters from its end;
      neither the head nor the joined phones have a dot there. */
  lemma RenderLayout(head: string, joined: string, tail: string, s: string)
    requires |head| >= 10 && head[|head| - 8] != '.'
    requires joined == [] || (|joined| >= 10 && joined[|joined| - 8] != '.')
    requires tail == [] || (|tail| == 22 && tail[14] == '.')
    requires s == head + joined + tail
    ensures |s| == |head| + |joined| + |tail|
    ensures s[..|head|] == head
    ensures tail != [] <==> s[|s| - 8] == '.'
    ensures s[|s| - |tail|..] == tail
  {
    assert s[..|head|] == head;
    assert s[|s| - |tail|..] == tail;
    if tail != [] {
      assert s[|s| - 8] == tail[14];
    } else if joined != [] {
      assert s[|s| - 8] == joined[|joined| - 8];
    } else {
      assert s[|s| - 8] == head[|head| - 8];
    }
  }

  /** The joined phones end with the last phone, so eight characters from their end
      is a digit. */
  lemma JoinedEndsInDigit(phones: seq<Phone>)
    requires AllValidPhones(phones) && phones != []
    ensures |JoinPhones(phones)| >= 10 && IsDigit(JoinPhones(phones)[|JoinPhones(phones)| - 8])
  {
    var last := phones[|phones| - 1].value;
    assert IsValidPhone(last);
    var joined := JoinPhones(phones);
    assert joined[|joined| - 10..] == last;
    assert joined[|joined| - 8] == last[2];
  }

}

/**
 * The date arithmetic of the upcoming-birthdays query: where a birthday
 * falls next, whether it is within a week, and the weekday it is
 * celebrated on. `today` is a parameter instead of the system clock.
 */
module Reminders {
  import opened Wrappers
  import opened Calendar
  import opened Fields

  /** One line of the query's answer: a name and the congratulation date as DD.MM.YYYY. */
  datatype Upcoming = Upcoming(name: string, congratulationDate: string)

  /** What the query reads from a record: its name and its birthday, if set. */
  datatype Contact = Contact(name: string, birthday: Option<Birthday>)

  /** Contacts as records hold them: a set birthday is a date Python can represent. */
  predicate ValidContact(c: Contact) {
    c.birthday.Some? ==> ValidDate(c.birthday.value.value)
  }

  /** The leap-day rule: a birthday's month and day moved into year `y`, with
      February 29 becoming February 28 in a year that has no such day
      (`replace(year=y)`, and `replace(year=y, day=28)` when that raises).
      None when `y` is outside the years a date can hold, where both raise. */
  function MoveToYear(b: Date, y: int): (r: Option<Date>)
    requires ValidDate(b)
    ensures r.None? <==> !(1 <= y <= MaxYear)
    ensures r.Some? ==> ValidDate(r.value) && r.value.year == y && r.value.month == b.month
    ensures r.Some? && !(b.month == 2 && b.day == 29) ==> r.value.day == b.day
    ensures r.Some? && b.month == 2 && b.day == 29 ==> r.value.day == (if IsLeap(y) then 29 else 28)
  {
    if !(1 <= y <= MaxYear) then None
    else if IsCalendarDate(Date(y, b.month, b.day)) then Some(Date(y, b.month, b.day))
    else Some(Date(y, b.month, 28))
  }

  /** The birthday's next occurrence on or after `today`: this year's, or next year's when
      this year's has passed. None when next year is past the last year a date can hold. */
  function NextBirthday(b: Date, today: Date): (r: Option<Date>)
    requires ValidDate(b) && ValidDate(today)
    ensures var thisYear := MoveToYear(b, today.year).value;
      && (r.None? <==> today.year == MaxYear && Before(thisYear, today))
      && (r.Some? ==> ValidDate(r.value) && !Before(r.value, today))
      && (r.Some? ==> DayNumber(today) <= DayNumber(r.value))
      && (r.Some? ==> r.value == if Before(thisYear, today) then MoveToYear(b, today.year + 1).value else thisYear)
  {
    var thisYear := MoveToYear(b, today.year).value;
    var r := if !Before(thisYear, today) then Some(thisYear) else MoveToYear(b, today.year + 1);
    if r.Some? then
      BeforeIffEarlier(r.value, today);
      r
    else
      r
  }

  /** The date to congratulate on: a Saturday moves on two days and a Sunday one,
      both to the Monday after; a weekday stays. */
  function CongratulationDate(c: Date): (g: Date)
    requires IsCalendarDate(c)
    ensures IsCalendarDate(g) && Weekday(g) < 5
    ensures 0 <= DayNumber(g) - DayNumber(c) <= 2
    ensures Weekday(c) < 5 ==> g == c
    ensures Weekday(c) >= 5 ==> Weekday(g) == 0
  {
    var w := Weekday(c);
    if w == 5 then
      var sunday := NextDay(c);
      assert Weekday(sunday) == 6;
      NextDay(sunday)
    else if w == 6 then NextDay(c)
    else c
  }

  /** Moving a date off a weekend never leaves the years a date can hold:
      the last representable day, 9999-12-31, is a Friday. */
  lemma CongratulationInRange(c: Date)
    requires ValidDate(c)
    ensures ValidDate(CongratulationDate(c))
  {
    var g := CongratulationDate(c);
    if g.year > MaxYear {
      var last := Date(MaxYear, 12, 31);
      LastDayIsFriday();
      BeforeIffEarlier(c, last);
      BeforeIffEarlier(last, g);
    }
  }

  /** One pass of the query's loop for one contact: no line for a contact without a
      birthday or with one more than seven days away, YearOutOfRange where Python's
      `replace` raises, and otherwise the name with the congratulation date. */
  function Reminder(c: Contact, today: Date): (r: Result<Option<Upcoming>, Error>)
    requires ValidContact(c) && ValidDate(today)
    ensures r.Failure? ==> c.birthday.Some? && r.error == YearOutOfRange
    ensures r.Success? && r.value.Some? ==> r.value.value.name == c.name
  {
    match c.birthday
    case None => Success(None)
    case Some(b) =>
      match NextBirthday(b.value, today)
      case None => Failure(YearOutOfRange)
      case Some(next) =>
        var daysUntil := DayNumber(next) - DayNumber(today);
        if 0 <= daysUntil <= 7 then
          CongratulationInRange(next);
          Success(Some(Upcoming(c.name, FormatDate(CongratulationDate(next)))))
        else Success(None)
  }

  /** What a contact contributes: nothing without a birthday; otherwise a line exactly
      when the next birthday is at most seven days away (it is never in the past), and
      that line carries the contact's name and a weekday at most two days after it. */
  lemma ReminderWindow(c: Contact, today: Date)
    requires ValidContact(c) && ValidDate(today)
    ensures c.birthday.None? ==> Reminder(c, today) == Success(None)
    ensures Reminder(c, today).Failure? <==>
      c.birthday.Some? && NextBirthday(c.birthday.value.value, today).None?
    ensures c.birthday.Some? && NextBirthday(c.birthday.value.value, today).Some? ==>
      var next := NextBirthday(c.birthday.value.value, today).value;
      var g := CongratulationDate(next);
      && 0 <= DayNumber(next) - DayNumber(today)
      && (Reminder(c, today) == Success(None) <==> DayNumber(next) - DayNumber(today) > 7)
      && (Reminder(c, today).value.Some? ==>
            && ValidDate(g) && Weekday(g) < 5 && 0 <= DayNumber(g) - DayNumber(next) <= 2
            && Reminder(c, today).value.value == Upcoming(c.name, FormatDate(g)))
  {
    if c.birthday.Some? && NextBirthday(c.birthday.value.value, today).Some? {
      CongratulationInRange(NextBirthday(c.birthday.value.value, today).value);
    }
  }

  predicate AllValidContacts(cs: seq<Contact>) {
    forall i :: 0 <= i < |cs| ==> ValidContact(cs[i])
  }

  /** Each contact's reminder, in the contacts' order. */
  function RemindersOf(cs: seq<Contact>, today: Date): (steps: seq<Result<Option<Upcoming>, Error>>)
    requires AllValidContacts(cs) && ValidDate(today)
    ensures |steps| == |cs|
    ensures forall i :: 0 <= i < |cs| ==> steps[i] == Reminder(cs[i], today)
  {
    if cs == [] then []
    else RemindersOf(cs[..|cs| - 1], today) + [Reminder(cs[|cs| - 1], today)]
  }

  /** One more reminder folded into the answer so far: an earlier failure stands,
      a failing reminder aborts, a line goes at the end. */
  function Collect(acc: Result<seq<Upcoming>, Error>, step: Result<Option<Upcoming>, Error>): (r: Result<seq<Upcoming>, Error>)
    ensures acc.Failure? ==> r == acc
    ensures acc.Success? ==> (r.Success? <==> step.Success?)
    ensures acc.Success? && step.Failure? ==> r == Failure(step.error)
    ensures r.Success? ==> acc.Success? && step.Success?
    ensures r.Success? ==> r.value == acc.value + (if step.value.Some? then [step.value.value] else [])
  {
    match acc
    case Failure(e) => Failure(e)
    case Success(lines) =>
      match step
      case Failure(e) => Failure(e)
      case Success(None) => Success(lines)
      case Success(Some(u)) => Success(lines + [u])
  }

  /** The reminders folded in order: the lines they yield, or the first error. */
  function Gather(steps: seq<Result<Option<Upcoming>, Error>>): (r: Result<seq<Upcoming>, Error>)
    ensures r.Success? ==> |r.value| <= |steps|
    ensures r.Failure? ==> exists i :: 0 <= i < |steps| && steps[i] == Failure(r.error)
  {
    if steps == [] then Success([])
    else
      var init := steps[..|steps| - 1];
      assert forall i :: 0 <= i < |init| ==> steps[i] == init[i];
      Collect(Gather(init), steps[|steps| - 1])
  }

  /** `get_upcoming_birthdays`: the contacts' lines in the order given; the first
      contact whose birthday cannot be moved into range aborts the whole query. */
  function UpcomingBirthdays(cs: seq<Contact>, today: Date): (r: Result<seq<Upcoming>, Error>)
    requires AllValidContacts(cs) && ValidDate(today)
    ensures r.Success? ==> |r.value| <= |cs|
    ensures r.Failure? ==> r.error == YearOutOfRange
  {
    Gather(RemindersOf(cs, today))
  }

  /** Folding a concatenation: a failure in the first part is the answer, then one in
      the second part; otherwise the two parts' lines, first part first. */
  lemma {:induction false} GatherConcat(a: seq<Result<Option<Upcoming>, Error>>, b: seq<Result<Option<Upcoming>, Error>>)
    ensures Gather(a).Failure? ==> Gather(a + b) == Gather(a)
    ensures Gather(a).Success? && Gather(b).Failure? ==> Gather(a + b) == Gather(b)
    ensures Gather(a).Success? && Gather(b).Success? ==>
      Gather(a + b) == Success(Gather(a).value + Gather(b).value)
    decreases |b|
  {
    if b == [] {
      assert a + b == a;
      if Gather(a).Success? {
        assert Gather(a).value + [] == Gather(a).value;
      }
    } else {
      var init := b[..|b| - 1];
      var last := b[|b| - 1];
      assert (a + b)[..|a + b| - 1] == a + init;
      assert (a + b)[|a + b| - 1] == last;
      GatherConcat(a, init);
      if Gather(a).Success? && Gather(init).Success? && last.Success? && last.value.Some? {
        var x := Gather(a).value;
        var y := Gather(init).value;
        assert x + y + [last.value.value] == x + (y + [last.value.value]);
      }
    }
  }

  /** Folding one more reminder onto a prefix. */
  lemma GatherPrefixStep(steps: seq<Result<Option<Upcoming>, Error>>, i: nat)
    requires i < |steps|
    ensures Gather(steps[..i + 1]) == Collect(Gather(steps[..i]), steps[i])
  {
    assert steps[..i + 1][..i] == steps[..i];
  }

  /** A failure in a prefix is the answer for the whole sequence. */
  lemma GatherPrefixFailure(steps: seq<Result<Option<Upcoming>, Error>>, n: nat)
    requires n <= |steps| && Gather(steps[..n]).Failure?
    ensures Gather(steps) == Gather(steps[..n])
  {
    assert steps[..n] + steps[n..] == steps;
    GatherConcat(steps[..n], steps[n..]);
  }

  /** Every line of the fold is some reminder's line. */
  lemma {:induction false} GatherSound(steps: seq<Result<Option<Upcoming>, Error>>, k: nat)
    requires Gather(steps).Success? && k < |Gather(steps).value|
    ensures exists i :: 0 <= i < |steps| && steps[i] == Success(Some(Gather(steps).value[k]))
  {
    var init := steps[..|steps| - 1];
    if k < |Gather(init).value| {
      GatherSound(init, k);
      var i :| 0 <= i < |init| && init[i] == Success(Some(Gather(init).value[k]));
      assert steps[i] == init[i];
    }
  }

  /** Every reminder's line is in the fold. */
  lemma {:induction false} GatherComplete(steps: seq<Result<Option<Upcoming>, Error>>, i: nat, u: Upcoming)
    requires Gather(steps).Success? && i < |steps| && steps[i] == Success(Some(u))
    ensures u in Gather(steps).value
  {
    var init := steps[..|steps| - 1];
    if i < |init| {
      assert init[i] == steps[i];
      GatherComplete(init, i, u);
    }
  }

  /** The fold fails exactly when some reminder fails. */
  lemma {:induction false} GatherFailure(steps: seq<Result<Option<Upcoming>, Error>>)
    ensures Gather(steps).Failure? <==> exists i :: 0 <= i < |steps| && steps[i].Failure?
  {
    if steps != [] {
      var init := steps[..|steps| - 1];
      GatherFailure(init);
      if exists i :: 0 <= i < |init| && init[i].Failure? {
        var i :| 0 <= i < |init| && init[i].Failure?;
        assert steps[i] == init[i];
      }
      if exists i :: 0 <= i < |steps| && steps[i].Failure? {
        var i :| 0 <= i < |steps| && steps[i].Failure?;
        if i < |init| {
          assert steps[i] == init[i];
        }
      }
    }
  }

  /** The query over a concatenation: a failure in the first part is the answer, then
      one in the second; otherwise the answers concatenated, so lines follow the contacts' order. */
  lemma UpcomingConcat(a: seq<Contact>, b: seq<Contact>, today: Date)
    requires AllValidContacts(a) && AllValidContacts(b) && ValidDate(today)
    ensures AllValidContacts(a + b)
    ensures UpcomingBirthdays(a, today).Failure? ==>
      UpcomingBirthdays(a + b, today) == UpcomingBirthdays(a, today)
    ensures UpcomingBirthdays(a, today).Success? && UpcomingBirthdays(b, today).Failure? ==>
      UpcomingBirthdays(a + b, today) == UpcomingBirthdays(b, today)
    ensures UpcomingBirthdays(a, today).Success? && UpcomingBirthdays(b, today).Success? ==>
      UpcomingBirthdays(a + b, today) ==
        Success(UpcomingBirthdays(a, today).value + UpcomingBirthdays(b, today).value)
  {
    assert AllValidContacts(a + b) by {
      forall i | 0 <= i < |a + b| ensures ValidContact((a + b)[i]) {
        if i >= |a| {
          assert (a + b)[i] == b[i - |a|];
        }
      }
    }
    var ra := RemindersOf(a, today);
    var rb := RemindersOf(b, today);
    assert RemindersOf(a + b, today) == ra + rb by {
      forall i | 0 <= i < |a + b| ensures RemindersOf(a + b, today)[i] == (ra + rb)[i] {
        if i >= |a| {
          assert (a + b)[i] == b[i - |a|];
        }
      }
    }
    GatherConcat(ra, rb);
  }

  /** Every line of the answer comes from some contact's own reminder. */
  lemma UpcomingSound(cs: seq<Contact>, today: Date, k: nat)
    requires AllValidContacts(cs) && ValidDate(today)
    requires UpcomingBirthdays(cs, today).Success? && k < |UpcomingBirthdays(cs, today).value|
    ensures exists i :: 0 <= i < |cs| && Reminder(cs[i], today) == Success(Some(UpcomingBirthdays(cs, today).value[k]))
  {
    var steps := RemindersOf(cs, today);
    GatherSound(steps, k);
    var i :| 0 <= i < |steps| && steps[i] == Success(Some(Gather(steps).value[k]));
    assert Reminder(cs[i], today) == steps[i];
  }

  /** Every contact whose reminder yields a line has that line in the answer. */
  lemma UpcomingComplete(cs: seq<Contact>, today: Date, i: nat)
    requires AllValidContacts(cs) && ValidDate(today) && i < |cs|
    requires UpcomingBirthdays(cs, today).Success? && Reminder(cs[i], today).Success?
    requires Reminder(cs[i], today).value.Some?
    ensures Reminder(cs[i], today).value.value in UpcomingBirthdays(cs, today).value
  {
    GatherComplete(RemindersOf(cs, today), i, Reminder(cs[i], today).value.value);
  }

  /** The query fails exactly when some contact's reminder fails. */
  lemma UpcomingFailure(cs: seq<Contact>, today: Date)
    requires AllValidContacts(cs) && ValidDate(today)
    ensures UpcomingBirthdays(cs, today).Failure? <==>
      exists i :: 0 <= i < |cs| && Reminder(cs[i], today).Failure?
  {
    var steps := RemindersOf(cs, today);
    GatherFailure(steps);
    if exists i :: 0 <= i < |steps| && steps[i].Failure? {
      var i :| 0 <= i < |steps| && steps[i].Failure?;
      assert Reminder(cs[i], today).Failure?;
    }
    if exists i :: 0 <= i < |cs| && Reminder(cs[i], today).Failure? {
      var i :| 0 <= i < |cs| && Reminder(cs[i], today).Failure?;
      assert steps[i].Failure?;
    }
  }

  /** The loop of `get_upcoming_birthdays` over the contacts in the book's order:
      it keeps the lines found so far and stops at the first contact in error. */
  method CollectUpcoming(cs: seq<Contact>, today: Date) returns (r: Result<seq<Upcoming>, Error>)
    requires AllValidContacts(cs) && ValidDate(today)
    ensures r == UpcomingBirthdays(cs, today)
  {
    ghost var steps := RemindersOf(cs, today);
    var lines: seq<Upcoming> := [];
    var i := 0;
    while i < |cs|
      invariant 0 <= i <= |cs|
      invariant Gather(steps[..i]) == Success(lines)
    {
      GatherPrefixStep(steps, i);
      var step := Reminder(cs[i], today);
      if step.Failure? {
        GatherPrefixFailure(steps, i + 1);
        return Failure(step.error);
      }
      if step.value.Some? {
        lines := lines + [step.value.value];
      }
      i := i + 1;
    }
    assert steps[..i] == steps;
    r := Success(lines);
  }

  /** Day numbers of the dates in the examples below. */
  lemma ExampleDayNumbers()
    ensures DayNumber(Date(2025, 2, 25)) == 739306
    ensures DayNumber(Date(2025, 2, 28)) == 739309
    ensures DayNumber(Date(2025, 3, 10)) == 739319
    ensures DayNumber(Date(2025, 3, 12)) == 739321
    ensures DayNumber(Date(2025, 3, 15)) == 739324
    ensures DayNumber(Date(2026, 1, 1)) == 739616
  {
  }

  lemma PaddedYear2025()
    ensures Padded(2025, 4) == "2025"
  {
    assert Padded(2, 1) == "2";
    assert Padded(20, 2) == "20";
    assert Padded(202, 3) == "202";
  }

  lemma PaddedTwoDigits(n: nat)
    requires n < 100
    ensures Padded(n, 2) == [DigitChar(n / 10), DigitChar(n % 10)]
  {
    assert Padded(n / 10, 1) == [DigitChar(n / 10)];
  }

  lemma FormatMarch12()
    ensures FormatDate(Date(2025, 3, 12)) == "12.03.2025"
  {
    PaddedTwoDigits(12);
    PaddedTwoDigits(3);
    PaddedYear2025();
  }

  lemma FormatMarch17()
    ensures FormatDate(Date(2025, 3, 17)) == "17.03.2025"
  {
    PaddedTwoDigits(17);
    PaddedTwoDigits(3);
    PaddedYear2025();
  }

  lemma FormatFebruary28()
    ensures FormatDate(Date(2025, 2, 28)) == "28.02.2025"
  {
    PaddedTwoDigits(28);
    PaddedTwoDigits(2);
    PaddedYear2025();
  }

  /** Seen from Monday 10.03.2025, a birthday on Wednesday 12.03 is announced for that day. */
  lemma ScenarioWeekday()
    ensures Reminder(Contact("Ann", Some(Birthday(Date(2025, 3, 12)))), Date(2025, 3, 10))
      == Success(Some(Upcoming("Ann", "12.03.2025")))
  {
    var wednesday := Date(2025, 3, 12);
    ExampleDayNumbers();
    FormatMarch12();
    assert NextBirthday(wednesday, Date(2025, 3, 10)) == Some(wednesday);
    assert Weekday(wednesday) == 2;
  }

  /** Seen from Monday 10.03.2025, a birthday on Saturday 15.03 is announced for Monday 17.03. */
  lemma ScenarioSaturday()
    ensures Reminder(Contact("Bob", Some(Birthday(Date(2025, 3, 15)))), Date(2025, 3, 10))
      == Success(Some(Upcoming("Bob", "17.03.2025")))
  {
    var saturday := Date(2025, 3, 15);
    ExampleDayNumbers();
    FormatMarch17();
    assert NextBirthday(saturday, Date(2025, 3, 10)) == Some(saturday);
    assert Weekday(saturday) == 5;
    assert NextDay(saturday) == Date(2025, 3, 16);
    assert CongratulationDate(saturday) == Date(2025, 3, 17);
  }

  /** Seen from 10.03.2025, a birthday on 1 January has passed and is next on 01.01.2026:
      out of the week, so not announced. */
  lemma ScenarioPassed()
    ensures NextBirthday(Date(2000, 1, 1), Date(2025, 3, 10)) == Some(Date(2026, 1, 1))
    ensures Reminder(Contact("Cid", Some(Birthday(Date(2000, 1, 1)))), Date(2025, 3, 10))
      == Success(None)
  {
    ExampleDayNumbers();
    assert MoveToYear(Date(2000, 1, 1), 2025) == Some(Date(2025, 1, 1));
  }

  /** A leap-day birthday seen from 25.02.2025 falls on Friday 28.02.2025, three days on. */
  lemma ScenarioLeapDay()
    ensures NextBirthday(Date(2000, 2, 29), Date(2025, 2, 25)) == Some(Date(2025, 2, 28))
    ensures Reminder(Contact("Dee", Some(Birthday(Date(2000, 2, 29)))), Date(2025, 2, 25))
      == Success(Some(Upcoming("Dee", "28.02.2025")))
  {
    var next := Date(2025, 2, 28);
    ExampleDayNumbers();
    FormatFebruary28();
    assert MoveToYear(Date(2000, 2, 29), 2025) == Some(next);
    assert Weekday(next) == 4;
  }
}

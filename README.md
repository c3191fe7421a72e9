# Contact book core, modelled in Dafny

This project models the core of `bot.py`, a command-line contact manager. The core covers:

- **Fields.** Names, phone numbers and birthdays are built from raw user text. Each is either
  accepted in a normalised form or refused with the error the source raises: a name is
  stripped of surrounding whitespace, a phone keeps only its digits and needs exactly ten,
  and a birthday is read as `DD.MM.YYYY`.
- **Records.** A `Record` owns one name, an ordered list of phones and an optional birthday.
  Its phone list and birthday are changed in place by `add_phone`, `remove_phone`,
  `edit_phone` and `add_birthday`. `find_phone` looks a phone up by its digits, and
  `__str__` renders the record as one line of text.
- **The address book.** The `AddressBook` maps a name to its record and iterates in
  insertion order, as a Python dict does. It has `add_record`, `find`, `delete` and
  `get_upcoming_birthdays`.
- **The upcoming-birthdays query.** For every record with a birthday, the query moves the
  birthday into the current year; a 29 February becomes the 28th in a common year. If that
  date has passed, it moves to next year. The contact is announced when the birthday is at
  most seven days away, on the birthday itself, or on the Monday after when it falls on a
  weekend.

Modules, one per file:

- `Wrappers` (`wrappers.dfy`): `Option`, `Result` and `Outcome`. They stand for Python's
  `None` and its raised exceptions.
- `Calendar` (`calendar.dfy`): dates of the proleptic Gregorian calendar as Python's
  `datetime.date` holds them (years 1 to 9999). It gives day numbers (`toordinal() - 1`),
  weekdays (`weekday()`), the next day (`+ timedelta(days=1)`), and the proof that
  Python's ordering of dates agrees with their day numbers.
- `Fields` (`fields.dfy`): `Name`, `Phone`, `Birthday`, their parsers and the
  `DD.MM.YYYY` text form.
- `Contacts` (`record.dfy`): the `Record` class and its text.
- `Reminders` (`reminders.dfy`): the per-contact reminder, the query as a fold over the
  contacts, and the loop that computes it.
- `Book` (`book.dfy`): the `AddressBook` class.

The source's classes keep their form. `Record` and `AddressBook` are classes whose methods
update their fields and state the whole new state. Python's dict is a `map` from the name
to the record, plus a sequence `order` that keeps the keys in insertion order.
`find_phone` and `get_upcoming_birthdays` are loops, and each is proved equal to a
specification function (`FirstMatch`, `UpcomingBirthdays`). The properties of those
functions are proved as lemmas.

Three behaviours of `bot.py` that a caller may not expect are kept as the code has them:

- `add_record` silently replaces a record stored under the same name. The model keeps
  that, and the key keeps its original position in the iteration order.
- `edit_phone` looks the old number up before it validates the new one. So an unknown
  old number is reported as "not found" even when the new number is also invalid.
- A birthday that cannot be moved into a representable year makes Python's `replace`
  raise inside `get_upcoming_birthdays`, and the whole query fails. This happens when a
  birthday has passed in year 9999. The model returns `Failure(YearOutOfRange)` for the
  whole query.

## Model

| member | source | states |
|---|---|---|
| Calendar.DayNumber | bot.py:138 | The day number of a date, `toordinal() - 1`, counts the days since 1 January of year 1 and is never negative. |
| Calendar.Weekday | bot.py:143-147 | `weekday()` is the day number modulo 7, with Monday as 0 (1 January of year 1 was a Monday), so it lies in 0..6. |
| Calendar.BeforeIffEarlier | bot.py:128 | Python's date comparison (lexicographic on year, month, day) holds exactly when the day number is smaller, and two dates are equal exactly when their day numbers are. |
| Calendar.EarlierYear | bot.py:138 | A date in an earlier year is a positive number of days earlier. |
| Calendar.EarlierMonth | bot.py:138 | A date in an earlier month of the same year is a positive number of days earlier. |
| Calendar.WithinYear | bot.py:138 | Every day of a year is numbered from the year's first day and before the next year's first day. |
| Calendar.YearStep | bot.py:138 | A year adds exactly its length (365, or 366 in a leap year) to the day count. |
| Calendar.YearsIncrease | bot.py:138 | Each later year starts at least 365 days later per year in between. |
| Calendar.MonthsIncrease | bot.py:138 | A later month of a year starts after every day of each earlier month. |
| Calendar.NextDay | bot.py:144-150 | `d + timedelta(days=1)` is a calendar date one day number later, and its weekday is one further, modulo 7. |
| Calendar.NextDayNumber | bot.py:144-150 | Rolling over a day, a month end or a year end adds exactly one day and one weekday. |
| Calendar.LastDayIsFriday | bot.py:143-150 | 31 December 9999, the last day a date can hold, is a Friday, and the 30th is a Thursday. |
| Fields.ParseName | bot.py:18-21 | `Name(value)` fails with NameRequired exactly when the text is all whitespace. Otherwise it holds the stripped text, which is non-empty and has no whitespace at either end. |
| Fields.TrimLeft | bot.py:19-21 | Dropping leading whitespace leaves a suffix of the input, preceded only by whitespace and not starting with whitespace. |
| Fields.TrimRight | bot.py:19-21 | Dropping trailing whitespace leaves a prefix of the input, followed only by whitespace and not ending with whitespace. |
| Fields.Strip | bot.py:19-21 | `strip()` never lengthens the text, and what it keeps neither begins nor ends with whitespace. |
| Fields.StripIsSlice | bot.py:19-21 | The stripped name is the slice of the input after its leading whitespace, with only whitespace before and after it. |
| Fields.StripEmpty | bot.py:19-20 | Stripping leaves nothing exactly when the input is all whitespace. |
| Fields.ParseNameIdempotent | bot.py:18-21 | A stored name, read again as input, gives the same name. |
| Fields.Digits | bot.py:30 | Removing every non-digit leaves only digits and never lengthens the text. |
| Fields.DigitsOfNonDigits | bot.py:30 | Text without a digit is removed entirely: `\D` matches every other character. |
| Fields.DigitsAppend | bot.py:30 | Removing non-digits works piecewise on a concatenation, so the digits keep their order. |
| Fields.DigitsOfDigits | bot.py:30 | Text of digits only is left unchanged. |
| Fields.IsValidPhone | bot.py:35-38 | `_is_valid_phone`: `\d{10}` matches the whole text, that is, exactly ten characters that are all digits. |
| Fields.ParsePhone | bot.py:26-38 | `Phone(value)` succeeds exactly when the input holds ten digits. It keeps those digits, which pass `_is_valid_phone`, and otherwise fails with PhoneNeedsTenDigits. |
| Fields.ParsePhoneIdempotent | bot.py:26-38 | A stored phone, read again as input, gives the same phone. |
| Fields.Decimal | bot.py:45 | A string of n digits reads as a number below 10^n. |
| Fields.Padded | bot.py:50 | A strftime field of width w is exactly w digits. |
| Fields.DecimalOfPadded | bot.py:45-50 | A number that fits in w digits, written zero-padded to width w, reads back as itself. |
| Fields.PaddedOfDecimal | bot.py:45-50 | A digit string, read and written back at its own width, is unchanged. |
| Fields.FormatDate | bot.py:49-50 | `strftime("%d.%m.%Y")` is ten characters with dots at positions 2 and 5. |
| Fields.ParseBirthday | bot.py:43-47 | `Birthday(value)` accepts only text of the DD.MM.YYYY layout that names a date Python can hold, and otherwise fails with InvalidDateFormat. |
| Fields.BirthdayRoundTrip | bot.py:43-50 | Every birthday's text is of the DD.MM.YYYY layout and parses back to the same birthday. |
| Fields.CanonicalBirthdayText | bot.py:43-50 | Text that parses is exactly the text the parsed birthday renders as. |
| Contacts.FirstMatch | bot.py:75-81 | The position of the first phone with the given value: no earlier phone has it. None exactly when no phone has it. |
| Contacts.AppendedIsFound | bot.py:60-61 | A phone appended to the list is found by its own value. If an equal phone was already there, the lookup still finds that earlier one. |
| Contacts.JoinPhones | bot.py:87 | `'; '.join` of the phone values: the values in order with `"; "` between neighbours and nothing at either end. |
| Contacts.JoinLayout | bot.py:87 | The `'; '`-joined phones are 12n-2 characters long. Phone i occupies characters 12i to 12i+9, and `"; "` separates neighbours. |
| Contacts.Record.constructor | bot.py:55-58 | A new record has the given validated name, no phones and no birthday. |
| Contacts.Record.Create | bot.py:55-58 | `Record(name)` fails exactly when `Name(name)` fails, with the same error. Otherwise it is a fresh valid record with the stripped name, no phones and no birthday. |
| Contacts.Record.AddPhone | bot.py:60-61 | An accepted phone is appended to the list, duplicates included, and is then found by its own digits. An invalid number fails with PhoneNeedsTenDigits and leaves the list unchanged. The birthday never changes. |
| Contacts.Record.FindPhone | bot.py:75-81 | The loop returns the position of the first phone equal to the digits of the input, or None. |
| Contacts.Record.RemovePhone | bot.py:63-67 | The first matching phone is removed and the others keep their order. With no match it fails with PhoneNotFound and nothing changes. |
| Contacts.Record.EditPhone | bot.py:69-73 | The first phone matching the old number takes the new number's value, and the list keeps its length and order. No match fails with PhoneNotFound, checked first. An invalid new number fails with PhoneNeedsTenDigits. A failure changes nothing. |
| Contacts.Record.AddBirthday | bot.py:83-84 | Valid text sets or replaces the birthday. Invalid text fails with InvalidDateFormat and keeps the old one. Phones never change. |
| Contacts.Record.ToString | bot.py:86-94 | `__str__` is the head `Contact name: <name>, phones: `, then phone i at offset 12i after the head with `"; "` between neighbours, then `, birthday: DD.MM.YYYY` exactly when a birthday is set. The length is fixed by the number of phones, a record with neither phones nor birthday is the head alone, and the birthday part can be recognised by its dot 8 characters from the end. |
| Contacts.RenderText | bot.py:86-94 | The text built from a name, valid phones and an optional valid birthday has that layout. |
| Contacts.TextLayout | bot.py:87-94 | Head, joined phones and an empty or birthday tail: each phone and separator sits at its fixed place after the head, and the tail is told apart from the phones by the dot 8 characters from the end. |
| Contacts.RenderLayout | bot.py:87-94 | Head, joined phones and tail: the total length, the head as prefix, the tail as suffix, and a dot 8 characters from the end exactly when the tail is set, given that neither the head nor the joined phones have a dot there. |
| Contacts.JoinedEndsInDigit | bot.py:87 | The `'; '`-joined phones end with the last phone, so the character 8 from their end is a digit. |
| Reminders.MoveToYear | bot.py:119-136 | `replace(year=y)` keeps the month and day. A 29 February becomes the 28th in a year without one. It fails exactly when y is outside 1..9999. |
| Reminders.NextBirthday | bot.py:117-136 | The birthday's next occurrence is this year's date, or next year's once this year's has passed. It is never before today, and it is missing exactly when it would fall after year 9999. |
| Reminders.CongratulationDate | bot.py:141-150 | A Saturday moves two days and a Sunday one, both to a Monday. A weekday stays put. The result is a weekday at most two days later. |
| Reminders.CongratulationInRange | bot.py:143-150 | The weekend shift of a valid date never goes past year 9999. |
| Reminders.Reminder | bot.py:114-157 | One pass of the loop for one contact: a failure is YearOutOfRange and needs a birthday, and a line carries the contact's name. |
| Reminders.ReminderWindow | bot.py:113-157 | A contact without a birthday yields nothing, and the reminder fails exactly when the next birthday is out of range. A line is produced exactly when the birthday is 0 to 7 days away. It carries the contact's name and the congratulation date, a weekday 0 to 2 days after the birthday. |
| Reminders.UpcomingBirthdays | bot.py:109-159 | The query's answer has at most one line per contact, and its only possible error is YearOutOfRange. |
| Reminders.RemindersOf | bot.py:113-157 | One reminder per contact, in the contacts' order. |
| Reminders.Gather | bot.py:111-159 | Folding the reminders yields at most one line per reminder. A failure of the fold is some reminder's failure. |
| Reminders.Collect | bot.py:152 | One reminder folded into the answer so far: an earlier failure stands; after a successful prefix the result succeeds exactly when the reminder does, a failing reminder passes its own error on, and a success keeps the earlier lines and adds the reminder's own line, if it has one, at the end. |
| Reminders.GatherConcat | bot.py:111-159 | The fold of a concatenation is the first part's failure, else the second part's failure, else both parts' lines in order. |
| Reminders.GatherPrefixStep | bot.py:113-157 | One more loop pass folds the next reminder onto the answer so far. |
| Reminders.GatherPrefixFailure | bot.py:119-136 | Once a prefix fails, the whole query fails with that error: the exception leaves the loop. |
| Reminders.GatherSound | bot.py:152-157 | Every line of the fold comes from some reminder. |
| Reminders.GatherComplete | bot.py:152-157 | Every reminder's line is in a successful fold. |
| Reminders.GatherFailure | bot.py:119-136 | The fold fails exactly when some reminder fails. |
| Reminders.UpcomingConcat | bot.py:111-159 | Over two groups of contacts, the answer is the first group's error, else the second's, else the first group's lines followed by the second's. |
| Reminders.UpcomingSound | bot.py:152-157 | Every line of the answer is the reminder of some contact. |
| Reminders.UpcomingComplete | bot.py:140-157 | Every contact whose birthday is within the window has its line in a successful answer. |
| Reminders.UpcomingFailure | bot.py:119-136 | The query fails exactly when some contact's birthday cannot be moved into range. |
| Reminders.CollectUpcoming | bot.py:111-159 | The loop over the contacts returns exactly the query's answer. |
| Reminders.ScenarioWeekday | bot.py:138-157 | Seen on Monday 10.03.2025, a birthday on Wednesday 12.03 is announced as `12.03.2025`. |
| Reminders.ScenarioSaturday | bot.py:143-146 | Seen on Monday 10.03.2025, a birthday on Saturday 15.03 is announced for Monday `17.03.2025`. |
| Reminders.ScenarioPassed | bot.py:128-136 | Seen on 10.03.2025, a 1 January birthday has passed. It moves to 01.01.2026 and is not announced. |
| Reminders.ScenarioLeapDay | bot.py:119-126 | Seen on 25.02.2025, a 29 February birthday falls on 28.02.2025 and is announced for that Friday. |
| Book.Without | bot.py:107 | Deleting a key keeps exactly the other keys, and keeps them distinct. |
| Book.WithoutAbsent | bot.py:106 | Deleting an absent key changes nothing. |
| Book.WithoutAt | bot.py:107 | In a list without repeats, deleting a key removes its one position and keeps the others in order. |
| Book.AddressBook.constructor | bot.py:97 | A new book is empty. |
| Book.AddressBook.Find | bot.py:102-103 | `find(name)` returns the record stored under the name, which carries that name, or None when there is none. |
| Book.AddressBook.AddRecord | bot.py:99-100 | The record is stored under its name. It replaces an earlier record with that name, in that record's position, and a new name goes last. No other entry changes. |
| Book.AddressBook.Delete | bot.py:105-107 | The entry under the name is gone and the others keep their records and order. An absent name changes nothing. |
| Book.AddressBook.ContactsOf | bot.py:113-117 | What the query reads from the records under the given keys, one contact per key: the name and the birthday. |
| Book.AddressBook.ContactsInOrder | bot.py:113-117 | The records of the book in iteration order, each as a valid contact. |
| Book.AddressBook.GetUpcomingBirthdays | bot.py:109-159 | `get_upcoming_birthdays(today)` is exactly the query over the book's records in insertion order. |

## Left out

- Persistence (`save_data` and `load_data` with pickle) is file I/O and is not modelled. Neither is the command layer: `input_error`, `parse_input`, the command handlers, `get_help` and `main`.
- `datetime.today()` is the system clock. `today` is a parameter of `GetUpcomingBirthdays` instead.
- `Field.__str__` is not modelled separately. The text of a name or a phone is its `value`, which `Record.ToString` uses directly.
- The `isinstance` checks are not modelled, nor the "Phone number must be a string" error they raise: Dafny's types admit only strings.
- The error messages are not modelled: errors are an enumeration, one value per message. The strptime detail appended to the birthday error is left out too.
- Fields.ParseName: only ASCII whitespace (as `str.isspace` defines it) is stripped. Python also strips non-ASCII whitespace such as U+00A0.
- Fields.Digits: only ASCII digits are kept. Python's `\D` and `\d` also treat other Unicode decimal digits as digits.
- Fields.ParseBirthday: accepts only the strict layout of two-digit day, two-digit month and four-digit year. Python's `strptime` also accepts a one-digit or space-padded day or month, such as `1.3.2025`.
- Fields.FormatDate: zero-pads years below 1000 to four digits. Python's `strftime("%Y")` output for such years depends on the platform.
- `Birthday` holds a `datetime` at midnight, and the query takes its `.date()`. The model holds the date only.
- `get_upcoming_birthdays` returns a list of dicts, modelled as a list of `Upcoming(name, congratulationDate)` values.
- Contacts.Record.FindPhone: Python returns the matching `Phone` object itself. The model returns that phone's position in the list, which `RemovePhone` and `EditPhone` then use to remove or update the entry.
- Contacts.Record.EditPhone: Python assigns the new value into the matched `Phone` object. The model replaces that list entry with a new `Phone` value. No `Phone` object is ever shared between records, so the two agree.
- The other dict operations `AddressBook` inherits from `UserDict` (`len`, `in`, iteration outside the query) are not part of this model.

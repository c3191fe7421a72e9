/**
 * The validated field types of a contact: a name, a phone number and a
 * birthday. Each is built from raw user text and either yields the value or
 * fails with the error the source raises.
 */
module Fields {
  import opened Wrappers
  import opened Calendar

  /** The errors the core raises, one per distinct message. The type is shared by the
      whole model: `Record` raises PhoneNotFound and the birthday query YearOutOfRange,
      and both import it from here with the field parsers. */
  datatype Error =
    | NameRequired          // "Name is required"
    | PhoneNeedsTenDigits   // "Phone number must contain exactly 10 digits"
    | InvalidDateFormat     // "Invalid date format. Use DD.MM.YYYY. ..."
    | PhoneNotFound         // "Phone not found"
    | YearOutOfRange        // a birthday rolled past the last year a date can hold

  datatype Name = Name(value: string)
  datatype Phone = Phone(value: string)
  datatype Birthday = Birthday(value: Date)

  // ---------------------------------------------------------------- names

  /** Python's `str.isspace` on the ASCII range: space, \t \n \v \f \r and the separators 0x1C-0x1F. */
  predicate IsSpace(c: char) {
    var n := c as int;
    n == 32 || 9 <= n <= 13 || 28 <= n <= 31
  }

  predicate AllSpace(s: string) {
    forall i :: 0 <= i < |s| ==> IsSpace(s[i])
  }

  /** `s.lstrip()`: the suffix left after dropping leading whitespace. */
  function TrimLeft(s: string): (r: string)
    ensures |r| <= |s| && r == s[|s| - |r|..]
    ensures AllSpace(s[..|s| - |r|])
    ensures r == [] || !IsSpace(r[0])
  {
    if s != [] && IsSpace(s[0]) then TrimLeft(s[1..]) else s
  }

  /** `s.rstrip()`: the prefix left after dropping trailing whitespace. */
  function TrimRight(s: string): (r: string)
    ensures |r| <= |s| && r == s[..|r|]
    ensures AllSpace(s[|r|..])
    ensures r == [] || !IsSpace(r[|r| - 1])
  {
    if s != [] && IsSpace(s[|s| - 1]) then TrimRight(s[..|s| - 1]) else s
  }

  /** `s.strip()`: what it keeps neither begins nor ends with whitespace. */
  function Strip(s: string): (r: string)
    ensures |r| <= |s|
    ensures r == [] || (!IsSpace(r[0]) && !IsSpace(r[|r| - 1]))
  {
    var l := TrimLeft(s);
    var r := TrimRight(l);
    assert r != [] ==> r[0] == l[0];
    r
  }

  /** A prefix of a suffix is a slice, and what follows it in the suffix follows it in the whole. */
  lemma PrefixOfSuffix(s: string, lo: nat, l: string, r: string)
    requires lo <= |s| && l == s[lo..] && |r| <= |l| && r == l[..|r|]
    ensures lo + |r| <= |s| && r == s[lo..lo + |r|] && s[lo + |r|..] == l[|r|..]
  {
  }

  /** What `strip` keeps is the slice of the input after its leading whitespace,
      with only whitespace after it; `lo` is the number of leading whitespace characters. */
  lemma StripIsSlice(s: string, lo: nat)
    requires lo == |s| - |TrimLeft(s)|
    ensures lo + |Strip(s)| <= |s| && Strip(s) == s[lo..lo + |Strip(s)|]
    ensures AllSpace(s[..lo]) && AllSpace(s[lo + |Strip(s)|..])
  {
    PrefixOfSuffix(s, lo, TrimLeft(s), Strip(s));
  }

  /** `strip` leaves nothing exactly when the input is all whitespace. */
  lemma StripEmpty(s: string)
    ensures Strip(s) == [] <==> AllSpace(s)
  {
    var l := TrimLeft(s);
    var r := TrimRight(l);
    if r == [] {
      assert l[|r|..] == l;
      assert s[..|s| - |l|] == s[..|s|];
    }
  }

  /** A stored name: non-empty, with no surrounding whitespace. */
  predicate ValidName(n: Name) {
    n.value != [] && !IsSpace(n.value[0]) && !IsSpace(n.value[|n.value| - 1])
  }

  /** `Name(value)`: the stripped text, or NameRequired when nothing but whitespace is left. */
  function ParseName(raw: string): (r: Result<Name, Error>)
    ensures r.Failure? <==> AllSpace(raw)
    ensures r.Failure? ==> r.error == NameRequired
    ensures r.Success? ==> r.value.value == Strip(raw) && ValidName(r.value)
  {
    StripEmpty(raw);
    var stripped := Strip(raw);
    if stripped == [] then Failure(NameRequired) else Success(Name(stripped))
  }

  /** A stored name reads back as itself. */
  lemma ParseNameIdempotent(n: Name)
    requires ValidName(n)
    ensures ParseName(n.value) == Success(n)
  {
    var l := TrimLeft(n.value);
    assert l == n.value;
    assert TrimRight(l) == l;
  }

  // --------------------------------------------------------------- phones

  predicate IsDigit(c: char) {
    '0' <= c <= '9'
  }

  predicate AllDigits(s: string) {
    forall i :: 0 <= i < |s| ==> IsDigit(s[i])
  }

  /** `re.sub(r"\D", "", s)`: the digits of `s`, in order. */
  function Digits(s: string): (r: string)
    ensures AllDigits(r) && |r| <= |s|
  {
    if s == [] then []
    else (if IsDigit(s[0]) then [s[0]] else []) + Digits(s[1..])
  }

  /** Removing non-digits works piecewise, so it keeps the order of the digits. */
  lemma {:induction false} DigitsAppend(a: string, b: string)
    ensures Digits(a + b) == Digits(a) + Digits(b)
  {
    if a != [] {
      assert (a + b)[1..] == a[1..] + b;
      DigitsAppend(a[1..], b);
    } else {
      assert a + b == b;
    }
  }

  /** A string without digits loses everything: `re.sub(r"\D", "", s)` drops what is
      not a digit. */
  lemma {:induction false} DigitsOfNonDigits(s: string)
    requires forall i :: 0 <= i < |s| ==> !IsDigit(s[i])
    ensures Digits(s) == []
  {
    if s != [] {
      assert forall i :: 0 <= i < |s[1..]| ==> s[1..][i] == s[i + 1];
      DigitsOfNonDigits(s[1..]);
    }
  }

  /** A string that is all digits loses nothing. */
  lemma {:induction false} DigitsOfDigits(s: string)
    requires AllDigits(s)
    ensures Digits(s) == s
  {
    if s != [] {
      DigitsOfDigits(s[1..]);
    }
  }

  /** `Phone._is_valid_phone`: `re.fullmatch(r"\d{10}", value)`. */
  predicate IsValidPhone(v: string) {
    |v| == 10 && AllDigits(v)
  }

  /** `Phone(value)`: the digits of the input when there are exactly ten of them. */
  function ParsePhone(raw: string): (r: Result<Phone, Error>)
    ensures r.Success? <==> |Digits(raw)| == 10
    ensures r.Success? ==> r.value.value == Digits(raw) && IsValidPhone(r.value.value)
    ensures r.Failure? ==> r.error == PhoneNeedsTenDigits
  {
    var cleaned := Digits(raw);
    if IsValidPhone(cleaned) then Success(Phone(cleaned)) else Failure(PhoneNeedsTenDigits)
  }

  /** A stored phone reads back as itself, so looking it up by its own text finds it. */
  lemma ParsePhoneIdempotent(p: Phone)
    requires IsValidPhone(p.value)
    ensures ParsePhone(p.value) == Success(p)
  {
    DigitsOfDigits(p.value);
  }

  // ------------------------------------------------------------ birthdays

  function Pow10(k: nat): nat
  {
    if k == 0 then 1 else 10 * Pow10(k - 1)
  }

  function DigitChar(n: int): (c: char)
    requires 0 <= n < 10
    ensures IsDigit(c)
  {
    ('0' as int + n) as char
  }

  /** The number a string of decimal digits spells. */
  function Decimal(s: string): (n: nat)
    requires AllDigits(s)
    ensures n < Pow10(|s|)
  {
    if s == [] then 0
    else Decimal(s[..|s| - 1]) * 10 + ((s[|s| - 1] as int) - ('0' as int))
  }

  /** `n` in decimal, zero-padded (and cut) to `width` digits, as strftime's %d, %m and %Y. */
  function Padded(n: nat, width: nat): (s: string)
    ensures |s| == width && AllDigits(s)
  {
    if width == 0 then [] else Padded(n / 10, width - 1) + [DigitChar(n % 10)]
  }

  /** Padding a number that fits in `width` digits loses nothing. */
  lemma {:induction false} DecimalOfPadded(n: nat, width: nat)
    requires n < Pow10(width)
    ensures Decimal(Padded(n, width)) == n
  {
    if width > 0 {
      DecimalOfPadded(n / 10, width - 1);
      var s := Padded(n, width);
      assert s[..|s| - 1] == Padded(n / 10, width - 1);
    }
  }

  /** Reading a digit string and writing it back at its own width gives the string. */
  lemma {:induction false} PaddedOfDecimal(s: string)
    requires AllDigits(s)
    ensures Padded(Decimal(s), |s|) == s
  {
    if s != [] {
      var init := s[..|s| - 1];
      PaddedOfDecimal(init);
      var n := Decimal(s);
      assert n / 10 == Decimal(init);
      assert DigitChar(n % 10) == s[|s| - 1];
      assert s == init + [s[|s| - 1]];
    }
  }

  /** `date.strftime("%d.%m.%Y")`. */
  function FormatDate(d: Date): (s: string)
    requires ValidDate(d)
    ensures |s| == 10 && s[2] == '.' && s[5] == '.'
  {
    Padded(d.day, 2) + "." + Padded(d.month, 2) + "." + Padded(d.year, 4)
  }

  /** The literal layout DD.MM.YYYY: two digits, a dot, two digits, a dot, four digits. */
  predicate DateShaped(s: string) {
    |s| == 10 && s[2] == '.' && s[5] == '.'
    && AllDigits(s[..2]) && AllDigits(s[3..5]) && AllDigits(s[6..])
  }

  /** `Birthday(value)`: `datetime.strptime(value, "%d.%m.%Y")`, held to the strict layout. */
  function ParseBirthday(raw: string): (r: Result<Birthday, Error>)
    ensures r.Success? ==> DateShaped(raw) && ValidDate(r.value.value)
    ensures r.Failure? ==> r.error == InvalidDateFormat
  {
    if !DateShaped(raw) then Failure(InvalidDateFormat)
    else
      var d := Date(Decimal(raw[6..]), Decimal(raw[3..5]), Decimal(raw[..2]));
      if ValidDate(d) then Success(Birthday(d)) else Failure(InvalidDateFormat)
  }

  /** Every date Python can hold renders as text that parses back to it. */
  lemma BirthdayRoundTrip(b: Birthday)
    requires ValidDate(b.value)
    ensures DateShaped(FormatDate(b.value))
    ensures ParseBirthday(FormatDate(b.value)) == Success(b)
  {
    var d := b.value;
    var s := FormatDate(d);
    assert s[..2] == Padded(d.day, 2);
    assert s[3..5] == Padded(d.month, 2);
    assert s[6..] == Padded(d.year, 4);
    DecimalOfPadded(d.day, 2);
    DecimalOfPadded(d.month, 2);
    DecimalOfPadded(d.year, 4);
  }

  /** Text of the layout DD.MM.YYYY is its three fields joined by dots. */
  lemma ShapedPieces(raw: string)
    requires |raw| == 10 && raw[2] == '.' && raw[5] == '.'
    ensures raw == raw[..2] + "." + raw[3..5] + "." + raw[6..]
  {
  }

  /** Text that parses is exactly what the parsed birthday renders as. */
  lemma CanonicalBirthdayText(raw: string)
    requires ParseBirthday(raw).Success?
    ensures FormatDate(ParseBirthday(raw).value.value) == raw
  {
    var day, month, year := raw[..2], raw[3..5], raw[6..];
    assert ParseBirthday(raw).value.value == Date(Decimal(year), Decimal(month), Decimal(day));
    PaddedOfDecimal(day);
    PaddedOfDecimal(month);
    PaddedOfDecimal(year);
    ShapedPieces(raw);
  }
}

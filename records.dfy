/** The values the import works on: a parsed CSV row, the persisted companies
    and addresses, and the way Active Record reads a raw registration number
    as the integer key it looks companies up by. */
module Records {

  datatype Option<+T> = None | Some(value: T)

  /** One data row of the CSV file (header excluded), already decoded.
      A missing or empty cell is None. */
  datatype Row = Row(
    name: Option<string>,
    registrationNumber: Option<string>,
    street: Option<string>,
    city: Option<string>,
    postalCode: Option<string>,
    country: Option<string>)

  /** An address row; `postal_code` is the only nullable column. */
  datatype Address = Address(
    street: Option<string>,
    city: Option<string>,
    postalCode: Option<string>,
    country: Option<string>)

  /** What identifies an address within its company: street, city and country,
      but not the postal code. */
  datatype Site = Site(street: Option<string>, city: Option<string>, country: Option<string>)

  /** A persisted company with the addresses it owns, in insertion order. */
  datatype Company = Company(id: nat, name: string, registrationNumber: int, addresses: seq<Address>)

  /** The store: companies by registration number (a unique column) and the
      next id the primary-key sequence hands out. */
  datatype Db = Db(companies: map<int, Company>, nextId: nat)

  function SiteOf(a: Address): Site {
    Site(a.street, a.city, a.country)
  }

  function RowSite(row: Row): Site {
    Site(row.street, row.city, row.country)
  }

  /** The address the row's address columns describe. */
  function AddressOf(row: Row): (a: Address)
    ensures SiteOf(a) == RowSite(row) && a.postalCode == row.postalCode
  {
    Address(row.street, row.city, row.postalCode, row.country)
  }

  predicate IsSpace(c: char) {
    c == ' ' || c == '\t' || c == '\n' || c == '\r' || c == '\U{B}' || c == '\U{C}'
  }

  predicate IsDigit(c: char) {
    '0' <= c <= '9'
  }

  predicate AllDigits(s: string) {
    forall i :: 0 <= i < |s| ==> IsDigit(s[i])
  }

  /** Ruby's `blank?`: nil, or a string of white space only. */
  predicate Blank(v: Option<string>) {
    v.None? || forall i :: 0 <= i < |v.value| ==> IsSpace(v.value[i])
  }

  /** An integer literal as Rails' numericality check with `only_integer`
      accepts it: an optional sign followed by at least one digit. */
  predicate IsIntegerLiteral(s: string) {
    || (|s| > 0 && AllDigits(s))
    || (|s| > 1 && (s[0] == '+' || s[0] == '-') && AllDigits(s[1..]))
  }

  /** A decimal number with a fraction, which the numericality check accepts
      as a number but not as an integer: optional sign, digits, a dot, digits. */
  predicate IsDecimalFraction(s: string) {
    var u := if |s| > 0 && (s[0] == '+' || s[0] == '-') then s[1..] else s;
    var d := LeadingDigits(u);
    0 < |d| < |u| - 1 && u[|d|] == '.' && AllDigits(u[|d| + 1..])
  }

  function DropSpaces(s: string): (t: string)
    ensures |t| <= |s| && t == s[|s| - |t|..]
    ensures t == [] || !IsSpace(t[0])
  {
    if |s| > 0 && IsSpace(s[0]) then DropSpaces(s[1..]) else s
  }

  function DropTrailingSpaces(s: string): (t: string)
    ensures |t| <= |s| && t == s[..|t|]
    ensures t == [] || !IsSpace(t[|t| - 1])
  {
    if |s| > 0 && IsSpace(s[|s| - 1]) then DropTrailingSpaces(s[..|s| - 1]) else s
  }

  /** The text without the white space around it. */
  function Strip(s: string): (t: string)
    ensures t == [] || (!IsSpace(t[0]) && !IsSpace(t[|t| - 1]))
  {
    DropTrailingSpaces(DropSpaces(s))
  }

  /** A number as the numericality check reads the raw text with `Kernel#Float`:
      white space around it is ignored. */
  predicate IsNumeric(s: string) {
    var t := Strip(s);
    IsIntegerLiteral(t) || IsDecimalFraction(t)
  }

  /** The longest run of digits that starts the string. */
  function LeadingDigits(s: string): (d: string)
    ensures AllDigits(d) && d <= s
    ensures |d| < |s| ==> !IsDigit(s[|d|])
  {
    if |s| > 0 && IsDigit(s[0]) then [s[0]] + LeadingDigits(s[1..]) else []
  }

  function DigitValue(c: char): nat
    requires IsDigit(c)
  {
    c as int - '0' as int
  }

  /** The value of a string of decimal digits, most significant first. */
  function DigitsValue(d: string): nat
    requires AllDigits(d)
  {
    if d == [] then 0 else DigitsValue(d[..|d| - 1]) * 10 + DigitValue(d[|d| - 1])
  }

  /** How Active Record turns the raw registration number into the integer it
      queries the column with: leading white space is skipped, then an optional
      sign and a run of digits are read, anything after them is ignored (Ruby's
      `to_i`); a value that does not start that way, or no value, becomes nil,
      and `WHERE registration_number IS NULL` never matches the non-null column. */
  function CastKey(raw: Option<string>): Option<int> {
    if raw.None? then None
    else
      var t := DropSpaces(raw.value);
      if |t| > 0 && IsDigit(t[0]) then
        Some(DigitsValue(LeadingDigits(t)))
      else if |t| > 1 && (t[0] == '+' || t[0] == '-') && IsDigit(t[1]) then
        var n: int := DigitsValue(LeadingDigits(t[1..]));
        Some(if t[0] == '-' then -n else n)
      else
        None
  }

  /** The value the integer attribute holds once Active Record has cast the
      raw text (`Integer#cast`): nil for a blank text, otherwise Ruby's `to_i`,
      which reads what CastKey reads and gives 0 when no number starts the
      text. The lookup uses CastKey, the uniqueness validation this value; they
      differ exactly on texts that are not blank and do not start like a
      number, which the attribute holds as 0. */
  function AttributeValue(raw: Option<string>): (v: Option<int>)
    ensures v.None? <==> Blank(raw)
    ensures v != CastKey(raw) <==> !Blank(raw) && CastKey(raw).None?
    ensures v != CastKey(raw) ==> v == Some(0)
  {
    if Blank(raw) then None
    else if CastKey(raw).Some? then CastKey(raw)
    else Some(0)
  }

  /** The decimal text of a natural number (Ruby's `Integer#to_s`). */
  function Decimal(n: nat): (s: string)
    ensures |s| > 0 && AllDigits(s)
  {
    var last := [('0' as int + n % 10) as char];
    if n < 10 then last else Decimal(n / 10) + last
  }

  lemma {:induction false} LeadingDigitsOfDigits(s: string)
    requires AllDigits(s)
    ensures LeadingDigits(s) == s
  {
    if |s| > 0 {
      LeadingDigitsOfDigits(s[1..]);
    }
  }

  lemma {:induction false} DecimalValue(n: nat)
    ensures DigitsValue(Decimal(n)) == n
  {
    var s := Decimal(n);
    if n >= 10 {
      DecimalValue(n / 10);
      assert s[..|s| - 1] == Decimal(n / 10);
    }
  }

  /** The text Ruby's `Integer#to_s` gives for any stored number: a minus sign
      before the decimal digits of a negative one. */
  function IntegerText(k: int): (s: string)
    ensures |s| > 0
  {
    if k < 0 then "-" + Decimal(-k) else Decimal(k)
  }

  /** A row carrying the text of a stored registration number, negative ones
      included, is looked up under exactly that number, and the text passes
      the integer check. */
  lemma DecimalRoundTrip(k: int)
    ensures CastKey(Some(IntegerText(k))) == Some(k)
    ensures IsIntegerLiteral(IntegerText(k))
  {
    var n: nat := if k < 0 then -k else k;
    DecimalValue(n);
    if k < 0 {
      NegatedDigitsKey(Decimal(n), IntegerText(k));
    } else {
      DigitsKey(Decimal(n));
    }
  }

  lemma NegatedDigitsKey(s: string, t: string)
    requires |s| > 0 && AllDigits(s) && t == "-" + s
    ensures CastKey(Some(t)) == Some(-(DigitsValue(s) as int)) && IsIntegerLiteral(t)
  {
    assert t[1..] == s;
    SignedDigitsKey(t);
  }

  lemma DigitsKey(s: string)
    requires |s| > 0 && AllDigits(s)
    ensures CastKey(Some(s)) == Some(DigitsValue(s) as int)
  {
    NoLeadingSpace(s);
    LeadingDigitsOfDigits(s);
  }

  lemma NoLeadingSpace(s: string)
    requires |s| > 0 && !IsSpace(s[0])
    ensures DropSpaces(s) == s
  {
  }

  lemma SignedDigitsKey(s: string)
    requires |s| > 1 && (s[0] == '+' || s[0] == '-') && AllDigits(s[1..])
    ensures CastKey(Some(s)) == Some(if s[0] == '-' then -(DigitsValue(s[1..]) as int) else DigitsValue(s[1..]) as int)
  {
    NoLeadingSpace(s);
    assert IsDigit(s[1..][0]);
    LeadingDigitsOfDigits(s[1..]);
  }

  /** A raw value that passes the numericality check is looked up, and stored,
      under the number it spells; the lookup and the attribute agree on it. */
  lemma IntegerLiteralKey(s: string)
    requires IsIntegerLiteral(s)
    ensures CastKey(Some(s)).Some? && AttributeValue(Some(s)) == CastKey(Some(s))
    ensures AllDigits(s) ==> CastKey(Some(s)) == Some(DigitsValue(s) as int)
    ensures !AllDigits(s) ==> CastKey(Some(s)) == Some(if s[0] == '-' then -(DigitsValue(s[1..]) as int) else DigitsValue(s[1..]) as int)
  {
    if AllDigits(s) {
      DigitsKey(s);
    } else {
      SignedDigitsKey(s);
    }
  }

  /** An integer literal has no white space around it, so the numericality
      check reads it as a number. */
  lemma IntegerLiteralNumeric(s: string)
    requires IsIntegerLiteral(s)
    ensures Strip(s) == s && IsNumeric(s)
  {
    assert DropSpaces(s) == s;
    assert IsDigit(s[|s| - 1]);
  }

  /** An integer literal with white space before it is still a number to the
      numericality check, but no longer an integer literal; the lookup still
      reads the number. */
  lemma LeadingSpaceLiteral(s: string)
    requires IsIntegerLiteral(s)
    ensures IsNumeric(" " + s) && !IsIntegerLiteral(" " + s) && !Blank(Some(" " + s))
    ensures CastKey(Some(" " + s)) == CastKey(Some(s))
  {
    var t := " " + s;
    IntegerLiteralNumeric(s);
    DropLeadingSpace(s);
    LeadingSpaceKey(s, t);
    assert Strip(t) == s;
    assert t[0] == ' ' && !IsDigit(t[0]);
    assert t[1] == s[0] && !IsSpace(t[1]);
  }

  lemma LeadingSpaceKey(s: string, t: string)
    requires |s| > 0 && !IsSpace(s[0]) && t == " " + s
    ensures CastKey(Some(t)) == CastKey(Some(s))
  {
    DropLeadingSpace(s);
    NoLeadingSpace(s);
  }

  lemma DropLeadingSpace(s: string)
    requires |s| > 0 && !IsSpace(s[0])
    ensures DropSpaces(" " + s) == s
  {
    NoLeadingSpace(s);
    assert (" " + s)[1..] == s;
  }

  /** The same with white space after it. */
  lemma TrailingSpaceLiteral(s: string)
    requires IsIntegerLiteral(s)
    ensures IsNumeric(s + " ") && !IsIntegerLiteral(s + " ") && !Blank(Some(s + " "))
    ensures CastKey(Some(s + " ")) == CastKey(Some(s))
  {
    var t := s + " ";
    IntegerLiteralNumeric(s);
    DropTrailingSpace(s);
    TrailingSpaceKey(s, t);
    assert Strip(t) == s;
    assert t[0] == s[0] && !IsSpace(t[0]);
    assert !AllDigits(t) by {
      assert !IsDigit(t[|t| - 1]);
    }
    assert !AllDigits(t[1..]) by {
      assert t[1..][|t| - 2] == ' ';
    }
  }

  lemma TrailingSpaceKey(s: string, t: string)
    requires IsIntegerLiteral(s) && t == s + " "
    ensures CastKey(Some(t)) == CastKey(Some(s))
  {
    IntegerLiteralKey(s);
    NoLeadingSpace(t);
    if AllDigits(s) {
      LeadingDigitsBeforeSpace(s);
    } else {
      assert t[1..] == s[1..] + " ";
      LeadingDigitsBeforeSpace(s[1..]);
    }
  }

  lemma {:induction false} LeadingDigitsBeforeSpace(d: string)
    requires AllDigits(d)
    ensures LeadingDigits(d + " ") == d
  {
    if |d| > 0 {
      assert (d + " ")[1..] == d[1..] + " ";
      LeadingDigitsBeforeSpace(d[1..]);
    }
  }

  lemma DropTrailingSpace(s: string)
    requires |s| > 0 && !IsSpace(s[0]) && !IsSpace(s[|s| - 1])
    ensures DropSpaces(s + " ") == s + " " && DropTrailingSpaces(s + " ") == s
  {
    NoLeadingSpace(s + " ");
    assert (s + " ")[..|s|] == s;
  }
}

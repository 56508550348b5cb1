/** The validations the import relies on, as the Company and Address models
    declare them, and the two shapes a failure is reported in: the joined
    full messages (`detail`) and the attribute-to-messages mapping (`errors`). */
module Validation {
  import opened Records

  const MaxNameLength: nat := 256

  datatype Attribute = Name | RegistrationNumber | Street | City | Country

  datatype Kind = CantBeBlank | TooLong | NotANumber | NotAnInteger | AlreadyTaken

  /** One validation error. `nested` marks an address error copied onto its
      company by the autosave validation of `addresses`, which prefixes the
      attribute with `addresses.`. */
  datatype FieldError = FieldError(nested: bool, attribute: Attribute, kind: Kind)

  /** The key of the error in the mapping, e.g. `registration_number`, `addresses.city`. */
  function ErrorKey(e: FieldError): string {
    var base :=
      match e.attribute
      case Name => "name"
      case RegistrationNumber => "registration_number"
      case Street => "street"
      case City => "city"
      case Country => "country";
    if e.nested then "addresses." + base else base
  }

  /** The humanised attribute name that starts a full message. */
  function HumanName(e: FieldError): string {
    match e.attribute
    case Name => if e.nested then "Addresses name" else "Name"
    case RegistrationNumber => if e.nested then "Addresses registration number" else "Registration number"
    case Street => if e.nested then "Addresses street" else "Street"
    case City => if e.nested then "Addresses city" else "City"
    case Country => if e.nested then "Addresses country" else "Country"
  }

  /** The default English message of each kind of error. */
  function Message(k: Kind): string {
    match k
    case CantBeBlank => "can't be blank"
    case TooLong => "is too long (maximum is 256 characters)"
    case NotANumber => "is not a number"
    case NotAnInteger => "must be an integer"
    case AlreadyTaken => "has already been taken"
  }

  function FullMessage(e: FieldError): string {
    HumanName(e) + " " + Message(e.kind)
  }

  function FullMessages(errs: seq<FieldError>): (r: seq<string>)
    ensures |r| == |errs|
    ensures forall i :: 0 <= i < |errs| ==> r[i] == FullMessage(errs[i])
  {
    if errs == [] then [] else [FullMessage(errs[0])] + FullMessages(errs[1..])
  }

  /** `parts.join(sep)` */
  function Join(parts: seq<string>, sep: string): (r: string)
    ensures parts == [] ==> r == []
    ensures |parts| == 1 ==> r == parts[0]
  {
    if parts == [] then []
    else if |parts| == 1 then parts[0]
    else parts[0] + sep + Join(parts[1..], sep)
  }

  /** Joining one more part adds the separator and the part. */
  lemma {:induction false} JoinSnoc(parts: seq<string>, p: string, sep: string)
    requires parts != []
    ensures Join(parts + [p], sep) == Join(parts, sep) + sep + p
  {
    if |parts| > 1 {
      assert (parts + [p])[1..] == parts[1..] + [p];
      JoinSnoc(parts[1..], p, sep);
    }
  }

  /** `errors.full_messages.join(", ")` */
  function Detail(errs: seq<FieldError>): string {
    Join(FullMessages(errs), ", ")
  }

  /** The detail of one more error is the detail so far, a comma and the new
      error's full message. */
  lemma DetailAppend(errs: seq<FieldError>, e: FieldError)
    requires errs != []
    ensures Detail(errs + [e]) == Detail(errs) + ", " + FullMessage(e)
  {
    assert FullMessages(errs + [e]) == FullMessages(errs) + [FullMessage(e)];
    JoinSnoc(FullMessages(errs), FullMessage(e), ", ");
  }

  /** The message of `update!`'s `ActiveRecord::RecordInvalid`. */
  function RecordInvalidMessage(errs: seq<FieldError>): string {
    "Validation failed: " + Detail(errs)
  }

  /** The errors object as a mapping from key to messages, built the way the
      errors were added: one at a time, each appended under its key. */
  function ErrorMap(errs: seq<FieldError>): map<string, seq<string>> {
    if errs == [] then map[]
    else
      var m := ErrorMap(errs[..|errs| - 1]);
      var e := errs[|errs| - 1];
      var k := ErrorKey(e);
      m[k := (if k in m then m[k] else []) + [Message(e.kind)]]
  }

  /** The messages of the errors under key `k`, in the order they were added. */
  function MessagesFor(errs: seq<FieldError>, k: string): seq<string> {
    if errs == [] then []
    else (if ErrorKey(errs[0]) == k then [Message(errs[0].kind)] else []) + MessagesFor(errs[1..], k)
  }

  lemma {:induction false} MessagesForAppend(errs: seq<FieldError>, e: FieldError, k: string)
    ensures MessagesFor(errs + [e], k) == MessagesFor(errs, k) + (if ErrorKey(e) == k then [Message(e.kind)] else [])
  {
    if errs != [] {
      assert (errs + [e])[1..] == errs[1..] + [e];
      MessagesForAppend(errs[1..], e, k);
    }
  }

  /** Every error's message is listed under its key. */
  lemma {:induction false} MessagesForContains(errs: seq<FieldError>, e: FieldError)
    requires e in errs
    ensures Message(e.kind) in MessagesFor(errs, ErrorKey(e))
  {
    if errs[0] != e {
      assert e in errs[1..];
      MessagesForContains(errs[1..], e);
    }
  }

  /** The mapping holds a key exactly when some error has it, and under that key
      every message of the errors with that key, in order. */
  lemma {:induction false} ErrorMapGroupsByKey(errs: seq<FieldError>, k: string)
    ensures k in ErrorMap(errs) <==> MessagesFor(errs, k) != []
    ensures k in ErrorMap(errs) ==> ErrorMap(errs)[k] == MessagesFor(errs, k)
  {
    if errs != [] {
      var init, e := errs[..|errs| - 1], errs[|errs| - 1];
      assert errs == init + [e];
      ErrorMapGroupsByKey(init, k);
      MessagesForAppend(init, e, k);
    }
  }

  /** Every error's message is listed under its key in the mapping. */
  lemma ErrorListed(errs: seq<FieldError>, e: FieldError)
    requires e in errs
    ensures ErrorKey(e) in ErrorMap(errs) && Message(e.kind) in ErrorMap(errs)[ErrorKey(e)]
  {
    MessagesForContains(errs, e);
    ErrorMapGroupsByKey(errs, ErrorKey(e));
  }

  /** Rails' `blank?` on the attribute, as `validates :x, presence: true` applies it. */
  function Presence(attribute: Attribute, v: Option<string>): seq<FieldError> {
    if Blank(v) then [FieldError(false, attribute, CantBeBlank)] else []
  }

  /** The company name passes presence and `length: { maximum: 256 }`. */
  predicate ValidName(name: Option<string>) {
    !Blank(name) && |name.value| <= MaxNameLength
  }

  /** The address passes its presence validations (`address.valid?`). */
  predicate ValidAddress(a: Address) {
    !Blank(a.street) && !Blank(a.city) && !Blank(a.country)
  }

  /** Presence and `length: { maximum: 256 }` (which lets nil through). */
  function NameErrors(name: Option<string>): (errs: seq<FieldError>)
    ensures errs == [] <==> ValidName(name)
    ensures forall i :: 0 <= i < |errs| ==> errs[i].kind == CantBeBlank || errs[i].kind == TooLong
  {
    Presence(Name, name)
    + (if name.Some? && |name.value| > MaxNameLength then [FieldError(false, Name, TooLong)] else [])
  }

  /** `numericality: { only_integer: true }`, which reads the raw text: an
      integer literal passes, another number is "must be an integer", anything
      else, nil included, "is not a number". */
  function NumericalityErrors(raw: Option<string>): (errs: seq<FieldError>)
    ensures errs == [] <==> raw.Some? && IsIntegerLiteral(raw.value)
    ensures errs == [FieldError(false, RegistrationNumber, NotAnInteger)] <==>
      raw.Some? && !IsIntegerLiteral(raw.value) && IsNumeric(raw.value)
    ensures errs == [FieldError(false, RegistrationNumber, NotANumber)] <==>
      raw.None? || !IsNumeric(raw.value)
  {
    if raw.Some? && IsIntegerLiteral(raw.value) then
      IntegerLiteralNumeric(raw.value);
      []
    else if raw.Some? && IsNumeric(raw.value) then [FieldError(false, RegistrationNumber, NotAnInteger)]
    else [FieldError(false, RegistrationNumber, NotANumber)]
  }

  /** Presence, uniqueness (`taken`: another company already holds the cast
      value) and numericality, in that order. */
  function RegistrationNumberErrors(raw: Option<string>, taken: bool): (errs: seq<FieldError>)
    ensures errs == [] <==> raw.Some? && IsIntegerLiteral(raw.value) && !taken
    ensures taken ==> FieldError(false, RegistrationNumber, AlreadyTaken) in errs
    ensures !taken ==> forall i :: 0 <= i < |errs| ==> errs[i].kind != AlreadyTaken
  {
    var presence := Presence(RegistrationNumber, raw);
    var uniqueness := if taken then [FieldError(false, RegistrationNumber, AlreadyTaken)] else [];
    var numericality := NumericalityErrors(raw);
    assert raw.Some? && IsIntegerLiteral(raw.value) ==> !IsSpace(raw.value[0]);
    assert taken ==> (presence + uniqueness + numericality)[|presence|] == FieldError(false, RegistrationNumber, AlreadyTaken);
    presence + uniqueness + numericality
  }

  /** A blank number, and only a blank one, reports "can't be blank"; the
      numericality check's verdict closes the list. */
  lemma RegistrationNumberErrorsCases(raw: Option<string>, taken: bool)
    ensures FieldError(false, RegistrationNumber, CantBeBlank) in RegistrationNumberErrors(raw, taken) <==> Blank(raw)
    ensures var errs, n := RegistrationNumberErrors(raw, taken), NumericalityErrors(raw);
      |n| <= |errs| && errs[|errs| - |n|..] == n
  {
    var presence := Presence(RegistrationNumber, raw);
    var uniqueness := if taken then [FieldError(false, RegistrationNumber, AlreadyTaken)] else [];
    var numericality := NumericalityErrors(raw);
    assert FieldError(false, RegistrationNumber, CantBeBlank) !in numericality by {
      NumericalityKinds(raw);
    }
    ConcatParts(presence, uniqueness, numericality, FieldError(false, RegistrationNumber, CantBeBlank));
  }

  lemma NumericalityKinds(raw: Option<string>)
    ensures forall e :: e in NumericalityErrors(raw) ==> e.kind == NotAnInteger || e.kind == NotANumber
  {
  }

  lemma ConcatParts(p: seq<FieldError>, u: seq<FieldError>, n: seq<FieldError>, e: FieldError)
    requires e !in u && e !in n
    ensures e in p + u + n <==> e in p
    ensures (p + u + n)[|p + u|..] == n
  {
  }

  /** A text that is not blank and no number fails numericality with "is not
      a number", after the uniqueness failure when there is one. */
  lemma NotANumberOnly(t: string, taken: bool)
    requires !Blank(Some(t)) && !IsNumeric(t)
    ensures RegistrationNumberErrors(Some(t), taken) ==
      (if taken then [FieldError(false, RegistrationNumber, AlreadyTaken)] else []) + [FieldError(false, RegistrationNumber, NotANumber)]
  {
    assert Presence(RegistrationNumber, Some(t)) == [];
    assert NumericalityErrors(Some(t)) == [FieldError(false, RegistrationNumber, NotANumber)];
  }

  /** A number text that is not blank and reads as a number but not as an
      integer literal gets "must be an integer" and nothing else from an
      untaken number. */
  lemma NotAnIntegerOnly(t: string)
    requires !Blank(Some(t)) && IsNumeric(t) && !IsIntegerLiteral(t)
    ensures RegistrationNumberErrors(Some(t), false) == [FieldError(false, RegistrationNumber, NotAnInteger)]
  {
    assert Presence(RegistrationNumber, Some(t)) == [];
    assert NumericalityErrors(Some(t)) == [FieldError(false, RegistrationNumber, NotAnInteger)];
  }

  /** A new company whose number is an integer literal with a space before or
      after it gets "must be an integer" and nothing else from the number. */
  lemma PaddedNumberNotAnInteger(s: string)
    requires IsIntegerLiteral(s)
    ensures RegistrationNumberErrors(Some(" " + s), false) == [FieldError(false, RegistrationNumber, NotAnInteger)]
    ensures RegistrationNumberErrors(Some(s + " "), false) == [FieldError(false, RegistrationNumber, NotAnInteger)]
  {
    LeadingSpaceLiteral(s);
    NotAnIntegerOnly(" " + s);
    TrailingSpaceLiteral(s);
    NotAnIntegerOnly(s + " ");
  }

  /** A blank name, and only a blank one, reports "can't be blank"; a name
      over the limit, and only such a name, reports "is too long". */
  lemma NameErrorsCases(name: Option<string>)
    ensures FieldError(false, Name, CantBeBlank) in NameErrors(name) <==> Blank(name)
    ensures FieldError(false, Name, TooLong) in NameErrors(name) <==> name.Some? && |name.value| > MaxNameLength
  {
  }

  /** Street, city and country must be present; the postal code is free. */
  function AddressErrors(a: Address): (errs: seq<FieldError>)
    ensures errs == [] <==> ValidAddress(a)
    ensures forall i :: 0 <= i < |errs| ==> !errs[i].nested && errs[i].kind == CantBeBlank
  {
    Presence(Street, a.street) + Presence(City, a.city) + Presence(Country, a.country)
  }

  /** Each blank field is reported under its own attribute, and only a blank
      one. */
  lemma AddressErrorsCases(a: Address)
    ensures FieldError(false, Street, CantBeBlank) in AddressErrors(a) <==> Blank(a.street)
    ensures FieldError(false, City, CantBeBlank) in AddressErrors(a) <==> Blank(a.city)
    ensures FieldError(false, Country, CantBeBlank) in AddressErrors(a) <==> Blank(a.country)
  {
  }

  /** The errors of the addresses as their company reports them. */
  function NestedErrors(addresses: seq<Address>): (errs: seq<FieldError>)
    ensures errs == [] <==> forall i :: 0 <= i < |addresses| ==> ValidAddress(addresses[i])
    ensures forall i :: 0 <= i < |errs| ==> errs[i].nested && errs[i].kind == CantBeBlank
  {
    if addresses == [] then []
    else
      var own := AddressErrors(addresses[0]);
      seq(|own|, i requires 0 <= i < |own| => own[i].(nested := true)) + NestedErrors(addresses[1..])
  }

  /** One address's errors, reported under `addresses.`. */
  lemma OneAddressErrors(a: Address)
    ensures NestedErrors([a]) == seq(|AddressErrors(a)|, i requires 0 <= i < |AddressErrors(a)| => AddressErrors(a)[i].(nested := true))
  {
    assert [a][1..] == [];
  }
}

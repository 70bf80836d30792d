/** The validated fields of a contact (`AbstractField` and its five
    subclasses in AddressBook.py), as one closed datatype of variants, the
    validation rule of each variant, the field object whose `value` setter
    validates before it stores, and the errors the core raises. */
module Fields {
  import opened Wrappers
  import opened Text
  import opened Dates

  /** The field variants: `Name`, `Phone`, `Email`, `Birthday`, `Address`. */
  datatype Kind = NameKind | PhoneKind | EmailKind | BirthdayKind | AddressKind

  /** The value of a field object: its variant and the string it stores
      (`str(field)` is exactly that string). */
  datatype Field = Field(kind: Kind, value: string)

  /** The exceptions the core raises, one constructor per distinct cause. */
  datatype Error =
    | Invalid(kind: Kind, quoted: string) // ValueError from a field's validator, with the text its message quotes
    | DuplicatePhone(phone: string)       // ValueError: the phone is already in the record
    | PhoneNotFound(phone: string)        // ValueError: the phone is not in the record
    | NoBirthday                          // KeyError or AttributeError: no birthday set
    | NoSuchDate(date: Date)              // ValueError from `date.replace`
    | NotARecord                          // TypeError: the value is not a Record
    | DuplicateKey(key: string)           // KeyError: the name is already in contacts
    | KeyNotFound(key: string)            // KeyError: the name is not in the book
    | NotDigits(input: string)            // ValueError: the day count is not a number
    | DateOverflow                        // OverflowError from `date + timedelta`
    | BadItemNumber(n: int)               // ValueError: the batch size is not positive

  // ---------------------------------------------------------------------
  // The five validation rules

  /** Name: longer than two characters. In the source this rule is written
      as a name-mangled `__validate`, so it never replaces the abstract
      `_validate` hook; the model applies the rule as stated. */
  predicate NameValid(s: string) {
    |s| > 2
  }

  /** The alternatives of the phone pattern, each followed by nine digits. */
  const PhonePrefixes: seq<string> := ["+380", "380", "80", "0"]

  /** `cleaned` is prefix number `k` followed by exactly nine digits. */
  predicate PhoneMatchesAt(cleaned: string, k: int)
    requires 0 <= k < |PhonePrefixes|
  {
    var p := PhonePrefixes[k];
    |cleaned| == |p| + 9 && cleaned[..|p|] == p && AllDigits(cleaned[|p|..])
  }

  /** Phone: with spaces, parentheses and hyphens deleted, the text fully
      matches `+380`, `380`, `80` or `0` followed by nine digits. */
  predicate PhoneValid(s: string) {
    exists k :: 0 <= k < |PhonePrefixes| && PhoneMatchesAt(StripSeparators(s), k)
  }

  /** The email pattern `[a-zA-Z]{1}[\S.]+@[a-zA-Z]+\.[a-zA-Z]{2,}` matched
      against all of `s`, with its `@` at index `at` and its `.` at `dot`. */
  predicate EmailSplitAt(s: string, at: int, dot: int) {
    2 <= at && at + 1 < dot && dot + 3 <= |s|
    && IsLetter(s[0]) && NoWhitespace(s[1..at]) && s[at] == '@'
    && AllLetters(s[at + 1..dot]) && s[dot] == '.' && AllLetters(s[dot + 1..])
  }

  /** Email: some split of `s` fits the pattern. */
  predicate EmailValid(s: string) {
    exists at, dot :: 0 <= at < dot < |s| && EmailSplitAt(s, at, dot)
  }

  /** Birthday: an ISO calendar date whose year is not after today's year. */
  predicate BirthdayValid(s: string, today: Date) {
    ParseIso(s).Some? && ParseIso(s).value.year <= today.year
  }

  /** Address: not all whitespace, and 5 to 50 characters long. */
  predicate AddressValid(s: string) {
    !IsSpaceString(s) && 5 <= |s| <= 50
  }

  /** What a stored value of the variant satisfies on every later day: the
      rule itself, except that a birthday is only known to be a date. */
  predicate WellFormedValue(kind: Kind, s: string) {
    match kind
    case NameKind => NameValid(s)
    case PhoneKind => PhoneValid(s)
    case EmailKind => EmailValid(s)
    case BirthdayKind => ParseIso(s).Some?
    case AddressKind => AddressValid(s)
  }

  predicate WellFormed(f: Field) {
    WellFormedValue(f.kind, f.value)
  }

  /** What the variant's validator accepts on the day `today`. */
  predicate Accepts(kind: Kind, s: string, today: Date) {
    if kind == BirthdayKind then BirthdayValid(s, today) else WellFormedValue(kind, s)
  }

  /** The text a validator's error message quotes: the phone validator
      rebinds its argument to the cleaned text before it raises, the other
      validators quote the argument as given. */
  function Quoted(kind: Kind, s: string): string {
    if kind == PhoneKind then StripSeparators(s) else s
  }

  /** Only the birthday rule consults the date; the operations that validate
      other variants pass this day, and any other would do (see
      UndatedRules). */
  const AnyDay: Date := Date(MinYear, 1, 1)

  lemma UndatedRules(kind: Kind, s: string, d1: Date, d2: Date)
    requires kind != BirthdayKind
    ensures Accepts(kind, s, d1) == Accepts(kind, s, d2)
  {
  }

  // ---------------------------------------------------------------------
  // Conversion of constructor and method arguments

  /** An argument typed `Phone | str` (and alike): a raw string, or a field
      object that already exists. */
  datatype FieldArg = Raw(text: string) | Existing(field: Field)

  /** The string an argument compares as under `AbstractField.__eq__`. */
  function ArgText(a: FieldArg): string {
    match a
    case Raw(t) => t
    case Existing(f) => f.value
  }

  /** An existing field handed in for a slot is an object of that variant,
      which validated when it was made. */
  predicate Fits(a: FieldArg, kind: Kind) {
    a.Existing? ==> a.field.kind == kind && WellFormed(a.field)
  }

  /** The record's `_phone`, `_email`, ... helpers: wrap a raw string into a
      new field of the variant (running its validator) or pass an existing
      field through. */
  function Convert(kind: Kind, a: FieldArg, today: Date): (r: Result<Field, Error>)
    requires Fits(a, kind)
    ensures r.Ok? ==> r.value.kind == kind && r.value.value == ArgText(a) && WellFormed(r.value)
    ensures r.Err? <==> a.Raw? && !Accepts(kind, a.text, today)
    ensures r.Err? ==> r.error == Invalid(kind, Quoted(kind, a.text))
  {
    match a
    case Existing(f) => Ok(f)
    case Raw(t) => if Accepts(kind, t, today) then Ok(Field(kind, t)) else Err(Invalid(kind, Quoted(kind, t)))
  }

  /** `AbstractField.__eq__`: a field equals a raw string or another field
      when the stored strings are equal. */
  predicate Equals(f: Field, other: FieldArg) {
    f.value == ArgText(other)
  }

  // ---------------------------------------------------------------------
  // A field object and its setter

  /** An `AbstractField` object: a variant fixed at creation and the value
      its setter replaces. */
  class FieldCell {
    const kind: Kind
    var value: string

    /** Construction with a value the validator accepts. */
    constructor (kind: Kind, raw: string, today: Date)
      requires Accepts(kind, raw, today)
      ensures this.kind == kind && value == raw
    {
      this.kind := kind;
      value := raw;
    }

    /** `Kind(raw)`: the validator runs first; the object exists only if it passes. */
    static method New(kind: Kind, raw: string, today: Date) returns (r: Result<FieldCell, Error>)
      ensures r.Ok? <==> Accepts(kind, raw, today)
      ensures r.Ok? ==> fresh(r.value) && r.value.kind == kind && r.value.value == raw
      ensures r.Err? ==> r.error == Invalid(kind, Quoted(kind, raw))
    {
      if Accepts(kind, raw, today) {
        var cell := new FieldCell(kind, raw, today);
        r := Ok(cell);
      } else {
        r := Err(Invalid(kind, Quoted(kind, raw)));
      }
    }

    /** The `value` setter: validate, then store the argument unchanged; a
        rejected value leaves the old one in place. */
    method SetValue(raw: string, today: Date) returns (r: Outcome<Error>)
      modifies this`value
      ensures r == if Accepts(kind, raw, today) then Pass else Fail(Invalid(kind, Quoted(kind, raw)))
      ensures value == if r.Pass? then raw else old(value)
    {
      if Accepts(kind, raw, today) {
        value := raw;
        r := Pass;
      } else {
        r := Fail(Invalid(kind, Quoted(kind, raw)));
      }
    }
  }

  // ---------------------------------------------------------------------
  // Properties of the rules

  /** The canonical `+380` form the phone validator computes and discards. */
  function Canonical(s: string): (c: string)
    requires PhoneValid(s)
  {
    var v := StripSeparators(s);
    assert |v| >= 10;
    "+380" + v[|v| - 9..]
  }

  /** The canonical form is `+380` and nine digits: thirteen characters. */
  lemma CanonicalShape(s: string)
    requires PhoneValid(s)
    ensures |Canonical(s)| == 13 && Canonical(s)[..4] == "+380" && AllDigits(Canonical(s)[4..])
  {
    var v := StripSeparators(s);
    var k :| 0 <= k < |PhonePrefixes| && PhoneMatchesAt(v, k);
    var p := PhonePrefixes[k];
    assert v[|v| - 9..] == v[|p|..];
    assert Canonical(s)[4..] == v[|v| - 9..];
  }

  /** Each accepted spelling keeps its nine digits: the prefix, whichever it
      is, is replaced by `+380`. */
  lemma CanonicalOfPrefixed(s: string, k: int, digits: string)
    requires 0 <= k < |PhonePrefixes|
    requires |digits| == 9 && AllDigits(digits)
    requires StripSeparators(s) == PhonePrefixes[k] + digits
    ensures PhoneValid(s)
    ensures Canonical(s) == "+380" + digits
  {
    var v := StripSeparators(s);
    var p := PhonePrefixes[k];
    assert v[..|p|] == p && v[|p|..] == digits;
    assert PhoneMatchesAt(v, k);
    assert v[|v| - 9..] == digits;
  }

  /** The phone rule ignores separators: the stripped text is accepted
      exactly when the original is. */
  lemma PhoneValidIgnoresSeparators(s: string)
    ensures PhoneValid(StripSeparators(s)) == PhoneValid(s)
  {
    StripSeparatorsKeeps(StripSeparators(s));
  }

  /** A rejected phone's error quotes the cleaned text: for `093 111` the
      message shows `093111`, not the argument. */
  lemma PhoneErrorQuotesCleanedText()
    ensures Convert(PhoneKind, Raw("093 111"), AnyDay) == Err(Invalid(PhoneKind, "093111"))
  {
    var s := "093 111";
    StripExample();
    var v := StripSeparators(s);
    forall k | 0 <= k < |PhonePrefixes|
      ensures !PhoneMatchesAt(v, k)
    {
      assert |PhonePrefixes[k]| >= 1;
    }
    assert !Accepts(PhoneKind, s, AnyDay);
  }

  lemma StripExample()
    ensures StripSeparators("093 111") == "093111"
  {
    var s := "093 111";
    assert s[1..][1..][1..][1..] == "111";
  }

  /** An accepted phone has 10 to 13 characters once separators are removed. */
  lemma PhoneLength(s: string)
    requires PhoneValid(s)
    ensures 10 <= |StripSeparators(s)| <= 13
  {
    var k :| 0 <= k < |PhonePrefixes| && PhoneMatchesAt(StripSeparators(s), k);
  }

  /** Phones compare by the raw strings they store, not by canonical form:
      a national number written with and without a space is accepted both
      ways, has one canonical form, and yet the two phones are not equal. */
  lemma PhoneEqualityIsRaw(digits: string)
    requires |digits| == 9 && AllDigits(digits)
    ensures var plain, spaced := "0" + digits, "0" + digits[..2] + " " + digits[2..];
      && PhoneValid(plain) && PhoneValid(spaced)
      && Canonical(plain) == Canonical(spaced) == "+380" + digits
      && !Equals(Field(PhoneKind, plain), Raw(spaced))
  {
    var plain, spaced := "0" + digits, "0" + digits[..2] + " " + digits[2..];
    StripSeparatorsKeeps(plain);
    StripSeparatorsKeeps("0" + digits[..2]);
    StripSeparatorsKeeps(digits[2..]);
    StripSeparatorsAppend("0" + digits[..2] + " ", digits[2..]);
    StripSeparatorsAppend("0" + digits[..2], " ");
    assert StripSeparators(" ") == "";
    assert "0" + digits[..2] + digits[2..] == plain;
    assert PhonePrefixes[3] == "0";
    CanonicalOfPrefixed(plain, 3, digits);
    CanonicalOfPrefixed(spaced, 3, digits);
    assert |plain| != |spaced|;
  }

  /** The pattern splits an email at its last `@` and its last `.`, so the
      split, when there is one, is unique. */
  lemma {:induction false} EmailSplitUnique(s: string, at1: int, dot1: int, at2: int, dot2: int)
    requires EmailSplitAt(s, at1, dot1) && EmailSplitAt(s, at2, dot2)
    ensures at1 == at2 && dot1 == dot2
  {
    if at1 < at2 {
      EmailTailHasNoAt(s, at1, dot1, at2);
    } else if at2 < at1 {
      EmailTailHasNoAt(s, at2, dot2, at1);
    }
  }

  lemma EmailTailHasNoAt(s: string, at: int, dot: int, i: int)
    requires EmailSplitAt(s, at, dot) && at < i < |s|
    ensures s[i] != '@'
  {
    if i < dot {
      assert s[at + 1..dot][i - at - 1] == s[i];
    } else if i > dot {
      assert s[dot + 1..][i - dot - 1] == s[i];
    }
  }

  /** An accepted email starts with a letter, contains an `@` and is at
      least seven characters long: a letter, one more character, `@`, a
      letter, `.` and two letters. */
  lemma EmailShape(s: string)
    requires EmailValid(s)
    ensures |s| >= 7 && IsLetter(s[0]) && '@' in s
  {
    var at, dot :| 0 <= at < dot < |s| && EmailSplitAt(s, at, dot);
  }

  /** No ISO date is an email: its first character is a digit. */
  lemma IsoDateIsNotEmail(d: Date)
    requires ValidDate(d)
    ensures !EmailValid(IsoFormat(d))
  {
    var s := IsoFormat(d);
    assert s[..4][0] == s[0];
    assert IsDigit(s[0]);
  }

  /** An address is accepted exactly when it has 5 to 50 characters and at
      least one of them is not whitespace. */
  lemma AddressValidIff(s: string)
    ensures AddressValid(s) <==> 5 <= |s| <= 50 && exists i :: 0 <= i < |s| && !IsWhitespace(s[i])
  {
  }

  /** A birthday accepted today is still a well-formed date later on, and
      one accepted today would also be accepted on any later day. */
  lemma BirthdayStaysValid(s: string, today: Date, later: Date)
    requires BirthdayValid(s, today) && today.year <= later.year
    ensures BirthdayValid(s, later) && WellFormedValue(BirthdayKind, s)
  {
  }
}

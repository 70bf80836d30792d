/** One contact (`Record` in AddressBook.py): its field values, the object
    whose phone list and optional fields change in place, the distance to
    the next birthday, the text `search` looks in, and the dictionary form
    `to_dict` writes and `from_dict` reads back. */
module Records {
  import opened Wrappers
  import opened Text
  import opened Dates
  import opened Fields
  import Collections

  /** The values a record holds: a name, the phones in order, and the
      optional email, birthday and address. */
  datatype Contact = Contact(
    name: Field,
    phones: seq<Field>,
    email: Option<Field>,
    birthday: Option<Field>,
    address: Option<Field>)

  predicate OptFits(o: Option<Field>, kind: Kind) {
    o.Some? ==> o.value.kind == kind && WellFormed(o.value)
  }

  predicate PhonesFit(phones: seq<Field>) {
    forall i :: 0 <= i < |phones| ==> phones[i].kind == PhoneKind && WellFormed(phones[i])
  }

  /** Every slot holds a field of its own variant that passed validation. */
  predicate ValidContact(c: Contact) {
    c.name.kind == NameKind && WellFormed(c.name) && PhonesFit(c.phones)
    && OptFits(c.email, EmailKind) && OptFits(c.birthday, BirthdayKind) && OptFits(c.address, AddressKind)
  }

  // ---------------------------------------------------------------------
  // Phone lists, compared with `AbstractField.__eq__`

  /** `text in phones`. */
  predicate HasPhone(phones: seq<Field>, text: string) {
    exists i :: 0 <= i < |phones| && phones[i].value == text
  }

  /** `phones.index(text)`: the first position holding the text. */
  function IndexOf(phones: seq<Field>, text: string): (i: nat)
    requires HasPhone(phones, text)
    ensures i < |phones| && phones[i].value == text
    ensures forall j :: 0 <= j < i ==> phones[j].value != text
  {
    if phones[0].value == text then 0
    else
      assert phones[1..][0] == phones[1];
      assert exists i :: 0 <= i < |phones[1..]| && phones[1..][i].value == text by {
        var i :| 0 <= i < |phones| && phones[i].value == text;
        assert phones[1..][i - 1] == phones[i];
      }
      1 + IndexOf(phones[1..], text)
  }

  /** No two phones store the same string. */
  predicate DistinctPhones(phones: seq<Field>) {
    forall i, j :: 0 <= i < j < |phones| ==> phones[i].value != phones[j].value
  }

  // ---------------------------------------------------------------------
  // Construction

  predicate AllFit(args: seq<FieldArg>, kind: Kind) {
    forall i :: 0 <= i < |args| ==> Fits(args[i], kind)
  }

  predicate OptArgFits(a: Option<FieldArg>, kind: Kind) {
    a.Some? ==> Fits(a.value, kind)
  }

  /** `[self._phone(phone) for phone in phones]`: converts in order and
      raises the error of the first argument that does not convert. */
  function ConvertAll(kind: Kind, args: seq<FieldArg>, today: Date): (r: Result<seq<Field>, Error>)
    requires AllFit(args, kind)
    ensures r.Ok? <==> forall i :: 0 <= i < |args| ==> Convert(kind, args[i], today).Ok?
    ensures r.Ok? ==> |r.value| == |args|
    ensures r.Ok? ==> forall i :: 0 <= i < |args| ==> r.value[i] == Convert(kind, args[i], today).value
    ensures r.Err? ==> exists i :: (0 <= i < |args| && Convert(kind, args[i], today) == Err(r.error)
                                   && forall j :: 0 <= j < i ==> Convert(kind, args[j], today).Ok?)
  {
    if args == [] then Ok([])
    else match Convert(kind, args[0], today)
      case Err(e) => Err(e)
      case Ok(f) =>
        match ConvertAll(kind, args[1..], today)
        case Err(e) =>
          assert forall i :: 1 <= i < |args| ==> args[1..][i - 1] == args[i];
          Err(e)
        case Ok(fs) =>
          assert forall i :: 1 <= i < |args| ==> args[1..][i - 1] == args[i];
          Ok([f] + fs)
  }

  /** `None if x is None else self._x(x)`. */
  function ConvertOpt(kind: Kind, a: Option<FieldArg>, today: Date): (r: Result<Option<Field>, Error>)
    requires OptArgFits(a, kind)
    ensures a.None? ==> r == Ok(None)
    ensures a.Some? ==> (r.Ok? <==> a.value.Existing? || Accepts(kind, a.value.text, today))
    ensures a.Some? && r.Ok? ==> r.value == Some(Field(kind, ArgText(a.value))) && WellFormed(r.value.value)
    ensures r.Err? ==> a.Some? && r.error == Invalid(kind, Quoted(kind, a.value.text))
  {
    match a
    case None => Ok(None)
    case Some(x) =>
      match Convert(kind, x, today)
      case Ok(f) => Ok(Some(f))
      case Err(e) => Err(e)
  }

  /** `Record.__init__`: converts the name, the phones, the email, the
      birthday and the address in that order; the first failure is raised
      and no record is made. Duplicate phones are not checked here. */
  function Build(name: FieldArg, phones: seq<FieldArg>, email: Option<FieldArg>,
                 birthday: Option<FieldArg>, address: Option<FieldArg>, today: Date): (r: Result<Contact, Error>)
    requires Fits(name, NameKind) && AllFit(phones, PhoneKind)
    requires OptArgFits(email, EmailKind) && OptArgFits(birthday, BirthdayKind) && OptArgFits(address, AddressKind)
    ensures r.Ok? <==> (Convert(NameKind, name, today).Ok? && ConvertAll(PhoneKind, phones, today).Ok?
                        && ConvertOpt(EmailKind, email, today).Ok? && ConvertOpt(BirthdayKind, birthday, today).Ok?
                        && ConvertOpt(AddressKind, address, today).Ok?)
    ensures r.Ok? ==> ValidContact(r.value)
    ensures r.Ok? ==> r.value.name.value == ArgText(name)
    ensures r.Ok? ==> |r.value.phones| == |phones|
    ensures r.Ok? ==> forall i :: 0 <= i < |phones| ==> r.value.phones[i].value == ArgText(phones[i])
    ensures r.Ok? ==> (r.value.email.Some? <==> email.Some?) && (email.Some? ==> r.value.email.value.value == ArgText(email.value))
    ensures r.Ok? ==> (r.value.birthday.Some? <==> birthday.Some?)
    ensures r.Ok? && birthday.Some? ==> r.value.birthday.value.value == ArgText(birthday.value)
    ensures r.Ok? ==> (r.value.address.Some? <==> address.Some?)
    ensures r.Ok? && address.Some? ==> r.value.address.value.value == ArgText(address.value)
    // The error raised is the first failing conversion's, in the order name, phones, email, birthday, address.
    ensures Convert(NameKind, name, today).Err? ==> r == Err(Convert(NameKind, name, today).error)
    ensures Convert(NameKind, name, today).Ok? && ConvertAll(PhoneKind, phones, today).Err?
            ==> r == Err(ConvertAll(PhoneKind, phones, today).error)
    ensures Convert(NameKind, name, today).Ok? && ConvertAll(PhoneKind, phones, today).Ok?
            && ConvertOpt(EmailKind, email, today).Err?
            ==> r == Err(ConvertOpt(EmailKind, email, today).error)
    ensures Convert(NameKind, name, today).Ok? && ConvertAll(PhoneKind, phones, today).Ok?
            && ConvertOpt(EmailKind, email, today).Ok? && ConvertOpt(BirthdayKind, birthday, today).Err?
            ==> r == Err(ConvertOpt(BirthdayKind, birthday, today).error)
    ensures Convert(NameKind, name, today).Ok? && ConvertAll(PhoneKind, phones, today).Ok?
            && ConvertOpt(EmailKind, email, today).Ok? && ConvertOpt(BirthdayKind, birthday, today).Ok?
            && ConvertOpt(AddressKind, address, today).Err?
            ==> r == Err(ConvertOpt(AddressKind, address, today).error)
  {
    var n :- Convert(NameKind, name, today);
    var ps :- ConvertAll(PhoneKind, phones, today);
    var e :- ConvertOpt(EmailKind, email, today);
    var b :- ConvertOpt(BirthdayKind, birthday, today);
    var a :- ConvertOpt(AddressKind, address, today);
    Ok(Contact(n, ps, e, b, a))
  }

  // ---------------------------------------------------------------------
  // Days to the next birthday

  /** `days_to_birthday`, with `today` for `date.today()`: the birthday's
      month and day are put into this year, rolled to next year when that
      day has passed, and the days from today are counted. Where a
      `date.replace` raises, the `except ValueError` branch runs. */
  function DaysToBirthday(c: Contact, today: Date): (r: Result<int, Error>)
    requires ValidContact(c) && ValidDate(today)
    decreases if c.birthday.Some? then 1 else 0, 1
  {
    if c.birthday.None? then Err(NoBirthday)
    else
      var parsed := ParseIso(c.birthday.value.value);
      if parsed.None? then LeapDayFallback(c, today)
      else
        match NextAnniversary(parsed.value, today)
        case Some(next) => Ok(Ordinal(next) - Ordinal(today))
        case None => LeapDayFallback(c, today)
  }

  /** The two `date.replace` calls: the birthday moved into this year, or
      into next year when this year's has passed; `None` where the needed
      one raises. */
  function NextAnniversary(b: Date, today: Date): Option<Date>
  {
    var thisYear := WithYear(b, today.year);
    if !ValidDate(thisYear) then None
    else if Before(thisYear, today) then
      var nextYear := WithYear(b, today.year + 1);
      if ValidDate(nextYear) then Some(nextYear) else None
    else Some(thisYear)
  }

  /** The `except ValueError` branch as written: it builds
      `Record(self.name, [], feb28.isoformat())`, where the date string lands
      in the email slot, and returns that record's distance plus one. */
  function LeapDayFallback(c: Contact, today: Date): (r: Result<int, Error>)
    requires ValidContact(c) && ValidDate(today) && c.birthday.Some?
    decreases 1, 0
  {
    var iso := IsoFormat(Date(today.year, 2, 28));
    match Build(Existing(c.name), [], Some(Raw(iso)), None, None, today)
    case Err(e) => Err(e)
    case Ok(temp) =>
      match DaysToBirthday(temp, today)
      case Ok(n) => Ok(n + 1)
      case Err(e) => Err(e)
  }

  /** The failures of `days_to_birthday`: no birthday, or, in every other
      case that fails, the email validator rejecting the Feb-28 date the
      fallback passes. The fallback therefore never yields a number. */
  lemma DaysToBirthdayErrors(c: Contact, today: Date)
    requires ValidContact(c) && ValidDate(today)
    ensures c.birthday.None? ==> DaysToBirthday(c, today) == Err(NoBirthday)
    ensures c.birthday.Some? && DaysToBirthday(c, today).Err? ==>
              DaysToBirthday(c, today) == Err(Invalid(EmailKind, IsoFormat(Date(today.year, 2, 28))))
  {
    if c.birthday.Some? {
      LeapDayFallbackFails(c, today);
    }
  }

  lemma LeapDayFallbackFails(c: Contact, today: Date)
    requires ValidContact(c) && ValidDate(today) && c.birthday.Some?
    ensures LeapDayFallback(c, today) == Err(Invalid(EmailKind, IsoFormat(Date(today.year, 2, 28))))
  {
    IsoDateIsNotEmail(Date(today.year, 2, 28));
  }

  /** A distance exists exactly when the needed anniversary exists, and
      then it is the days from today to it. */
  lemma DaysToBirthdayOk(c: Contact, today: Date)
    requires ValidContact(c) && ValidDate(today) && c.birthday.Some?
    ensures var b := ParseIso(c.birthday.value.value);
      var r := DaysToBirthday(c, today);
      b.Some? && (r.Ok? <==> NextAnniversary(b.value, today).Some?)
      && (r.Ok? ==> r.value == Ordinal(NextAnniversary(b.value, today).value) - Ordinal(today))
  {
    LeapDayFallbackFails(c, today);
  }

  /** The anniversary found is the nearest one that is not before today,
      at most 365 days ahead. */
  lemma NextAnniversaryNearest(b: Date, today: Date)
    requires ValidDate(today) && NextAnniversary(b, today).Some?
    ensures var next := NextAnniversary(b, today).value;
      ValidDate(next) && SameMonthDay(next, b) && !Before(next, today)
      && Ordinal(next) - Ordinal(today) <= 365
    ensures var next := NextAnniversary(b, today).value;
      forall d :: ValidDate(d) && SameMonthDay(d, b) && !Before(d, today) ==> Ordinal(next) <= Ordinal(d)
  {
    var thisYear := WithYear(b, today.year);
    var next := NextAnniversary(b, today).value;
    OrdinalOrder(thisYear, today);
    if Before(thisYear, today) {
      NextYearGap(thisYear);
      OrdinalOrder(today, next);
    } else {
      DayOfYearBounds(thisYear);
      DayOfYearBounds(today);
    }
    forall d | ValidDate(d) && SameMonthDay(d, b) && !Before(d, today)
      ensures Ordinal(next) <= Ordinal(d)
    {
      OrdinalOrder(next, d);
    }
  }

  /** A birthday other than Feb 29 always has a distance, unless the next
      anniversary would fall after year 9999. */
  lemma DaysToBirthdayDefined(c: Contact, today: Date)
    requires ValidContact(c) && ValidDate(today) && c.birthday.Some?
    requires var b := ParseIso(c.birthday.value.value).value; !(b.month == 2 && b.day == 29)
    requires today.year < MaxYear
    ensures DaysToBirthday(c, today).Ok?
  {
    DaysToBirthdayOk(c, today);
  }

  /** A Feb-29 birthday has a distance only in a leap year, up to Feb 29:
      otherwise one of the `replace` calls lands on a day that does not
      exist and the failing fallback runs. */
  lemma LeapDayBirthday(c: Contact, today: Date)
    requires ValidContact(c) && ValidDate(today) && c.birthday.Some?
    requires var b := ParseIso(c.birthday.value.value).value; b.month == 2 && b.day == 29
    ensures DaysToBirthday(c, today).Ok? <==>
              IsLeapYear(today.year) && !Before(Date(today.year, 2, 29), today)
  {
    DaysToBirthdayOk(c, today);
    LeapDayAnniversary(ParseIso(c.birthday.value.value).value, today);
  }

  lemma LeapDayAnniversary(b: Date, today: Date)
    requires ValidDate(today) && b.month == 2 && b.day == 29
    ensures NextAnniversary(b, today).Some? <==> IsLeapYear(today.year) && !Before(Date(today.year, 2, 29), today)
  {
    if IsLeapYear(today.year) {
      assert !IsLeapYear(today.year + 1);
    }
  }

  /** The result counts the days to the nearest anniversary of the birthday
      that is not before today: that day exists, and no earlier one does. */
  lemma DaysToBirthdayNextAnniversary(c: Contact, today: Date, b: Date)
    requires ValidContact(c) && ValidDate(today) && c.birthday.Some?
    requires ParseIso(c.birthday.value.value) == Some(b)
    requires DaysToBirthday(c, today).Ok?
    ensures var n := DaysToBirthday(c, today).value;
      exists d :: ValidDate(d) && SameMonthDay(d, b) && !Before(d, today) && Ordinal(d) == Ordinal(today) + n
    ensures var n := DaysToBirthday(c, today).value;
      forall d :: ValidDate(d) && SameMonthDay(d, b) && !Before(d, today) ==> Ordinal(today) + n <= Ordinal(d)
  {
    DaysToBirthdayOk(c, today);
    NextAnniversaryNearest(b, today);
    var next := NextAnniversary(b, today).value;
    assert Ordinal(next) == Ordinal(today) + DaysToBirthday(c, today).value;
  }

  /** The distance lies between 0 and 365 days. */
  lemma DaysToBirthdayRange(c: Contact, today: Date)
    requires ValidContact(c) && ValidDate(today)
    ensures DaysToBirthday(c, today).Ok? ==> 0 <= DaysToBirthday(c, today).value <= 365
  {
    if c.birthday.Some? {
      DaysToBirthdayOk(c, today);
      var b := ParseIso(c.birthday.value.value).value;
      if NextAnniversary(b, today).Some? {
        NextAnniversaryNearest(b, today);
        OrdinalOrder(NextAnniversary(b, today).value, today);
      }
    }
  }

  /** The distance is zero exactly on the birthday's month and day. */
  lemma DaysToBirthdayZeroIff(c: Contact, today: Date, b: Date)
    requires ValidContact(c) && ValidDate(today) && c.birthday.Some?
    requires ParseIso(c.birthday.value.value) == Some(b)
    requires DaysToBirthday(c, today).Ok?
    ensures DaysToBirthday(c, today).value == 0 <==> SameMonthDay(today, b)
  {
    DaysToBirthdayNextAnniversary(c, today, b);
    DaysToBirthdayRange(c, today);
    var n := DaysToBirthday(c, today).value;
    if n == 0 {
      var d :| ValidDate(d) && SameMonthDay(d, b) && !Before(d, today) && Ordinal(d) == Ordinal(today) + n;
      OrdinalOrder(d, today);
    }
  }

  // ---------------------------------------------------------------------
  // The text `search` looks in

  /** `f'{field}'` of an optional field: its value, or `None` when absent. */
  function Render(o: Option<Field>): (s: string)
    ensures o.None? ==> s == "None"
    ensures o.Some? ==> s == o.value.value
  {
    match o
    case Some(f) => f.value
    case None => "None"
  }

  function PhoneTexts(phones: seq<Field>): (ts: seq<string>)
    ensures |ts| == |phones| && forall i :: 0 <= i < |phones| ==> ts[i] == phones[i].value
  {
    if |phones| == 0 then [] else [phones[0].value] + PhoneTexts(phones[1..])
  }

  /** The name, the space-joined phones, the email, the birthday and the
      address, written one after the other. */
  function SearchText(c: Contact): string {
    c.name.value + Join(" ", PhoneTexts(c.phones)) + Render(c.email) + Render(c.birthday) + Render(c.address)
  }

  /** `search_word.lower() in str_val_record.lower()`. */
  predicate Matches(c: Contact, term: string) {
    Contains(Lower(SearchText(c)), Lower(term))
  }

  /** A term found in the name, in any letter case, finds the record. */
  lemma MatchesName(c: Contact, term: string)
    requires Contains(Lower(c.name.value), Lower(term))
    ensures Matches(c, term)
  {
    var n, j := c.name.value, Join(" ", PhoneTexts(c.phones));
    var e, b, a := Render(c.email), Render(c.birthday), Render(c.address);
    Collections.AppendAssoc(n, j, e);
    Collections.AppendAssoc(n, j + e, b);
    Collections.AppendAssoc(n, j + e + b, a);
    Collections.AppendToEmpty(n);
    MatchesPiece(c, "", n, j + e + b + a, term);
  }

  /** A term found in one of the phones finds the record. */
  lemma MatchesPhone(c: Contact, i: int, term: string)
    requires 0 <= i < |c.phones|
    requires Contains(Lower(c.phones[i].value), Lower(term))
    ensures Matches(c, term)
  {
    var phones := Join(" ", PhoneTexts(c.phones));
    JoinContainsPart(" ", PhoneTexts(c.phones), i);
    ContainsLower(phones, c.phones[i].value, term);
    var rest := Render(c.email) + Render(c.birthday) + Render(c.address);
    assert SearchText(c) == c.name.value + phones + rest;
    MatchesPiece(c, c.name.value, phones, rest, term);
  }

  /** A term found in the rendered email, birthday or address finds the
      record. */
  lemma MatchesOptional(c: Contact, which: Kind, term: string)
    requires which in {EmailKind, BirthdayKind, AddressKind}
    requires Contains(Lower(Render(OptionalOf(c, which))), Lower(term))
    ensures Matches(c, term)
  {
    var head := c.name.value + Join(" ", PhoneTexts(c.phones));
    var e, b, a := Render(c.email), Render(c.birthday), Render(c.address);
    assert SearchText(c) == head + e + b + a;
    if which == EmailKind {
      MatchesPiece(c, head, e, b + a, term);
    } else if which == BirthdayKind {
      MatchesPiece(c, head + e, b, a, term);
    } else {
      MatchesPiece(c, head + e + b, a, "", term);
    }
  }

  /** The optional field of the given kind. */
  function OptionalOf(c: Contact, which: Kind): Option<Field> {
    match which
    case EmailKind => c.email
    case BirthdayKind => c.birthday
    case AddressKind => c.address
    case _ => None
  }

  lemma MatchesPiece(c: Contact, pre: string, part: string, post: string, term: string)
    requires SearchText(c) == pre + part + post
    requires Contains(Lower(part), Lower(term))
    ensures Matches(c, term)
  {
    LowerConcat(pre, part);
    LowerConcat(pre + part, post);
    ContainsWithin(Lower(pre), Lower(part), Lower(post), Lower(term));
  }

  /** An absent email, birthday or address renders as `None`, so the term
      `none`, in any case, finds the record. */
  lemma AbsentFieldMatchesNone(c: Contact, which: Kind, term: string)
    requires which in {EmailKind, BirthdayKind, AddressKind}
    requires OptionalOf(c, which).None?
    requires Lower(term) == "none"
    ensures Matches(c, term)
  {
    assert Lower(Render(None)) == "none";
    EqualContains(Lower(term));
    MatchesOptional(c, which, term);
  }

  lemma EqualContains(s: string)
    ensures Contains(s, s)
  {
    assert OccursAt(s, s, 0);
    ContainsAt(s, s, 0);
  }

  lemma ContainsLower(hay: string, part: string, term: string)
    requires Contains(hay, part) && Contains(Lower(part), Lower(term))
    ensures Contains(Lower(hay), Lower(term))
  {
    var i := ContainsWitness(hay, part);
    var lp, lt := Lower(part), Lower(term);
    var j := ContainsWitness(lp, lt);
    var lh := Lower(hay);
    LowerSlice(hay, i, i + |part|);
    assert lh[i..i + |part|] == lp;
    SliceOfSlice(lh, i, i + |part|, j, j + |term|);
    assert OccursAt(lh, lt, i + j);
    ContainsAt(lh, lt, i + j);
  }

  lemma LowerSlice(s: string, a: int, b: int)
    requires 0 <= a <= b <= |s|
    ensures Lower(s)[a..b] == Lower(s[a..b])
  {
  }

  lemma SliceOfSlice(s: string, a: int, b: int, c: int, d: int)
    requires 0 <= a <= b <= |s| && 0 <= c <= d <= b - a
    ensures s[a..b][c..d] == s[a + c..a + d]
  {
    assert forall k :: 0 <= k < d - c ==> s[a..b][c..d][k] == s[a..b][c + k] == s[a + c + k];
  }

  lemma ContainsWithin(pre: string, s: string, post: string, needle: string)
    requires Contains(s, needle)
    ensures Contains(pre + s + post, needle)
  {
    var i := ContainsWitness(s, needle);
    var h := pre + s + post;
    assert h[|pre| + i..|pre| + i + |needle|] == s[i..i + |needle|];
    assert OccursAt(h, needle, |pre| + i);
    ContainsAt(h, needle, |pre| + i);
  }

  lemma LowerConcat(a: string, b: string)
    ensures Lower(a + b) == Lower(a) + Lower(b)
  {
  }

  lemma {:induction false} JoinContainsPart(sep: string, parts: seq<string>, i: int)
    requires 0 <= i < |parts|
    ensures Contains(Join(sep, parts), parts[i])
  {
    var n := |parts|;
    if n == 1 {
      EqualContains(parts[0]);
    } else {
      var front := Join(sep, parts[..n - 1]);
      assert Join(sep, parts) == front + sep + parts[n - 1];
      if i == n - 1 {
        EqualContains(parts[i]);
        ContainsWithin(front + sep, parts[i], "", parts[i]);
        assert front + sep + parts[i] + "" == Join(sep, parts);
      } else {
        JoinContainsPart(sep, parts[..n - 1], i);
        ContainsWithin("", front, sep + parts[n - 1], parts[i]);
        assert "" + front + (sep + parts[n - 1]) == Join(sep, parts);
      }
    }
  }

  // ---------------------------------------------------------------------
  // Dictionary form

  /** The sub-dictionary `to_dict` writes under a record's name: the phone
      strings and the optional strings (`None` where absent). */
  datatype Entry = Entry(phones: seq<string>, email: Option<string>, birthday: Option<string>, address: Option<string>)

  function OptText(o: Option<Field>): Option<string> {
    match o
    case Some(f) => Some(f.value)
    case None => None
  }

  /** `Record.to_dict`: the single pair `name: entry`. */
  function ToDict(c: Contact): (string, Entry) {
    (c.name.value, Entry(PhoneTexts(c.phones), OptText(c.email), OptText(c.birthday), OptText(c.address)))
  }

  function RawArgs(ts: seq<string>): (args: seq<FieldArg>)
    ensures |args| == |ts| && forall i :: 0 <= i < |ts| ==> args[i] == Raw(ts[i])
  {
    if |ts| == 0 then [] else [Raw(ts[0])] + RawArgs(ts[1..])
  }

  function RawOpt(o: Option<string>): Option<FieldArg> {
    match o
    case Some(t) => Some(Raw(t))
    case None => None
  }

  /** `Record(name=name, phones=entry['phones'], ...)` as `from_dict` calls it. */
  function FromEntry(name: string, e: Entry, today: Date): Result<Contact, Error> {
    Build(Raw(name), RawArgs(e.phones), RawOpt(e.email), RawOpt(e.birthday), RawOpt(e.address), today)
  }

  /** Every field would pass its validator on `today` (for the birthday:
      its year is not after today's). */
  predicate AcceptedOn(c: Contact, today: Date) {
    ValidContact(c) && (c.birthday.Some? ==> BirthdayValid(c.birthday.value.value, today))
  }

  /** Exporting a record and building it back from the entry gives the same
      values, as long as its birthday is still not in the future. */
  lemma ToDictRoundTrip(c: Contact, today: Date)
    requires AcceptedOn(c, today)
    ensures FromEntry(ToDict(c).0, ToDict(c).1, today) == Ok(c)
  {
    var (name, e) := ToDict(c);
    var r := FromEntry(name, e, today);
    assert r.Ok?;
    assert r.value.phones == c.phones;
    assert r.value.name == c.name;
  }

  // ---------------------------------------------------------------------
  // The record object

  class Record {
    var name: Field
    var phones: seq<Field>
    var email: Option<Field>
    var birthday: Option<Field>
    var address: Option<Field>

    /** The values the record holds now. */
    function Value(): (c: Contact)
      reads this
      ensures c.name == name && c.phones == phones && c.email == email
      ensures c.birthday == birthday && c.address == address
    {
      Contact(name, phones, email, birthday, address)
    }

    ghost predicate Valid()
      reads this
    {
      ValidContact(Value())
    }

    constructor FromContact(c: Contact)
      requires ValidContact(c)
      ensures Valid() && Value() == c
    {
      name, phones, email, birthday, address := c.name, c.phones, c.email, c.birthday, c.address;
    }

    /** `Record(name, phones, email, birthday, address)`: a new record holding
        the converted arguments, or the first conversion error. */
    static method New(name: FieldArg, phones: seq<FieldArg>, email: Option<FieldArg>,
                      birthday: Option<FieldArg>, address: Option<FieldArg>, today: Date)
      returns (r: Result<Record, Error>)
      requires Fits(name, NameKind) && AllFit(phones, PhoneKind)
      requires OptArgFits(email, EmailKind) && OptArgFits(birthday, BirthdayKind) && OptArgFits(address, AddressKind)
      ensures r.Ok? <==> Build(name, phones, email, birthday, address, today).Ok?
      ensures r.Ok? ==> fresh(r.value) && r.value.Valid()
      ensures r.Ok? ==> r.value.Value() == Build(name, phones, email, birthday, address, today).value
      ensures r.Err? ==> r.error == Build(name, phones, email, birthday, address, today).error
    {
      var built := Build(name, phones, email, birthday, address, today);
      if built.Err? {
        return Err(built.error);
      }
      var rec := new Record.FromContact(built.value);
      r := Ok(rec);
    }

    /** `add_phone`: refuses a phone equal to one already present (checked
        before validation), then validates and appends at the end. */
    method AddPhone(phone: FieldArg) returns (r: Outcome<Error>)
      requires Valid() && Fits(phone, PhoneKind)
      modifies this`phones
      ensures Valid()
      ensures HasPhone(old(phones), ArgText(phone)) ==>
                r == Fail(DuplicatePhone(ArgText(phone))) && phones == old(phones)
      ensures !HasPhone(old(phones), ArgText(phone)) && Convert(PhoneKind, phone, AnyDay).Err? ==>
                r == Fail(Invalid(PhoneKind, StripSeparators(ArgText(phone)))) && phones == old(phones)
      ensures r.Pass? <==> !HasPhone(old(phones), ArgText(phone)) && Convert(PhoneKind, phone, AnyDay).Ok?
      ensures r.Pass? ==> phones == old(phones) + [Convert(PhoneKind, phone, AnyDay).value]
      ensures DistinctPhones(old(phones)) ==> DistinctPhones(phones)
    {
      var text := ArgText(phone);
      if exists i :: 0 <= i < |phones| && phones[i].value == text {
        return Fail(DuplicatePhone(text));
      }
      match Convert(PhoneKind, phone, AnyDay)
      case Err(e) =>
        r := Fail(e);
      case Ok(f) =>
        phones := phones + [f];
        r := Pass;
    }

    /** `remove_phone`: validates, refuses a phone that is not present, and
        otherwise deletes the first equal entry only. */
    method RemovePhone(phone: FieldArg) returns (r: Outcome<Error>)
      requires Valid() && Fits(phone, PhoneKind)
      modifies this`phones
      ensures Valid()
      ensures Convert(PhoneKind, phone, AnyDay).Err? ==>
                r == Fail(Invalid(PhoneKind, StripSeparators(ArgText(phone)))) && phones == old(phones)
      ensures Convert(PhoneKind, phone, AnyDay).Ok? && !HasPhone(old(phones), ArgText(phone)) ==>
                r == Fail(PhoneNotFound(ArgText(phone))) && phones == old(phones)
      ensures r.Pass? <==> Convert(PhoneKind, phone, AnyDay).Ok? && HasPhone(old(phones), ArgText(phone))
      ensures r.Pass? ==> var i := IndexOf(old(phones), ArgText(phone));
                          phones == old(phones)[..i] + old(phones)[i + 1..]
      ensures DistinctPhones(old(phones)) ==> DistinctPhones(phones)
    {
      match Convert(PhoneKind, phone, AnyDay)
      case Err(e) =>
        r := Fail(e);
      case Ok(f) =>
        if !HasPhone(phones, f.value) {
          return Fail(PhoneNotFound(f.value));
        }
        var i := IndexOf(phones, f.value);
        phones := phones[..i] + phones[i + 1..];
        r := Pass;
    }

    /** `change_phone`: validates the old phone and refuses it when absent,
        validates the new phone and refuses it when present, and otherwise
        puts the new phone where the old one was. */
    method ChangePhone(oldPhone: FieldArg, newPhone: FieldArg) returns (r: Outcome<Error>)
      requires Valid() && Fits(oldPhone, PhoneKind) && Fits(newPhone, PhoneKind)
      modifies this`phones
      ensures Valid()
      ensures r.Fail? ==> phones == old(phones)
      ensures Convert(PhoneKind, oldPhone, AnyDay).Err? ==>
                r == Fail(Invalid(PhoneKind, StripSeparators(ArgText(oldPhone))))
      ensures Convert(PhoneKind, oldPhone, AnyDay).Ok? && !HasPhone(old(phones), ArgText(oldPhone)) ==>
                r == Fail(PhoneNotFound(ArgText(oldPhone)))
      ensures Convert(PhoneKind, oldPhone, AnyDay).Ok? && HasPhone(old(phones), ArgText(oldPhone))
              && Convert(PhoneKind, newPhone, AnyDay).Err? ==>
                r == Fail(Invalid(PhoneKind, StripSeparators(ArgText(newPhone))))
      ensures Convert(PhoneKind, oldPhone, AnyDay).Ok? && HasPhone(old(phones), ArgText(oldPhone))
              && Convert(PhoneKind, newPhone, AnyDay).Ok? && HasPhone(old(phones), ArgText(newPhone)) ==>
                r == Fail(DuplicatePhone(ArgText(newPhone)))
      ensures r.Pass? <==> Convert(PhoneKind, oldPhone, AnyDay).Ok? && HasPhone(old(phones), ArgText(oldPhone))
                           && Convert(PhoneKind, newPhone, AnyDay).Ok? && !HasPhone(old(phones), ArgText(newPhone))
      ensures r.Pass? ==> phones == old(phones)[IndexOf(old(phones), ArgText(oldPhone)) :=
                                                Convert(PhoneKind, newPhone, AnyDay).value]
      ensures DistinctPhones(old(phones)) ==> DistinctPhones(phones)
    {
      match Convert(PhoneKind, oldPhone, AnyDay)
      case Err(e) =>
        r := Fail(e);
      case Ok(o) =>
        if !HasPhone(phones, o.value) {
          return Fail(PhoneNotFound(o.value));
        }
        match Convert(PhoneKind, newPhone, AnyDay)
        case Err(e) =>
          r := Fail(e);
        case Ok(n) =>
          if HasPhone(phones, n.value) {
            return Fail(DuplicatePhone(n.value));
          }
          var i := IndexOf(phones, o.value);
          phones := phones[i := n];
          r := Pass;
    }

    /** `change_email`: validates and replaces the email; a rejected value
        leaves the old one. */
    method ChangeEmail(newEmail: FieldArg) returns (r: Outcome<Error>)
      requires Valid() && Fits(newEmail, EmailKind)
      modifies this`email
      ensures Valid()
      ensures r.Pass? <==> Convert(EmailKind, newEmail, AnyDay).Ok?
      ensures email == if r.Pass? then Some(Convert(EmailKind, newEmail, AnyDay).value) else old(email)
      ensures r.Fail? ==> r.error == Invalid(EmailKind, ArgText(newEmail))
    {
      match Convert(EmailKind, newEmail, AnyDay)
      case Err(e) =>
        r := Fail(e);
      case Ok(f) =>
        email := Some(f);
        r := Pass;
    }

    /** `change_birthday`: validates against `today` and replaces the
        birthday; a rejected value leaves the old one. */
    method ChangeBirthday(newBirthday: FieldArg, today: Date) returns (r: Outcome<Error>)
      requires Valid() && Fits(newBirthday, BirthdayKind)
      modifies this`birthday
      ensures Valid()
      ensures r.Pass? <==> Convert(BirthdayKind, newBirthday, today).Ok?
      ensures birthday == if r.Pass? then Some(Convert(BirthdayKind, newBirthday, today).value) else old(birthday)
      ensures r.Fail? ==> r.error == Invalid(BirthdayKind, ArgText(newBirthday))
    {
      match Convert(BirthdayKind, newBirthday, today)
      case Err(e) =>
        r := Fail(e);
      case Ok(f) =>
        birthday := Some(f);
        r := Pass;
    }

    /** `change_address`: validates and replaces the address; a rejected
        value leaves the old one. */
    method ChangeAddress(newAddress: FieldArg) returns (r: Outcome<Error>)
      requires Valid() && Fits(newAddress, AddressKind)
      modifies this`address
      ensures Valid()
      ensures r.Pass? <==> Convert(AddressKind, newAddress, AnyDay).Ok?
      ensures address == if r.Pass? then Some(Convert(AddressKind, newAddress, AnyDay).value) else old(address)
      ensures r.Fail? ==> r.error == Invalid(AddressKind, ArgText(newAddress))
    {
      match Convert(AddressKind, newAddress, AnyDay)
      case Err(e) =>
        r := Fail(e);
      case Ok(f) =>
        address := Some(f);
        r := Pass;
    }
  }
}

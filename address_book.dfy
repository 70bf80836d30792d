/** `AddressBook`: a dictionary from key to `Record`, kept in insertion
    order, with the birthday window, search, batching and the export to and
    import from a plain nested dictionary. */
module Book {
  import opened Wrappers
  import opened Text
  import opened Dates
  import opened Fields
  import opened Records
  import opened Collections

  // ---------------------------------------------------------------------
  // Birthday window

  /** The date `Birthday.get_date` parses from a stored birthday. */
  function BirthdayDate(f: Field): Date
    requires ParseIso(f.value).Some?
  {
    ParseIso(f.value).value
  }

  /** One step of `groups_days_to_bd`: a record without a birthday raises
      (`None.get_date`), a birthday that does not parse raises
      (`fromisoformat`), one whose month and day do not exist in today's
      year raises (`replace`), and otherwise the record is in the window
      when the moved birthday lies in `[today, today + n]`. A stored
      birthday that does not parse is reported as the birthday validator's
      error, where `get_date` would raise `fromisoformat`'s own
      `ValueError`; a valid contact never has one. */
  function InWindow(c: Contact, today: Date, n: nat): Result<bool, Error>
    requires ValidDate(today)
  {
    if c.birthday.None? then Err(NoBirthday)
    else
      match ParseIso(c.birthday.value.value)
      case None => Err(Invalid(BirthdayKind, c.birthday.value.value))
      case Some(b) =>
        var moved := WithYear(b, today.year);
        if !ValidDate(moved) then Err(NoSuchDate(moved))
        else Ok(!Before(moved, today) && Ordinal(moved) <= Ordinal(today) + n)
  }

  /** The window step of each contact. */
  function Steps(cs: seq<Contact>, today: Date, n: nat): (steps: seq<Result<bool, Error>>)
    requires ValidDate(today)
    ensures |steps| == |cs|
  {
    if |cs| == 0 then [] else [InWindow(cs[0], today, n)] + Steps(cs[1..], today, n)
  }

  /** Each step is the window test of the contact at the same index. */
  lemma {:induction false} StepAt(cs: seq<Contact>, today: Date, n: nat, i: int)
    requires ValidDate(today) && 0 <= i < |cs|
    ensures Steps(cs, today, n)[i] == InWindow(cs[i], today, n)
    decreases |cs|
  {
    if i > 0 {
      assert cs[1..][i - 1] == cs[i];
      StepAt(cs[1..], today, n, i - 1);
    }
  }

  /** The window flags of all contacts in order, or the error of the first
      contact that raises. */
  function WindowMask(cs: seq<Contact>, today: Date, n: nat): (r: Result<seq<bool>, Error>)
    requires ValidDate(today)
    ensures r.Ok? ==> |r.value| == |cs|
  {
    Collect(Steps(cs, today, n))
  }

  /** The mask succeeds exactly when every step does, then holds each
      step's flag; otherwise it is the error of the first step that raises. */
  lemma WindowMaskMeaning(cs: seq<Contact>, today: Date, n: nat)
    requires ValidDate(today)
    ensures var r := WindowMask(cs, today, n);
      (r.Ok? <==> forall i :: 0 <= i < |cs| ==> InWindow(cs[i], today, n).Ok?)
      && (r.Ok? ==> forall i :: 0 <= i < |cs| ==> r.value[i] == InWindow(cs[i], today, n).value)
      && (r.Err? ==> exists i :: 0 <= i < |cs| && InWindow(cs[i], today, n) == Err(r.error)
                               && forall j :: 0 <= j < i ==> InWindow(cs[j], today, n).Ok?)
  {
    forall i | 0 <= i < |cs|
      ensures Steps(cs, today, n)[i] == InWindow(cs[i], today, n)
    {
      StepAt(cs, today, n, i);
    }
    CollectMeaning(Steps(cs, today, n));
  }

  /** The window agrees with `days_to_birthday`: a record is in it exactly
      when this year's anniversary is not yet past and at most `n` days
      away. Next year's anniversaries are never in the window. */
  lemma InWindowIsDaysToBirthday(c: Contact, today: Date, n: nat)
    requires ValidContact(c) && ValidDate(today) && c.birthday.Some?
    requires ValidDate(WithYear(BirthdayDate(c.birthday.value), today.year))
    ensures var moved := WithYear(BirthdayDate(c.birthday.value), today.year);
      InWindow(c, today, n) == Ok(true) <==>
        !Before(moved, today) && DaysToBirthday(c, today).Ok? && DaysToBirthday(c, today).value <= n
  {
    var moved := WithYear(BirthdayDate(c.birthday.value), today.year);
    OrdinalOrder(moved, today);
  }

  /** With zero days, the window holds exactly the birthdays falling today. */
  lemma ZeroDayWindow(c: Contact, today: Date)
    requires ValidContact(c) && ValidDate(today) && c.birthday.Some?
    ensures InWindow(c, today, 0) == Ok(true) <==> SameMonthDay(BirthdayDate(c.birthday.value), today)
  {
    var moved := WithYear(BirthdayDate(c.birthday.value), today.year);
    if ValidDate(moved) {
      OrdinalOrder(moved, today);
    }
    if SameMonthDay(BirthdayDate(c.birthday.value), today) {
      assert moved == today;
    }
  }

  // ---------------------------------------------------------------------
  // Search

  /** The `search` flag of each contact: whether it matches the term. */
  function MatchMask(cs: seq<Contact>, term: string): (keep: seq<bool>)
    ensures |keep| == |cs|
  {
    Flags(cs, c => Matches(c, term))
  }

  lemma MatchFlag(cs: seq<Contact>, term: string, i: int)
    requires 0 <= i < |cs|
    ensures MatchMask(cs, term)[i] == Matches(cs[i], term)
  {
    FlagsAt(cs, c => Matches(c, term), i);
  }

  /** Each flag is whether that contact matches. */
  lemma MatchMaskAt(cs: seq<Contact>, term: string)
    ensures forall i :: 0 <= i < |cs| ==> MatchMask(cs, term)[i] == Matches(cs[i], term)
  {
    forall i | 0 <= i < |cs|
      ensures MatchMask(cs, term)[i] == Matches(cs[i], term)
    {
      MatchFlag(cs, term, i);
    }
  }

  /** A record is found exactly when it matches. */
  lemma SearchMembers<T>(xs: seq<T>, cs: seq<Contact>, term: string)
    requires |xs| == |cs|
    ensures forall i :: 0 <= i < |xs| && Matches(cs[i], term) ==> xs[i] in Select(xs, MatchMask(cs, term))
    ensures forall y :: y in Select(xs, MatchMask(cs, term)) ==>
      exists i :: 0 <= i < |xs| && Matches(cs[i], term) && xs[i] == y
  {
    MatchMaskAt(cs, term);
    SelectMembers(xs, MatchMask(cs, term));
  }

  /** The empty term is in every text, so it selects every record. */
  lemma EmptyTermSelectsAll<T>(xs: seq<T>, cs: seq<Contact>)
    requires |xs| == |cs|
    ensures Select(xs, MatchMask(cs, "")) == xs
  {
    MatchMaskAt(cs, "");
    forall i | 0 <= i < |cs|
      ensures Matches(cs[i], "")
    {
      EmptyIsContained(Lower(SearchText(cs[i])));
    }
    SelectAll(xs, MatchMask(cs, ""));
  }

  // ---------------------------------------------------------------------
  // The exported dictionary

  /** A Python dictionary: its keys in insertion order and the value
      stored under each. */
  datatype Dict<V> = Dict(order: seq<string>, values: map<string, V>)

  /** The order lists every key of the map, and only those, once each. */
  ghost predicate Ordered<V>(d: Dict<V>) {
    Distinct(d.order) && forall k :: k in d.values <==> k in d.order
  }

  /** `d.update({k: v})`: a key already present keeps its place and takes
      the new value; a new key goes at the end. */
  function Put<V>(d: Dict<V>, k: string, v: V): Dict<V> {
    Dict(if k in d.values then d.order else d.order + [k], d.values[k := v])
  }

  /** `update` keeps the order in step with the map. */
  lemma PutOrdered<V>(d: Dict<V>, k: string, v: V)
    requires Ordered(d)
    ensures Ordered(Put(d, k, v))
  {
    var r := Put(d, k, v);
    if k !in d.values {
      assert forall i :: 0 <= i < |d.order| ==> r.order[i] == d.order[i] != k;
    }
  }

  function Keys<V>(ps: seq<(string, V)>): (ks: seq<string>)
    ensures |ks| == |ps| && forall i :: 0 <= i < |ps| ==> ks[i] == ps[i].0
  {
    seq(|ps|, i requires 0 <= i < |ps| => ps[i].0)
  }

  /** The pairs merged into `d` one by one with `update`, from the first. */
  function MergeInto<V>(d: Dict<V>, ps: seq<(string, V)>): Dict<V>
    decreases |ps|
  {
    if |ps| == 0 then d else MergeInto(Put(d, ps[0].0, ps[0].1), ps[1..])
  }

  /** Merging keeps the order in step with the map, and the keys are those
      of `d` and of the pairs. */
  lemma {:induction false} MergeIntoKeys<V>(d: Dict<V>, ps: seq<(string, V)>)
    ensures Ordered(d) ==> Ordered(MergeInto(d, ps))
    ensures forall k :: k in MergeInto(d, ps).values <==> k in d.values || k in Keys(ps)
    decreases |ps|
  {
    if |ps| > 0 {
      if Ordered(d) {
        PutOrdered(d, ps[0].0, ps[0].1);
      }
      MergeIntoKeys(Put(d, ps[0].0, ps[0].1), ps[1..]);
    }
  }

  /** A key no pair mentions keeps its value. */
  lemma {:induction false} MergeIntoKeeps<V>(d: Dict<V>, ps: seq<(string, V)>, k: string)
    requires k in d.values && k !in Keys(ps)
    ensures k in MergeInto(d, ps).values && MergeInto(d, ps).values[k] == d.values[k]
    decreases |ps|
  {
    if |ps| > 0 {
      assert Keys(ps) == [ps[0].0] + Keys(ps[1..]);
      MergeIntoKeeps(Put(d, ps[0].0, ps[0].1), ps[1..], k);
    }
  }

  /** Under each key, the merge holds the value of the key's last pair. */
  lemma {:induction false} MergeLastWins<V>(d: Dict<V>, ps: seq<(string, V)>, i: int)
    requires 0 <= i < |ps|
    requires forall j :: i < j < |ps| ==> ps[j].0 != ps[i].0
    ensures ps[i].0 in MergeInto(d, ps).values && MergeInto(d, ps).values[ps[i].0] == ps[i].1
    decreases |ps|
  {
    var d' := Put(d, ps[0].0, ps[0].1);
    var rest := ps[1..];
    if i == 0 {
      MergeIntoKeeps(d', rest, ps[0].0);
    } else {
      assert rest[i - 1] == ps[i];
      assert forall j :: i - 1 < j < |rest| ==> rest[j] == ps[j + 1];
      MergeLastWins(d', rest, i - 1);
    }
  }

  /** Pairs with distinct keys, none of them in `d`, are appended to the
      order in their own order. */
  lemma {:induction false} MergeDistinct<V>(d: Dict<V>, ps: seq<(string, V)>)
    requires Distinct(Keys(ps)) && forall i :: 0 <= i < |ps| ==> ps[i].0 !in d.values
    ensures MergeInto(d, ps).order == d.order + Keys(ps)
    decreases |ps|
  {
    if |ps| == 0 {
      assert d.order + Keys(ps) == d.order;
    } else {
      var d' := Put(d, ps[0].0, ps[0].1);
      MergeDistinctHead(d, ps);
      MergeDistinct(d', ps[1..]);
      AppendAssoc(d.order, [ps[0].0], Keys(ps[1..]));
    }
  }

  /** The first pair of the merge appends its key, and the rest still meet
      the conditions of `MergeDistinct`. */
  lemma MergeDistinctHead<V>(d: Dict<V>, ps: seq<(string, V)>)
    requires |ps| > 0
    requires Distinct(Keys(ps)) && forall i :: 0 <= i < |ps| ==> ps[i].0 !in d.values
    ensures Put(d, ps[0].0, ps[0].1).order == d.order + [ps[0].0]
    ensures Keys(ps) == [ps[0].0] + Keys(ps[1..])
    ensures Distinct(Keys(ps[1..]))
    ensures forall i :: 0 <= i < |ps| - 1 ==> ps[1..][i].0 !in Put(d, ps[0].0, ps[0].1).values
  {
    var ks, rest := Keys(ps), ps[1..];
    assert ks == [ps[0].0] + Keys(rest);
    assert ks[1..] == Keys(rest);
    DistinctTail(ks);
    forall i | 0 <= i < |rest|
      ensures rest[i].0 !in Put(d, ps[0].0, ps[0].1).values
    {
      assert rest[i].0 == Keys(rest)[i];
    }
  }

  /** The pairs `record.to_dict()` gives, one per contact. */
  function ToDicts(cs: seq<Contact>): (ps: seq<(string, Entry)>)
    ensures |ps| == |cs| && forall i :: 0 <= i < |cs| ==> ps[i] == Records.ToDict(cs[i])
  {
    if |cs| == 0 then [] else [Records.ToDict(cs[0])] + ToDicts(cs[1..])
  }

  /** The contacts' names, which are the keys of their pairs. */
  function Names(cs: seq<Contact>): (ns: seq<string>)
    ensures |ns| == |cs| && forall i :: 0 <= i < |cs| ==> ns[i] == cs[i].name.value
  {
    Keys(ToDicts(cs))
  }

  /** The loop of `AddressBook.to_dict`: the records' pairs merged in
      order into an empty dictionary. */
  function DictOf(cs: seq<Contact>): Dict<Entry> {
    MergeInto(Dict([], map[]), ToDicts(cs))
  }

  /** The export is a well-formed dictionary whose keys are the names. */
  lemma DictOfKeys(cs: seq<Contact>)
    ensures Ordered(DictOf(cs))
    ensures forall k :: k in DictOf(cs).values <==> k in Names(cs)
  {
    MergeIntoKeys(Dict([], map[]), ToDicts(cs));
  }

  /** The export's entry under a name is that of the last record with the
      name: a later record with the same name replaces the earlier entry. */
  lemma DictOfLastWins(cs: seq<Contact>, i: int)
    requires 0 <= i < |cs|
    requires forall j :: i < j < |cs| ==> cs[j].name.value != cs[i].name.value
    ensures cs[i].name.value in DictOf(cs).values
    ensures DictOf(cs).values[cs[i].name.value] == Records.ToDict(cs[i]).1
  {
    MergeLastWins(Dict([], map[]), ToDicts(cs), i);
  }

  /** When no two records share a name, the export lists the names in the
      book's order. */
  lemma DictOfDistinctNames(cs: seq<Contact>)
    requires Distinct(Names(cs))
    ensures DictOf(cs).order == Names(cs)
  {
    MergeDistinct(Dict([], map[]), ToDicts(cs));
  }

  // ---------------------------------------------------------------------
  // Import

  /** The record `from_dict` builds from each entry, in the dictionary's
      order, or the error building it raises. */
  function Builds(order: seq<string>, entries: map<string, Entry>, today: Date): (bs: seq<Result<Contact, Error>>)
    requires forall k :: k in order ==> k in entries
    ensures |bs| == |order|
  {
    if |order| == 0 then []
    else [FromEntry(order[0], entries[order[0]], today)] + Builds(order[1..], entries, today)
  }

  lemma {:induction false} BuildsAt(order: seq<string>, entries: map<string, Entry>, today: Date, i: int)
    requires forall k :: k in order ==> k in entries
    requires 0 <= i < |order|
    ensures Builds(order, entries, today)[i] == FromEntry(order[i], entries[order[i]], today)
    decreases |order|
  {
    if i > 0 {
      BuildsAt(order[1..], entries, today, i - 1);
    }
  }

  /** The loop of `from_dict` on a book with keys `keys` holding contacts
      `cs`, given what building each entry gives: each record is added under
      its name, in order; the first failure, in building or in adding,
      stops the import, keeping the records already added. */
  function Import(keys: seq<string>, cs: seq<Contact>, built: seq<Result<Contact, Error>>)
    : (seq<string>, seq<Contact>, Outcome<Error>)
    decreases |built|
  {
    if |built| == 0 then (keys, cs, Pass)
    else
      match built[0]
      case Err(e) => (keys, cs, Fail(e))
      case Ok(c) =>
        if c.name.value in keys then (keys, cs, Fail(DuplicateKey(c.name.value)))
        else Import(keys + [c.name.value], cs + [c], built[1..])
  }

  /** The import from position `i` on: a failed build stops it, a name
      already present stops it with `KeyError`, and a new name is added
      before the import goes on from `i + 1`. */
  lemma ImportAt(keys: seq<string>, cs: seq<Contact>, built: seq<Result<Contact, Error>>, i: int)
    requires 0 <= i < |built|
    ensures built[i].Err? ==> Import(keys, cs, built[i..]) == (keys, cs, Fail(built[i].error))
    ensures built[i].Ok? && built[i].value.name.value in keys ==>
      Import(keys, cs, built[i..]) == (keys, cs, Fail(DuplicateKey(built[i].value.name.value)))
    ensures built[i].Ok? && built[i].value.name.value !in keys ==>
      Import(keys, cs, built[i..]) == Import(keys + [built[i].value.name.value], cs + [built[i].value], built[i + 1..])
  {
    assert built[i..][0] == built[i] && built[i..][1..] == built[i + 1..];
  }

  /** Importing records `cs` built without error, each under its own
      distinct name, into a book that does not hold those names appends the
      names and the records in order. */
  lemma {:induction false} ImportAll(keys: seq<string>, bcs: seq<Contact>, order: seq<string>,
                                     cs: seq<Contact>, built: seq<Result<Contact, Error>>)
    requires |order| == |cs| == |built| && Distinct(order)
    requires forall i :: 0 <= i < |order| ==> order[i] !in keys
    requires forall i :: 0 <= i < |order| ==> built[i] == Ok(cs[i]) && cs[i].name.value == order[i]
    ensures Import(keys, bcs, built) == (keys + order, bcs + cs, Pass)
    decreases |order|
  {
    if |order| == 0 {
      assert keys + order == keys && bcs + cs == bcs;
    } else {
      var rest, crest := order[1..], cs[1..];
      assert forall a, b :: 0 <= a < b < |rest| ==> rest[a] == order[a + 1] && rest[b] == order[b + 1];
      ImportAll(keys + [order[0]], bcs + [cs[0]], rest, crest, built[1..]);
      ShiftHead(keys, order);
      ShiftHead(bcs, cs);
    }
  }

  /** An import stops at a failure and keeps the book as it was then: it
      only ever appends keys and records, in step. */
  lemma {:induction false} ImportAppends(keys: seq<string>, cs: seq<Contact>, built: seq<Result<Contact, Error>>)
    requires |keys| == |cs|
    ensures var (ks, cs', _) := Import(keys, cs, built);
      |ks| == |cs'| && keys <= ks && cs <= cs'
    decreases |built|
  {
    if |built| > 0 && built[0].Ok? && built[0].value.name.value !in keys {
      var c := built[0].value;
      ImportAppends(keys + [c.name.value], cs + [c], built[1..]);
    }
  }

  /** Under each name, the export holds an entry that builds the record
      back, when names are distinct and birthdays are not in the future. */
  lemma DictOfEntries(cs: seq<Contact>, today: Date)
    requires Distinct(Names(cs))
    requires forall i :: 0 <= i < |cs| ==> AcceptedOn(cs[i], today)
    ensures forall i :: 0 <= i < |cs| ==> Names(cs)[i] in DictOf(cs).values
    ensures forall i :: 0 <= i < |cs| ==> FromEntry(Names(cs)[i], DictOf(cs).values[Names(cs)[i]], today) == Ok(cs[i])
  {
    var d, names := DictOf(cs), Names(cs);
    forall i | 0 <= i < |cs|
      ensures names[i] in d.values && FromEntry(names[i], d.values[names[i]], today) == Ok(cs[i])
    {
      DictOfLastWins(cs, i);
      var (name, e) := Records.ToDict(cs[i]);
      assert name == names[i] && e == d.values[names[i]];
      ToDictRoundTrip(cs[i], today);
    }
  }

  /** Building the export's entry at position `i` gives back record `i`. */
  lemma DictBuildAt(cs: seq<Contact>, today: Date, i: int)
    requires Distinct(Names(cs))
    requires 0 <= i < |cs| && AcceptedOn(cs[i], today)
    ensures Ordered(DictOf(cs)) && DictOf(cs).order == Names(cs)
    ensures Builds(DictOf(cs).order, DictOf(cs).values, today)[i] == Ok(cs[i])
  {
    var d, names := DictOf(cs), Names(cs);
    DictOfKeys(cs);
    DictOfDistinctNames(cs);
    assert forall j :: i < j < |cs| ==> cs[j].name.value != cs[i].name.value by {
      assert forall j :: 0 <= j < |cs| ==> names[j] == cs[j].name.value;
    }
    DictOfLastWins(cs, i);
    var (name, e) := Records.ToDict(cs[i]);
    assert name == names[i] && e == d.values[names[i]];
    ToDictRoundTrip(cs[i], today);
    BuildsAt(d.order, d.values, today, i);
  }

  /** Exporting records with distinct names whose birthdays are not in the
      future, and importing the export into an empty book, gives back the
      same records, in order, under their names. */
  lemma BookRoundTrip(cs: seq<Contact>, today: Date)
    requires Distinct(Names(cs))
    requires forall i :: 0 <= i < |cs| ==> AcceptedOn(cs[i], today)
    ensures Ordered(DictOf(cs))
    ensures Import([], [], Builds(DictOf(cs).order, DictOf(cs).values, today)) == (Names(cs), cs, Pass)
  {
    DictOfKeys(cs);
    DictOfDistinctNames(cs);
    var d := DictOf(cs);
    var built := Builds(d.order, d.values, today);
    forall i | 0 <= i < |cs|
      ensures built[i] == Ok(cs[i])
    {
      DictBuildAt(cs, today, i);
    }
    ImportAll([], [], Names(cs), cs, built);
    AppendToEmpty(Names(cs));
    AppendToEmpty(cs);
  }

  // ---------------------------------------------------------------------
  // Records behind references

  /** The values held by a sequence of records. */
  function ContactsOf(rs: seq<Record>): (cs: seq<Contact>)
    reads rs
    ensures |cs| == |rs| && forall i :: 0 <= i < |rs| ==> cs[i] == rs[i].Value()
  {
    if |rs| == 0 then [] else ContactsOf(rs[..|rs| - 1]) + [rs[|rs| - 1].Value()]
  }

  /** Records whose fields are untouched still hold the same values. */
  twostate lemma {:induction false} ContactsUnchanged(rs: seq<Record>)
    requires forall i :: 0 <= i < |rs| ==> unchanged(rs[i])
    ensures ContactsOf(rs) == old(ContactsOf(rs))
  {
    if |rs| > 0 {
      ContactsUnchanged(rs[..|rs| - 1]);
    }
  }

  /** The records stored under the keys, in the keys' order. */
  function LookupAll(data: map<string, Record>, ks: seq<string>): (rs: seq<Record>)
    requires forall k :: k in ks ==> k in data
    ensures |rs| == |ks| && forall i :: 0 <= i < |ks| ==> rs[i] == data[ks[i]]
  {
    if |ks| == 0 then [] else LookupAll(data, ks[..|ks| - 1]) + [data[ks[|ks| - 1]]]
  }

  lemma {:induction false} LookupAllSnoc(data: map<string, Record>, ks: seq<string>, key: string, val: Record)
    requires forall k :: k in ks ==> k in data
    requires key !in ks
    ensures LookupAll(data[key := val], ks + [key]) == LookupAll(data, ks) + [val]
  {
    var r := LookupAll(data[key := val], ks + [key]);
    assert (ks + [key])[..|ks|] == ks;
    assert LookupAll(data[key := val], ks) == LookupAll(data, ks);
  }

  lemma ContactsOfSnoc(rs: seq<Record>, x: Record)
    ensures ContactsOf(rs + [x]) == ContactsOf(rs) + [x.Value()]
  {
    assert (rs + [x])[..|rs|] == rs;
  }

  /** Removing the key at `i` from distinct keys closes the gap, keeps the
      rest distinct and drops exactly that key. */
  lemma RemoveAt(ks: seq<string>, i: int)
    requires Distinct(ks) && 0 <= i < |ks|
    ensures var r := ks[..i] + ks[i + 1..];
      Distinct(r) && forall x :: x in r <==> x in ks && x != ks[i]
  {
    var r := ks[..i] + ks[i + 1..];
    assert forall j :: 0 <= j < |r| ==> r[j] == if j < i then ks[j] else ks[j + 1];
    forall x | x in ks && x != ks[i]
      ensures x in r
    {
      var j :| 0 <= j < |ks| && ks[j] == x;
      if j < i {
        assert r[j] == x;
      } else {
        assert r[j - 1] == x;
      }
    }
  }

  // ---------------------------------------------------------------------
  // The loops over `self.data.values()`

  /** The body of the loop of `groups_days_to_bd` for one record. It is a
      method of its own so that the loop's proof sees only its contract,
      not the definition of InWindow. */
  method WindowStep(rec: Record, today: Date, n: nat) returns (r: Result<bool, Error>)
    requires ValidDate(today)
    ensures r == InWindow(rec.Value(), today, n)
  {
    if rec.birthday.None? {
      return Err(NoBirthday);
    }
    var parsed := ParseIso(rec.birthday.value.value);
    if parsed.None? {
      return Err(Invalid(BirthdayKind, rec.birthday.value.value));
    }
    var moved := WithYear(parsed.value, today.year);
    if !ValidDate(moved) {
      return Err(NoSuchDate(moved));
    }
    r := Ok(!Before(moved, today) && Ordinal(moved) <= Ordinal(today) + n);
  }

  /** One turn of the loop of `groups_days_to_bd`, at record `i`, given
      the flags and the records found so far: the step, and the records found
      once it is taken. */
  method WindowAt(rs: seq<Record>, i: int, today: Date, n: nat, ghost steps: seq<Result<bool, Error>>,
                  ghost flags: seq<bool>, found: seq<Record>)
    returns (step: Result<bool, Error>, found': seq<Record>)
    requires ValidDate(today) && 0 <= i < |rs| && steps == Steps(ContactsOf(rs), today, n)
    requires Collect(steps[..i]) == Ok(flags) && |flags| == i && found == Select(rs[..i], flags)
    ensures step.Err? ==> Collect(steps) == Err(step.error)
    ensures step.Ok? ==> Collect(steps[..i + 1]) == Ok(flags + [step.value])
    ensures step.Ok? ==> found' == Select(rs[..i + 1], flags + [step.value])
  {
    var rec := rs[i];
    step := WindowStep(rec, today, n);
    StepAt(ContactsOf(rs), today, n, i);
    if step.Err? {
      CollectStops(steps, i);
      return step, found;
    }
    CollectStep(steps, i, flags);
    SelectSnoc(rs[..i], flags, rec, step.value);
    TakeSnoc(rs, i);
    found' := if step.value then found + [rec] else found;
  }

  /** The loop of `groups_days_to_bd` over the records `rs`. */
  method WindowIn(rs: seq<Record>, today: Date, n: nat) returns (r: Result<seq<Record>, Error>)
    requires ValidDate(today)
    ensures var mask := WindowMask(ContactsOf(rs), today, n);
      r == if mask.Ok? then Ok(Select(rs, mask.value)) else Err(mask.error)
  {
    ghost var steps := Steps(ContactsOf(rs), today, n);
    ghost var mask := Collect(steps);
    assert mask == WindowMask(ContactsOf(rs), today, n);
    var found: seq<Record> := [];
    ghost var flags: seq<bool> := [];
    var i := 0;
    while i < |rs|
      invariant 0 <= i <= |rs|
      invariant Collect(steps[..i]) == Ok(flags)
      invariant |flags| == i && found == Select(rs[..i], flags)
    {
      var step, next := WindowAt(rs, i, today, n, steps, flags, found);
      if step.Err? {
        return Err(step.error);
      }
      found, flags, i := next, flags + [step.value], i + 1;
    }
    assert steps[..i] == steps && rs[..i] == rs;
    assert mask == Ok(flags);
    r := Ok(found);
  }

  /** The test `search` applies to the record at index `i`: the term,
      lower-cased, in the record's text, lower-cased. It is a method of its
      own so that the loop's proof sees only its contract, not the
      definitions of Matches and SearchText. */
  method MatchStep(rs: seq<Record>, i: int, term: string, ghost cs: seq<Contact>) returns (hit: bool)
    requires 0 <= i < |rs| && cs == ContactsOf(rs)
    ensures hit == MatchMask(cs, term)[i]
  {
    var text := SearchText(rs[i].Value());
    hit := Contains(Lower(text), Lower(term));
    MatchFlag(cs, term, i);
  }

  /** The loop of `search` over the records `rs`. */
  method SearchIn(rs: seq<Record>, term: string) returns (found: seq<Record>)
    ensures found == Select(rs, MatchMask(ContactsOf(rs), term))
  {
    ghost var cs := ContactsOf(rs);
    ghost var mask := MatchMask(cs, term);
    found := [];
    var i := 0;
    while i < |rs|
      invariant 0 <= i <= |rs|
      invariant found == Select(rs[..i], mask[..i])
    {
      var hit := MatchStep(rs, i, term, cs);
      SelectPrefix(rs, mask, i);
      if hit {
        found := found + [rs[i]];
      }
      i := i + 1;
    }
    assert rs[..i] == rs && mask[..i] == mask;
  }

  /** The loop of `iterator` over the records `rs` with a batch size `k`
      already clamped: a batch is yielded whenever the 1-based counter is a
      multiple of `k` or reaches the last record. */
  method BatchesIn(rs: seq<Record>, k: nat) returns (batches: seq<seq<Record>>)
    requires 0 < k <= |rs|
    ensures batches == Batches(rs, k)
  {
    var current: seq<Record> := [];
    ghost var start := 0;
    batches := [];
    var i := 0;
    while i < |rs|
      invariant 0 <= start <= i <= |rs|
      invariant current == rs[start..i]
      invariant batches == Batches(rs[..start], k)
      invariant i < |rs| ==> start % k == 0 && |current| < k
      invariant i == |rs| ==> start == i
    {
      SliceSnoc(rs, start, i);
      current := current + [rs[i]];
      var counter := i + 1;
      ModStep(start, counter - start, k);
      if counter % k == 0 || counter == |rs| {
        BatchesStep(rs, start, counter, k);
        batches := batches + [current];
        current := [];
        start := counter;
      }
      i := i + 1;
    }
    assert rs[..start] == rs;
  }

  // ---------------------------------------------------------------------
  // The address book

  class AddressBook {
    /** The dictionary's keys in insertion order. */
    var keys: seq<string>
    var data: map<string, Record>

    ghost predicate KeysAgree()
      reads this
    {
      Distinct(keys) && forall k :: k in data <==> k in keys
    }

    ghost predicate Valid()
      reads this, data.Values
    {
      KeysAgree() && forall r :: r in data.Values ==> r.Valid()
    }

    /** `self.data.values()`, in insertion order. */
    function Values(): (rs: seq<Record>)
      reads this
      requires KeysAgree()
      ensures |rs| == |keys| && forall i :: 0 <= i < |keys| ==> rs[i] == data[keys[i]]
    {
      LookupAll(data, keys)
    }

    /** The records' current values, in insertion order. */
    function Contacts(): (cs: seq<Contact>)
      reads this, data.Values
      requires KeysAgree()
      ensures |cs| == |keys|
    {
      assert forall i :: 0 <= i < |keys| ==> data[keys[i]] in data.Values;
      ContactsOf(Values())
    }

    constructor ()
      ensures Valid() && keys == [] && data == map[]
    {
      keys, data := [], map[];
    }

    /** `book[key]`: the record stored under the key, or `KeyError`. */
    function GetItem(key: string): (r: Result<Record, Error>)
      reads this
      ensures r.Ok? <==> key in data
      ensures r.Ok? ==> r.value == data[key]
      ensures r.Err? ==> r.error == KeyNotFound(key)
    {
      if key in data then Ok(data[key]) else Err(KeyNotFound(key))
    }

    /** `book[key] = val`: refuses a non-record (`TypeError`) and a key
        already present (`KeyError`), never overwriting; otherwise adds the
        key at the end of the order. */
    method SetItem(key: string, val: Record?) returns (r: Outcome<Error>)
      requires Valid() && (val != null ==> val.Valid())
      modifies this
      ensures Valid()
      ensures val == null ==> r == Fail(NotARecord)
      ensures val != null && key in old(data) ==> r == Fail(DuplicateKey(key))
      ensures r.Pass? <==> val != null && key !in old(data)
      ensures r.Fail? ==> keys == old(keys) && data == old(data) && Contacts() == old(Contacts())
      ensures r.Pass? ==> keys == old(keys) + [key] && data == old(data)[key := val]
      ensures r.Pass? ==> GetItem(key) == Ok(val)
      ensures r.Pass? ==> Contacts() == old(Contacts()) + [val.Value()]
    {
      if val == null {
        return Fail(NotARecord);
      }
      if key in data {
        return Fail(DuplicateKey(key));
      }
      Append(key, val);
      r := Pass;
    }

    /** Stores a new key at the end of the order. */
    method Append(key: string, val: Record)
      requires Valid() && val.Valid() && key !in data
      modifies this
      ensures Valid()
      ensures keys == old(keys) + [key] && data == old(data)[key := val]
      ensures Contacts() == old(Contacts()) + [val.Value()]
    {
      ghost var rs := Values();
      LookupAllSnoc(data, keys, key, val);
      DistinctSnoc(keys, key);
      UpdateValues(data, key, val);
      keys, data := keys + [key], data[key := val];
      assert forall x :: x in data.Values ==> x.Valid();
      ContactsUnchanged(rs);
      ContactsOfSnoc(rs, val);
    }

    /** `add_record`: stores the record under its name's value. */
    method AddRecord(rec: Record) returns (r: Outcome<Error>)
      requires Valid() && rec.Valid()
      modifies this
      ensures Valid()
      ensures rec.name.value in old(data) ==> r == Fail(DuplicateKey(rec.name.value))
      ensures r.Pass? <==> rec.name.value !in old(data)
      ensures r.Fail? ==> keys == old(keys) && data == old(data) && Contacts() == old(Contacts())
      ensures r.Pass? ==> keys == old(keys) + [rec.name.value] && data == old(data)[rec.name.value := rec]
      ensures r.Pass? ==> Contacts() == old(Contacts()) + [rec.Value()]
    {
      r := SetItem(rec.name.value, rec);
    }

    /** `del book[key]`: refuses a key that is not present (`KeyError`);
        otherwise removes it and keeps the order of the rest. */
    method DelItem(key: string) returns (r: Outcome<Error>)
      requires Valid()
      modifies this
      ensures Valid()
      ensures r.Pass? <==> key in old(data)
      ensures r.Fail? ==> r == Fail(KeyNotFound(key)) && keys == old(keys) && data == old(data)
      ensures r.Pass? ==> data == old(data) - {key}
      ensures r.Pass? ==> exists i :: 0 <= i < |old(keys)| && old(keys)[i] == key
                                      && keys == old(keys)[..i] + old(keys)[i + 1..]
      ensures r.Pass? ==> GetItem(key) == Err(KeyNotFound(key))
    {
      if key !in data {
        return Fail(KeyNotFound(key));
      }
      var i := 0;
      while keys[i] != key
        invariant 0 <= i < |keys| && key in keys[i..]
        decreases |keys| - i
      {
        i := i + 1;
      }
      RemoveAt(keys, i);
      keys := keys[..i] + keys[i + 1..];
      data := data - {key};
      r := Pass;
    }

    /** `groups_days_to_bd`: the records whose birthday, moved into today's
        year, falls within `[today, today + n]`, in order. It refuses input
        that is not all digits, an end date past the last representable
        day, and stops at the first record the window step raises on. */
    method GroupsDaysToBd(input: string, today: Date) returns (r: Result<seq<Record>, Error>)
      requires KeysAgree() && ValidDate(today)
      ensures !IsDigitString(input) ==> r == Err(NotDigits(input))
      ensures IsDigitString(input) && Ordinal(today) + DigitsValue(input) > MaxOrdinal() ==> r == Err(DateOverflow)
      ensures IsDigitString(input) && Ordinal(today) + DigitsValue(input) <= MaxOrdinal() ==>
        var mask := WindowMask(Contacts(), today, DigitsValue(input));
        r == if mask.Ok? then Ok(Select(Values(), mask.value)) else Err(mask.error)
    {
      if !IsDigitString(input) {
        return Err(NotDigits(input));
      }
      var n := DigitsValue(input);
      if Ordinal(today) + n > MaxOrdinal() {
        return Err(DateOverflow);
      }
      r := WindowIn(Values(), today, n);
    }

    /** `search`: the records whose name, space-joined phones, email,
        birthday and address, written together, contain the term, both
        compared in lower case; in order. */
    method Search(term: string) returns (found: seq<Record>)
      requires KeysAgree()
      ensures found == Select(Values(), MatchMask(Contacts(), term))
    {
      found := SearchIn(Values(), term);
    }

    /** `iterator`: refuses a batch size of zero or less, clamps it to the
        number of records, and yields the records in consecutive batches of
        that size, the last one possibly shorter. */
    method Iterator(itemNumber: int) returns (r: Result<seq<seq<Record>>, Error>)
      requires KeysAgree()
      ensures itemNumber <= 0 ==> r == Err(BadItemNumber(itemNumber))
      ensures itemNumber > 0 ==> r == Ok(Batches(Values(), itemNumber))
    {
      if itemNumber <= 0 {
        return Err(BadItemNumber(itemNumber));
      }
      var k := itemNumber;
      if k > |keys| {
        k := |keys|;
      }
      var batches := [];
      if k > 0 {
        batches := BatchesIn(Values(), k);
        if k < itemNumber {
          BatchesClamp(Values(), itemNumber);
        }
      }
      r := Ok(batches);
    }

    /** `AddressBook.to_dict`: the records' pairs merged in order. */
    method ToDict() returns (d: Dict<Entry>)
      requires KeysAgree()
      ensures d == DictOf(Contacts())
    {
      ghost var ps := ToDicts(Contacts());
      d := Dict([], map[]);
      var i := 0;
      while i < |keys|
        invariant 0 <= i <= |keys|
        invariant MergeInto(d, ps[i..]) == DictOf(Contacts())
      {
        var pair := Records.ToDict(data[keys[i]].Value());
        assert ps[i..][0] == pair && ps[i..][1..] == ps[i + 1..];
        d := Put(d, pair.0, pair.1);
        i := i + 1;
      }
    }

    /** `Record(name, *phones, email, birthday, address)` for the entry at
        position `i`: the record built, which holds build `i`, or the error
        building it raises. */
    static method BuildAt(entries: Dict<Entry>, i: int, today: Date, ghost built: seq<Result<Contact, Error>>)
      returns (made: Result<Record, Error>)
      requires Ordered(entries) && 0 <= i < |entries.order|
      requires built == Builds(entries.order, entries.values, today)
      ensures made.Ok? ==> fresh(made.value) && made.value.Valid()
      ensures made.Ok? ==> built[i] == Ok(made.value.Value())
      ensures made.Err? ==> built[i] == Err(made.error)
    {
      var name := entries.order[i];
      var entry := entries.values[name];
      BuildsAt(entries.order, entries.values, today, i);
      made := Record.New(Raw(name), RawArgs(entry.phones), RawOpt(entry.email),
                         RawOpt(entry.birthday), RawOpt(entry.address), today);
    }

    /** One step of `from_dict` once the entry's record is built: it is
        added, and the import of the builds `rest` either stops here with
        the state it ends in, or goes on with `rest[1..]` to the same end. */
    method AddBuilt(rec: Record, ghost rest: seq<Result<Contact, Error>>) returns (r: Outcome<Error>)
      requires Valid() && rec.Valid() && |rest| > 0 && rest[0] == Ok(rec.Value())
      modifies this
      ensures Valid()
      ensures r.Fail? ==> (keys, Contacts(), r) == Import(old(keys), old(Contacts()), rest)
      ensures r.Pass? ==> Import(keys, Contacts(), rest[1..]) == Import(old(keys), old(Contacts()), rest)
      ensures forall k :: k in old(data) ==> k in data && data[k] == old(data)[k]
      ensures forall k :: k in data && k !in old(data) ==> data[k] == rec
    {
      ImportAt(keys, Contacts(), rest, 0);
      assert rest[0..] == rest;
      r := AddRecord(rec);
    }

    /** The rest of `from_dict`'s loop body for the entry at position `i`,
        once its record is built or its build has failed: a failed build
        stops the import, a built record is added. */
    method AddMade(made: Result<Record, Error>, i: int, ghost built: seq<Result<Contact, Error>>)
      returns (r: Outcome<Error>)
      requires Valid() && 0 <= i < |built|
      requires made.Ok? ==> made.value.Valid() && built[i] == Ok(made.value.Value())
      requires made.Err? ==> built[i] == Err(made.error)
      modifies this
      ensures Valid()
      ensures r.Fail? ==> (keys, Contacts(), r) == Import(old(keys), old(Contacts()), built[i..])
      ensures r.Pass? ==> Import(keys, Contacts(), built[i + 1..]) == Import(old(keys), old(Contacts()), built[i..])
      ensures forall k :: k in old(data) ==> k in data && data[k] == old(data)[k]
      ensures forall k :: k in data && k !in old(data) ==> made.Ok? && data[k] == made.value
    {
      assert built[i..][0] == built[i] && built[i..][1..] == built[i + 1..];
      if made.Err? {
        ImportAt(keys, Contacts(), built, i);
        r := Fail(made.error);
      } else {
        r := AddBuilt(made.value, built[i..]);
      }
    }

    /** `from_dict`'s loop body for the entry at position `i`. */
    method ImportAtIndex(entries: Dict<Entry>, i: int, today: Date, ghost built: seq<Result<Contact, Error>>)
      returns (r: Outcome<Error>)
      requires Valid() && Ordered(entries) && 0 <= i < |entries.order|
      requires built == Builds(entries.order, entries.values, today)
      modifies this
      ensures Valid()
      ensures r.Fail? ==> (keys, Contacts(), r) == Import(old(keys), old(Contacts()), built[i..])
      ensures r.Pass? ==> Import(keys, Contacts(), built[i + 1..]) == Import(old(keys), old(Contacts()), built[i..])
      ensures forall k :: k in old(data) ==> k in data && data[k] == old(data)[k]
      ensures forall k :: k in data && k !in old(data) ==> fresh(data[k])
    {
      var made := BuildAt(entries, i, today, built);
      r := AddMade(made, i, built);
    }

    /** `from_dict`: builds a record from each entry, in the dictionary's
        order, and adds it under its name; the first error stops the import
        with the records added so far left in place. */
    method FromDict(entries: Dict<Entry>, today: Date) returns (r: Outcome<Error>)
      requires Valid() && Ordered(entries)
      modifies this
      ensures Valid()
      ensures (keys, Contacts(), r) == Import(old(keys), old(Contacts()), Builds(entries.order, entries.values, today))
      ensures forall k :: k in old(data) ==> k in data && data[k] == old(data)[k]
      ensures forall k :: k in data && k !in old(data) ==> fresh(data[k])
    {
      ghost var built := Builds(entries.order, entries.values, today);
      ghost var goal := Import(keys, Contacts(), built);
      assert goal == Import(old(keys), old(Contacts()), Builds(entries.order, entries.values, today));
      r := Pass;
      var i := 0;
      while i < |entries.order|
        invariant 0 <= i <= |entries.order|
        invariant Valid()
        invariant Import(keys, Contacts(), built[i..]) == goal
        invariant forall k :: k in old(data) ==> k in data && data[k] == old(data)[k]
        invariant forall k :: k in data && k !in old(data) ==> fresh(data[k])
      {
        ghost var before := Import(keys, Contacts(), built[i..]);
        var step := ImportAtIndex(entries, i, today, built);
        if step.Fail? {
          r := step;
          assert (keys, Contacts(), r) == before;
          return;
        }
        assert Import(keys, Contacts(), built[i + 1..]) == before;
        i := i + 1;
      }
      assert built[i..] == [];
      assert (keys, Contacts(), r) == goal;
    }
  }
}

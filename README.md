# Address book core in Dafny

This project models the data layer of the DigiDuckBook address book (`AddressBook.py`):

- **Fields.** There are five validated field types: `Name`, `Phone`, `Email`, `Birthday` and `Address`. They share a `value` setter that runs the variant's validation rule before it stores anything.
- **`Record`.** A record holds:
  - one name;
  - an ordered list of phones;
  - an optional email, birthday and address.

  Its operations add, remove and replace phones in place, and replace the optional fields. It also computes the number of days to the next birthday, and exports itself as a one-entry dictionary.
- **`AddressBook`.** A dictionary from names to records that keeps insertion order. It does the following:
  - refuses duplicate keys and reports missing ones;
  - filters records by a birthday window;
  - does a case-insensitive substring search;
  - yields its records in fixed-size batches;
  - exports itself to a nested dictionary and imports from one.

Layout, one module per file:

- `wrappers.dfy`: `Option`, `Result` and `Outcome`.
- `text.dfy` (`Text`): ASCII character classes, `str.lower`, substring containment and `str.join`. It also deletes phone separators.
- `dates.dfy` (`Dates`):
  - the proleptic Gregorian calendar of `datetime.date` (years 1 to 9999), with day ordinals;
  - the ISO 8601 extended calendar form `YYYY-MM-DD` (section 4.1.2.2 of ISO 8601:2004), as `isoformat` writes it and `fromisoformat` reads it.
- `fields.dfy` (`Fields`):
  - the field variants and the five rules;
  - the conversion of constructor and method arguments;
  - the field object with its validating setter (`FieldCell`);
  - the exceptions, as one `Error` datatype.
- `records.dfy` (`Records`):
  - the record's values (`Contact`) and the `Record` class with its mutators;
  - construction (`Build`) and `days_to_birthday`;
  - the text `search` looks in;
  - the dictionary form of a record.
- `collections.dfy` (`Collections`): sequence helpers.
  - filtering by a mask (`Select`);
  - the first error of a run of steps (`Collect`);
  - the batches of `iterator` (`Batches`).
- `address_book.dfy` (`Book`):
  - the birthday window and search as specification functions;
  - the ordered dictionary of `to_dict`;
  - the import of `from_dict` as a function;
  - the loop methods, proved against those functions;
  - the `AddressBook` class over a `seq` of keys and a `map` from keys to `Record` objects.

The current date is a parameter `today` everywhere the source calls `date.today()`.

On these points the code behaves in ways a reader may not expect, and the model follows it:

- **Phones are stored raw.** The phone validator computes the canonical `+380` form and then discards it. The setter stores the argument unchanged, so two spellings of one number are different phones for `==` and for `in` (`Fields.PhoneEqualityIsRaw`).
- **Duplicate phones.** The record constructor does not reject duplicate phones. Only `add_phone` and `change_phone` refuse a phone already present. Those operations keep "no two phones are equal" once it holds (`DistinctPhones`).
- **The leap-day fallback never yields a number.** The `except ValueError` branch of `days_to_birthday` passes the Feb-28 date as the record's *email*. The email validator rejects it, so the fallback always raises and never returns a day count (`Records.LeapDayFallbackFails`, `Records.DaysToBirthdayErrors`).
- **Import is not atomic.** `from_dict` adds records one at a time. A failure partway through keeps the records added before it (`Book.Import`, `Book.AddressBook.FromDict`).
- **The birthday window.** `groups_days_to_bd` moves each birthday into the current year only. It uses neither the next-year roll-over nor the leap-day fallback of `days_to_birthday`. A record without a birthday makes the whole query fail.

On one point the model does not follow the code:

- **The name rule.** `Name` writes its rule as `__validate`, which Python mangles to `_Name__validate`, so it never overrides the abstract `_validate` of `AbstractField`. `Name` therefore stays an abstract class, `Name(...)` raises `TypeError`, and no record can be built from a raw name string. The model instead uses the rule of that method (more than two characters) as the name's validator, so that records can be built at all (see "## Left out").

## Model

| member | source | states |
|---|---|---|
| Fields.NameValid | AddressBook.py:43-46 | the rule of the name's `__validate` method: more than two characters (definition; in the source this method never runs and `Name(...)` raises `TypeError`, see above) |
| Fields.PhoneValid | AddressBook.py:48-54 | the phone rule: with spaces, parentheses and hyphens deleted, the text is `+380`, `380`, `80` or `0` followed by exactly nine digits (definition; its properties are stated by CanonicalShape, CanonicalOfPrefixed, PhoneValidIgnoresSeparators and PhoneLength) |
| Fields.EmailValid | AddressBook.py:56-61 | the email pattern as a split: a letter, a run without whitespace, `@`, letters, `.`, and two or more letters, covering the whole text (definition; properties in EmailSplitUnique, EmailTailHasNoAt, EmailShape) |
| Fields.BirthdayValid | AddressBook.py:63-70 | the birthday rule: the text parses as an ISO calendar date whose year is not after today's (definition; properties in BirthdayStaysValid, IsoCanonical) |
| Fields.AddressValid | AddressBook.py:76-82 | the address rule: not all whitespace, and 5 to 50 characters (definition; AddressValidIff states it as an if-and-only-if) |
| Fields.Equals | AddressBook.py:37-40 | `__eq__`: a field equals a raw string or another field exactly when the stored strings are equal (definition; PhoneEqualityIsRaw shows its consequence for phones) |
| Records.HasPhone | AddressBook.py:101 | `text in phones` under `__eq__`: some phone stores exactly that text (definition; used by the phone-list mutators' contracts and IndexOf) |
| Records.DaysToBirthday | AddressBook.py:131-144 | `days_to_birthday` with `today` as a parameter (definition; its meaning is stated by DaysToBirthdayErrors, DaysToBirthdayOk, DaysToBirthdayRange, DaysToBirthdayZeroIff and DaysToBirthdayNextAnniversary) |
| Records.NextAnniversary | AddressBook.py:137-139 | the two `replace(year=...)` calls: this year's anniversary, or next year's when it has passed, or none where `replace` raises (definition; NextAnniversaryNearest states it is the nearest one) |
| Records.LeapDayFallback | AddressBook.py:142-144 | the `except ValueError` branch as written (definition; LeapDayFallbackFails states that it always fails) |
| Records.SearchText | AddressBook.py:257-262 | the text `search` looks in: name, space-joined phones, then email, birthday and address rendered with `None` for an absent one (definition; MatchesName, MatchesPhone, MatchesOptional and AbsentFieldMatchesNone state what finds a record) |
| Records.Matches | AddressBook.py:263 | the lower-cased term is contained in the lower-cased search text (definition; see SearchText) |
| Records.ToDict | AddressBook.py:173-186 | `Record.to_dict`: the pair of the name and its entry of phone texts and optional texts (definition; ToDictRoundTrip states that building from it gives the record back) |
| Records.FromEntry | AddressBook.py:240-245 | the `Record(...)` call of `from_dict` on one name and entry, with raw strings (definition; see ToDictRoundTrip) |
| Collections.Select | AddressBook.py:219-226 | the records whose flag is set, in order; never more than the input (properties in SelectMembers) |
| Collections.Batches | AddressBook.py:273-278 | consecutive slices of the batch size, the last possibly shorter (definition; properties in BatchesFlatten, BatchesSizes, BatchesClamp) |
| Book.BirthdayDate | AddressBook.py:72-73 | `Birthday.get_date`: the date `fromisoformat` reads from the stored birthday text (definition; InWindowIsDaysToBirthday and ZeroDayWindow state the window through it, and IsoCanonical and IsoRoundTrip relate it to the stored text) |
| Book.InWindow | AddressBook.py:222-225 | the window test of `groups_days_to_bd` on one record, with its three raising cases (definition; InWindowIsDaysToBirthday and ZeroDayWindow state its meaning) |
| Book.Put | AddressBook.py:232 | `dict.update` with one pair: a new key goes last, an existing key keeps its place and takes the new value (definition; PutOrdered states it keeps the dictionary well-formed) |
| Book.DictOf | AddressBook.py:229-233 | the export: the records' pairs merged in insertion order (definition; properties in DictOfKeys, DictOfLastWins, DictOfDistinctNames, DictOfEntries) |
| Book.Import | AddressBook.py:239-246 | the loop of `from_dict` as a function over the built records: add each under its name in order, stop at the first build or duplicate-key failure keeping what was added (definition; properties in ImportAt, ImportAll, ImportAppends, BookRoundTrip) |
| Fields.FieldCell.SetValue | AddressBook.py:22-25 | the new value is validated first; on failure the old value stays and the error names the variant and the text its message quotes (the cleaned text for a phone), on success the argument is stored exactly as given |
| Fields.FieldCell.New | AddressBook.py:14-25 | a field object exists exactly when the variant's rule accepts the text, then holds that text; otherwise the validation error is raised |
| Fields.FieldCell.constructor | AddressBook.py:14-16 | a field built from an accepted text has its variant and stores that text |
| Fields.Convert | AddressBook.py:94-98 | the record's conversion helpers: an existing field passes through, a raw string fails exactly when the variant's rule rejects it; a success has the slot's variant, the argument's text and a well-formed value |
| Fields.UndatedRules | AddressBook.py:43-82 | only the birthday rule depends on the current date; every other rule gives the same answer on any two days |
| Fields.Canonical | AddressBook.py:54 | the `+380` form the phone validator computes and then discards: `+380` followed by the last nine characters of the text with separators deleted (definition; CanonicalShape, CanonicalOfPrefixed and PhoneEqualityIsRaw state its properties) |
| Fields.CanonicalShape | AddressBook.py:49-54 | the `+380` form of an accepted phone is thirteen characters: `+380` and nine digits |
| Fields.CanonicalOfPrefixed | AddressBook.py:49-54 | any spelling that is `+380`, `380`, `80` or `0` followed by nine digits once separators are removed is accepted, and its `+380` form keeps those nine digits |
| Fields.PhoneValidIgnoresSeparators | AddressBook.py:50-52 | the phone rule gives the same answer with or without spaces, parentheses and hyphens |
| Fields.PhoneLength | AddressBook.py:50-52 | an accepted phone has 10 to 13 characters after separators are removed |
| Fields.PhoneEqualityIsRaw | AddressBook.py:37-54 | a spaced and a plain spelling of one number are both accepted and share the `+380` form, yet compare unequal, because the stored values are raw |
| Fields.PhoneErrorQuotesCleanedText | AddressBook.py:50-53 | an illustration of Convert's error clause for phones: a rejected `093 111` raises an error quoting `093111`, the text with separators deleted, not the argument |
| Fields.EmailSplitUnique | AddressBook.py:58-59 | an accepted email fits the pattern at only one `@` position and one `.` position |
| Fields.EmailTailHasNoAt | AddressBook.py:58 | no `@` follows the pattern's `@` in an accepted email |
| Fields.EmailShape | AddressBook.py:58-59 | an accepted email starts with a letter, contains an `@` and has at least seven characters |
| Fields.IsoDateIsNotEmail | AddressBook.py:56-61 | no ISO date text is an accepted email |
| Fields.AddressValidIff | AddressBook.py:76-82 | an address is accepted if and only if it has 5 to 50 characters, at least one of them not whitespace |
| Fields.BirthdayStaysValid | AddressBook.py:63-70 | a birthday accepted today is still accepted on any later day, and it stays a parseable calendar date |
| Dates.DaysInMonth | AddressBook.py:66 | months have 28 to 31 days, and exactly February of a leap year has 29 |
| Dates.ParseIso | AddressBook.py:66 | `fromisoformat` succeeds only on a ten-character `YYYY-MM-DD` text naming a real date |
| Dates.IsoFormat | AddressBook.py:143 | `isoformat` writes four digits, a hyphen, two digits, a hyphen and two digits |
| Dates.IsoRoundTrip | AddressBook.py:66-73 | parsing the ISO form of a date gives the date back |
| Dates.IsoCanonical | AddressBook.py:66-73 | any text the parser accepts is exactly the ISO form of its date, so the stored birthday text is canonical |
| Dates.OrdinalOrder | AddressBook.py:136-140 | comparing dates is comparing their day ordinals, and two dates are equal exactly when their ordinals are |
| Dates.NextYearGap | AddressBook.py:137-140 | the same month and day one year later lies 365 or 366 days ahead |
| Dates.DaysBeforeYearStep | AddressBook.py:140 | the ordinal count of days adds a year's length, 365 or 366 by the leap rule, per year |
| Text.ContainsWitness | AddressBook.py:263 | `needle in hay` holds only where the needle occurs at some index |
| Text.ContainsAt | AddressBook.py:263 | an occurrence at any index makes `needle in hay` true |
| Text.EmptyIsContained | AddressBook.py:263 | the empty string is in every string |
| Text.StripSeparators | AddressBook.py:50 | no space, parenthesis or hyphen is left, and the text does not grow |
| Text.StripSeparatorsKeeps | AddressBook.py:50 | text without separators is left unchanged |
| Text.StripSeparatorsAppend | AddressBook.py:50 | separators are deleted from each part of a concatenation independently |
| Records.IndexOf | AddressBook.py:122 | `phones.index(text)` is the first position whose phone stores the text |
| Records.ConvertAll | AddressBook.py:95 | the phone list converts exactly when every phone does, position by position; otherwise the error is that of the first phone that fails |
| Records.ConvertOpt | AddressBook.py:96-98 | an absent optional argument stays absent; a present one succeeds exactly when it is an existing field or its text passes the rule, then gives a well-formed field of the slot's variant holding the argument's text; a failure is the validation error of the given text |
| Records.Build | AddressBook.py:86-98 | a record is built exactly when the name, every phone and each present optional field convert; it then holds each argument's text in its slot, the phones in order and no optional field that was not given, all well-formed; otherwise the error is that of the first failing conversion, in the order name, phones, email, birthday, address |
| Records.Record.New | AddressBook.py:86-98 | `Record(...)` gives a fresh valid record holding exactly the built values, or raises the construction error |
| Records.Record.AddPhone | AddressBook.py:100-105 | a phone equal to one present is refused with the list unchanged; an invalid one raises its validation error with the list unchanged; otherwise the phone is appended at the end; distinct phones stay distinct |
| Records.Record.RemovePhone | AddressBook.py:107-111 | an invalid phone raises its validation error, an absent one is refused, both with the list unchanged; otherwise exactly the first equal phone is deleted; distinct phones stay distinct |
| Records.Record.ChangePhone | AddressBook.py:113-123 | an invalid or absent old phone, or an invalid or already present new phone, is refused with the list unchanged; otherwise the new phone replaces the old one at its first index, nothing else changes, and distinct phones stay distinct |
| Records.Record.ChangeEmail | AddressBook.py:125-126 | the email becomes the converted argument when it is accepted; otherwise the old email stays and the validation error is raised |
| Records.Record.ChangeBirthday | AddressBook.py:128-129 | the birthday becomes the converted argument when today's rule accepts it; otherwise the old birthday stays and the validation error is raised |
| Records.Record.ChangeAddress | AddressBook.py:146-147 | the address becomes the converted argument when it is accepted; otherwise the old address stays and the validation error is raised |
| Records.DaysToBirthdayErrors | AddressBook.py:131-144 | no birthday fails with the "not set" error; every other failure is the email validator rejecting the Feb-28 text the fallback passes |
| Records.LeapDayFallbackFails | AddressBook.py:142-144 | the `except ValueError` branch always fails, with the email rejection of the Feb-28 date |
| Records.DaysToBirthdayOk | AddressBook.py:136-140 | a distance exists exactly when the needed anniversary exists, and it is that anniversary's ordinal minus today's |
| Records.NextAnniversaryNearest | AddressBook.py:137-139 | the anniversary chosen falls on the birthday's month and day, is not before today and at most 365 days ahead, and no valid date with that month and day that is not before today comes earlier |
| Records.DaysToBirthdayDefined | AddressBook.py:136-140 | a birthday other than Feb 29 always has a distance, as long as next year is representable |
| Records.LeapDayBirthday | AddressBook.py:136-144 | a Feb-29 birthday has a distance exactly in a leap year on or before Feb 29 |
| Records.LeapDayAnniversary | AddressBook.py:137-139 | a Feb-29 anniversary exists exactly when today's year is a leap year and Feb 29 is not yet past |
| Records.DaysToBirthdayNextAnniversary | AddressBook.py:137-140 | the result counts the days from today to an anniversary of the birthday that is not before today |
| Records.DaysToBirthdayRange | AddressBook.py:131-144 | every distance lies between 0 and 365 |
| Records.DaysToBirthdayZeroIff | AddressBook.py:137-140 | the distance is zero if and only if today has the birthday's month and day |
| Records.PhoneTexts | AddressBook.py:258 | the phone texts are the stored phone values, in order |
| Records.MatchesName | AddressBook.py:257-263 | a term found in the name, in any letter case, finds the record |
| Records.MatchesPhone | AddressBook.py:257-263 | a term found in any one phone, in any letter case, finds the record |
| Records.MatchesOptional | AddressBook.py:257-263 | a term found in the rendered email, birthday or address finds the record |
| Records.MatchesPiece | AddressBook.py:257-263 | a term found in any piece of the searched text, in any letter case, finds the record |
| Records.AbsentFieldMatchesNone | AddressBook.py:259-263 | when the email, birthday or address is absent, the term `none` in any case finds the record |
| Records.ContainsLower | AddressBook.py:263 | containment is kept from the parts to the whole under lower-casing |
| Records.JoinContainsPart | AddressBook.py:258 | each phone text is in the space-joined phone list |
| Records.ToDictRoundTrip | AddressBook.py:173-186 | building a record from its exported name and entry, on a day that accepts its fields, gives the same record back |
| Collections.BatchesFlatten | AddressBook.py:267-278 | putting the batches back together gives the records in order |
| Collections.BatchesSizes | AddressBook.py:267-278 | every batch but the last holds exactly the batch size, the last between one and the batch size, and there are no batches exactly for no records |
| Collections.BatchesClamp | AddressBook.py:270-271 | a batch size at least the number of records gives one batch of all of them, the same as the clamped size |
| Collections.BatchesStep | AddressBook.py:274-278 | between two multiples of the batch size, the records collected so far form exactly one more batch |
| Collections.SelectMembers | AddressBook.py:221-226 | filtering by a mask keeps exactly the elements whose flag is set |
| Collections.CollectMeaning | AddressBook.py:221-226 | a run of steps succeeds exactly when every step does, giving each step's value, and otherwise fails with the first error |
| Book.StepAt | AddressBook.py:221-226 | the window step at each position is that of the record at the same position |
| Book.WindowMaskMeaning | AddressBook.py:221-226 | the window query succeeds exactly when no record's step raises, then flags each record by its own step; otherwise the first raising record's error is returned |
| Book.InWindowIsDaysToBirthday | AddressBook.py:222-225 | a record is in the window exactly when this year's anniversary is not yet past and its distance is at most the window length |
| Book.ZeroDayWindow | AddressBook.py:222-225 | a window of zero days holds exactly the records whose birthday falls on today's month and day |
| Book.WindowStep | AddressBook.py:222-225 | the loop body's test on a record is the window step of its values |
| Book.WindowAt | AddressBook.py:221-226 | one turn of the loop extends the flags and the selected records, or stops with the first error of the whole query |
| Book.WindowIn | AddressBook.py:219-227 | the loop returns, in order, exactly the records in the window, or the first raising record's error |
| Book.MatchFlag | AddressBook.py:263 | the search flag of a record is whether it matches the term |
| Book.MatchMaskAt | AddressBook.py:256-264 | every search flag is whether its record matches |
| Book.SearchMembers | AddressBook.py:254-265 | a matching record is found, and every record found matches |
| Book.EmptyTermSelectsAll | AddressBook.py:263 | the empty term finds every record, in order |
| Book.MatchStep | AddressBook.py:257-263 | the loop body's test on a record is its search flag |
| Book.SearchIn | AddressBook.py:255-265 | the loop returns, in order, exactly the records that match |
| Book.BatchesIn | AddressBook.py:273-278 | the counter loop yields exactly the consecutive batches of the given size |
| Book.PutOrdered | AddressBook.py:232 | `update` keeps the key order in step with the map |
| Book.MergeIntoKeys | AddressBook.py:229-233 | merging pairs keeps the order in step, and the keys are the old keys and those of the pairs |
| Book.MergeIntoKeeps | AddressBook.py:229-233 | a key no pair mentions keeps its value |
| Book.MergeLastWins | AddressBook.py:229-233 | each key holds the value of its last pair |
| Book.MergeDistinct | AddressBook.py:229-233 | pairs with new, distinct keys are appended to the order in their own order |
| Book.DictOfKeys | AddressBook.py:229-233 | the export is a well-formed dictionary whose keys are exactly the records' names |
| Book.DictOfLastWins | AddressBook.py:229-233 | under a name, the export holds the entry of the last record with that name |
| Book.DictOfDistinctNames | AddressBook.py:229-233 | with distinct names, the export lists the names in record order |
| Book.BuildsAt | AddressBook.py:239-246 | the record built at each position comes from that position's name and entry |
| Book.ImportAt | AddressBook.py:239-246 | at each entry, a failed build stops the import, a name already present stops it with the duplicate-key error, and a new name is added before the import goes on |
| Book.ImportAll | AddressBook.py:239-246 | successfully built records with distinct new names are appended, names and records in order, and the import succeeds |
| Book.ImportAppends | AddressBook.py:239-246 | an import only appends keys and records, in step, and keeps what was there |
| Book.DictOfEntries | AddressBook.py:229-246 | under each name, the export holds an entry that builds that record back |
| Book.DictBuildAt | AddressBook.py:229-246 | the build of the export's entry at each position gives back the record at that position |
| Book.BookRoundTrip | AddressBook.py:229-246 | importing the export of records with distinct names into an empty book, on a day that accepts their fields, rebuilds the same names and records in order, without error |
| Book.RemoveAt | AddressBook.py:211 | removing one key from distinct keys leaves every other key, once each, and no longer that one |
| Book.AddressBook.constructor | AddressBook.py:189 | a new book is empty and well-formed |
| Book.AddressBook.GetItem | AddressBook.py:193-197 | `book[key]` gives the record stored under a present key, and the not-found error otherwise |
| Book.AddressBook.SetItem | AddressBook.py:199-204 | a non-record is refused with the type error and a present key with the duplicate-key error, both with the book unchanged; otherwise the record is stored under the key at the end of the order |
| Book.AddressBook.Append | AddressBook.py:204 | storing under a new key appends it to the order and the record's values to the contents |
| Book.AddressBook.AddRecord | AddressBook.py:189-191 | the record is stored under its name's value, or refused with the duplicate-key error with the book unchanged |
| Book.AddressBook.DelItem | AddressBook.py:206-211 | a missing key is refused with the book unchanged; otherwise exactly that key is removed, the rest keeping their order |
| Book.AddressBook.GroupsDaysToBd | AddressBook.py:213-227 | non-digit input is refused; an end date past the last representable day is refused; otherwise the result is, in order, the records whose birthday moved into this year lies in the closed window, or the first raising record's error |
| Book.AddressBook.Search | AddressBook.py:254-265 | the records whose searched text contains the term, compared in lower case, in insertion order |
| Book.AddressBook.Iterator | AddressBook.py:267-278 | a batch size below one is refused; otherwise the records come in consecutive batches of the (clamped) size, and an empty book yields none |
| Book.AddressBook.ToDict | AddressBook.py:229-233 | the loop's result is the records' pairs merged in insertion order |
| Book.AddressBook.BuildAt | AddressBook.py:240-245 | the record built for an entry is fresh and valid, and holds what the entry builds; or the build's error is returned |
| Book.AddressBook.AddBuilt | AddressBook.py:240 | adding a built record is the import's step: it stops with the duplicate-key error or goes on with the rest, keeping every earlier record |
| Book.AddressBook.AddMade | AddressBook.py:240-246 | after a build, the import stops at a build or key error, or goes on with the next entry; earlier records are kept |
| Book.AddressBook.ImportAtIndex | AddressBook.py:239-246 | one loop turn of `from_dict` is the import's step at that entry, and it adds only fresh records |
| Book.AddressBook.FromDict | AddressBook.py:235-246 | the new keys, contents and outcome are those of the import of the entries in dictionary order: records are added one at a time, and the first failure stops the import while keeping the records already added |

## Left out

- `date.today()` is not modelled: the current date is the parameter `today`.
- The `re` engine is not modelled: each pattern is a hand-written predicate over ASCII. This covers `\d`, `\S`, `[a-zA-Z]`, `str.isdigit`, `str.isspace` and `str.lower`. Non-ASCII digits, whitespace and case mappings are outside the model.
- `date.fromisoformat` is modelled for the `YYYY-MM-DD` form only. Newer Python versions also accept other ISO 8601 spellings, such as the basic form `YYYYMMDD` and week dates. Those are not modelled.
- `timedelta(days=...)` and `date + timedelta`: an end date past 9999-12-31 is the error `DateOverflow`. The separate `timedelta` limit of 999999999 days also lies past that date, so it falls into the same error.
- `__str__`, `__repr__`, `AddressBook.__str__` and `output_all_data` are not modelled. They are presentation only.
- `AbstractData` from `DigiDuckBook.abc_book` is not part of this model. `UserDict` is modelled only through its `data` dictionary, with insertion order.
- `iterator` returns the whole sequence of batches. The generator's laziness is not modelled.
- Field objects are values inside a record (`Field`). Sharing one field object between records, and setting it later through one of them, is not modelled. `FieldCell` models the setter on a single object.
- The conversion helpers `_name`, `_phone`, `_email`, `_birthday` and `_address` are called by `Record` but are not in the source.
  - They are modelled as follows: wrap a raw string with validation, or pass an existing field of the slot's variant through.
  - `Fields.Convert` requires an existing field to be of its slot's variant. What the missing helpers do with a field of another variant is unknown.
- The `isinstance` checks of `from_dict` (non-dictionary input) and `__delitem__` (non-string key) are excluded by the argument types. The non-record check of `__setitem__` is modelled by a `null` record.
- Entries in an imported dictionary always have the four keys `phones`, `email`, `birthday` and `address`, with strings or lists of strings.
  - A missing key would raise `KeyError`; that is not modelled.
  - Values of other types are not modelled either.
- Book.AddressBook.FromDict: requires the entry dictionary to be well-formed (`Ordered`). A Python dictionary always is, so this adds no demand on callers.
- Book.AddressBook.FromDict: the import is stated through the records each entry builds, computed up front. This is equivalent to building them one by one, because building a record has no side effects.
- Records.Record.AddPhone, Records.Record.RemovePhone and Records.Record.ChangePhone: validate the phone against a fixed day, because the phone rule does not depend on the date (`Fields.UndatedRules`).
- Error messages are not modelled. Each exception is a constructor of `Error` carrying the values that identify its cause. A validator's error carries the text its message quotes, which for a phone is the text with separators deleted. `NoBirthday` stands for both exceptions a missing birthday raises: the `KeyError` of `days_to_birthday` and the `AttributeError` of `None.get_date()` in `groups_days_to_bd`.
- Fields.NameValid: the model uses the rule of lines 45-46 of `AddressBook.py` as the name's validator. The code would raise `TypeError` instead, because `Name` never overrides the abstract `_validate`, so every construction of a `Name` from a raw string, and with it every `Record(...)` call with a raw name, fails there.

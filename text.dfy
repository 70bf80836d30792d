/** ASCII views of the Python string operations the core relies on:
    `str.isdigit`, `str.isspace`, `str.lower`, `in` on strings, `" ".join`
    and the character class removal done with `re.sub`. */
module Text {

  predicate IsDigit(c: char) { '0' <= c <= '9' }

  predicate IsLetter(c: char) { 'a' <= c <= 'z' || 'A' <= c <= 'Z' }

  /** The ASCII characters Python counts as whitespace (`\s`, `str.isspace`). */
  predicate IsWhitespace(c: char) {
    c == ' ' || ('\t' <= c <= '\r') || ('\U{1C}' <= c <= '\U{1F}')
  }

  predicate AllDigits(s: string) { forall i :: 0 <= i < |s| ==> IsDigit(s[i]) }

  predicate AllLetters(s: string) { forall i :: 0 <= i < |s| ==> IsLetter(s[i]) }

  predicate NoWhitespace(s: string) { forall i :: 0 <= i < |s| ==> !IsWhitespace(s[i]) }

  /** `str.isdigit()`: non-empty and made of digits only. */
  predicate IsDigitString(s: string) { |s| > 0 && AllDigits(s) }

  /** `str.isspace()`: non-empty and made of whitespace only. */
  predicate IsSpaceString(s: string) {
    |s| > 0 && forall i :: 0 <= i < |s| ==> IsWhitespace(s[i])
  }

  /** The decimal value of a digit string, as `int(s)` computes it. */
  function DigitsValue(s: string): (n: nat)
    requires AllDigits(s)
  {
    if s == [] then 0 else 10 * DigitsValue(s[..|s| - 1]) + (s[|s| - 1] as int - '0' as int)
  }

  function LowerChar(c: char): (r: char)
    ensures IsLetter(c) ==> IsLetter(r) && 'a' <= r <= 'z'
    ensures !('A' <= c <= 'Z') ==> r == c
  {
    if 'A' <= c <= 'Z' then (c as int - 'A' as int + 'a' as int) as char else c
  }

  /** `str.lower()` on ASCII text. */
  function Lower(s: string): (r: string)
    ensures |r| == |s|
    ensures forall i :: 0 <= i < |s| ==> r[i] == LowerChar(s[i])
  {
    seq(|s|, i requires 0 <= i < |s| => LowerChar(s[i]))
  }

  /** `needle` occurs in `hay` starting at index `i`. */
  predicate OccursAt(hay: string, needle: string, i: int) {
    0 <= i && i + |needle| <= |hay| && hay[i..i + |needle|] == needle
  }

  /** Python's `needle in hay` on strings: some slice of `hay` equals
      `needle`, looked for from the left. */
  predicate Contains(hay: string, needle: string) {
    ContainsFrom(hay, needle, 0)
  }

  /** `needle` occurs in `hay` at index `i` or later. */
  predicate ContainsFrom(hay: string, needle: string, i: nat)
    decreases |hay| - i
  {
    i + |needle| <= |hay| && (OccursAt(hay, needle, i) || ContainsFrom(hay, needle, i + 1))
  }

  /** An occurrence at or after `i` is found by the search from `i`. */
  lemma {:induction false} ContainsFromAt(hay: string, needle: string, i: nat, j: int)
    requires i <= j && OccursAt(hay, needle, j)
    ensures ContainsFrom(hay, needle, i)
    decreases j - i
  {
    if i < j {
      ContainsFromAt(hay, needle, i + 1, j);
    }
  }

  /** The search from `i` succeeds only at an occurrence at or after `i`. */
  lemma {:induction false} ContainsFromWitness(hay: string, needle: string, i: nat) returns (j: int)
    requires ContainsFrom(hay, needle, i)
    ensures i <= j && OccursAt(hay, needle, j)
    decreases |hay| - i
  {
    if OccursAt(hay, needle, i) {
      j := i;
    } else {
      j := ContainsFromWitness(hay, needle, i + 1);
    }
  }

  /** Any occurrence makes `needle in hay` true. */
  lemma ContainsAt(hay: string, needle: string, j: int)
    requires OccursAt(hay, needle, j)
    ensures Contains(hay, needle)
  {
    ContainsFromAt(hay, needle, 0, j);
  }

  /** `needle in hay` is true only at an occurrence. */
  lemma ContainsWitness(hay: string, needle: string) returns (j: int)
    requires Contains(hay, needle)
    ensures 0 <= j <= |hay| && OccursAt(hay, needle, j)
  {
    j := ContainsFromWitness(hay, needle, 0);
  }

  /** `sep.join(parts)`. */
  function Join(sep: string, parts: seq<string>): string {
    if parts == [] then ""
    else if |parts| == 1 then parts[0]
    else Join(sep, parts[..|parts| - 1]) + sep + parts[|parts| - 1]
  }

  /** The characters `re.sub(r'[ \(\)\-]', '', value)` deletes from a phone number. */
  predicate IsPhoneSeparator(c: char) { c == ' ' || c == '(' || c == ')' || c == '-' }

  /** `value` with every phone separator deleted. */
  function StripSeparators(s: string): (r: string)
    ensures forall i :: 0 <= i < |r| ==> !IsPhoneSeparator(r[i])
    ensures |r| <= |s|
  {
    if s == [] then []
    else if IsPhoneSeparator(s[0]) then StripSeparators(s[1..])
    else [s[0]] + StripSeparators(s[1..])
  }

  /** Every string contains the empty string (Python: `"" in s` is true). */
  lemma EmptyIsContained(hay: string)
    ensures Contains(hay, "")
  {
    assert OccursAt(hay, "", 0);
    ContainsAt(hay, "", 0);
  }


  /** Deleting separators keeps every other character, in order. */
  lemma {:induction false} StripSeparatorsKeeps(s: string)
    requires forall i :: 0 <= i < |s| ==> !IsPhoneSeparator(s[i])
    ensures StripSeparators(s) == s
  {
    if s != [] {
      StripSeparatorsKeeps(s[1..]);
    }
  }

  lemma {:induction false} StripSeparatorsAppend(a: string, b: string)
    ensures StripSeparators(a + b) == StripSeparators(a) + StripSeparators(b)
  {
    if a != [] {
      assert (a + b)[1..] == a[1..] + b;
      StripSeparatorsAppend(a[1..], b);
    } else {
      assert a + b == b;
    }
  }
}

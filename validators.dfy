/** The two input checks run before any query: the season year and the
    player-name search string. Both answer the way the program does,
    with `True` or with an error message (never `False`). */
module Validators {
  import opened Ascii

  /** The value a check hands back to its caller: a boolean flag or an
      error message, the two kinds of value the checks can return. */
  datatype Outcome = Flag(b: bool) | Message(text: string)

  /** The first season the statistics cover. */
  const EarliestSeason := 1979

  const NumberMessage := "Name cannot be a number."
  const DigitsMessage := "Names cannot contain numbers. Only latin letters please."
  const CharactersMessage := "Name contains non-allowed characters. Only latin letters please."
  const RangePrefix := "Date is outside of valid range of 1979-"

  // ---------------------------------------------------------------------------
  // Season year

  /** Decimal digits of a natural number, most significant first. */
  function Decimal(n: nat): (r: string)
    ensures |r| > 0 && forall i :: 0 <= i < |r| ==> IsDigit(r[i])
    ensures r[0] == '0' ==> n == 0 && |r| == 1
    decreases n
  {
    var d := ['0' + (n % 10) as char];
    if n < 10 then d else Decimal(n / 10) + d
  }

  /** The value of a string of decimal digits. */
  function ParseDecimal(s: string): nat
    requires forall i :: 0 <= i < |s| ==> IsDigit(s[i])
  {
    if s == [] then 0
    else
      assert IsDigit(s[|s| - 1]);
      ParseDecimal(s[..|s| - 1]) * 10 + (s[|s| - 1] as int - '0' as int)
  }

  /** Writing a number in decimal and reading it back gives the number. */
  lemma {:induction false} DecimalRoundTrip(n: nat)
    ensures ParseDecimal(Decimal(n)) == n
    decreases n
  {
    var r := Decimal(n);
    if n >= 10 {
      DecimalRoundTrip(n / 10);
      assert r[..|r| - 1] == Decimal(n / 10);
    }
  }

  /** The error text for a season outside the accepted range. */
  function RangeMessage(currentYear: nat): string {
    RangePrefix + Decimal(currentYear) + "."
  }

  /** `validate_season_year`: `True` exactly for the seasons from 1979 up to
      the current year, which the caller supplies; otherwise the range
      message naming that year. Its loop always leaves on the first pass. */
  function ValidateSeasonYear(season: int, currentYear: nat): (r: Outcome)
    ensures r == Flag(true) <==> EarliestSeason <= season <= currentYear
    ensures r != Flag(false)
    ensures r.Message? ==> RangeMessageNames(r.text, currentYear)
  {
    if season < EarliestSeason || season > currentYear then
      RangeMessageNamesYear(currentYear);
      Message(RangeMessage(currentYear))
    else
      Flag(true)
  }

  /** `text` is the range message and the year it quotes reads back as `year`. */
  predicate RangeMessageNames(text: string, year: nat) {
    && |text| > |RangePrefix| + 1
    && text[..|RangePrefix|] == RangePrefix
    && text[|text| - 1] == '.'
    && var digits := text[|RangePrefix|..|text| - 1];
       && (forall i :: 0 <= i < |digits| ==> IsDigit(digits[i]))
       && (digits[0] != '0' || |digits| == 1)
       && ParseDecimal(digits) == year
  }

  lemma RangeMessageNamesYear(year: nat)
    ensures RangeMessageNames(RangeMessage(year), year)
  {
    var text := RangeMessage(year);
    assert text[|RangePrefix|..|text| - 1] == Decimal(year);
    DecimalRoundTrip(year);
  }

  // ---------------------------------------------------------------------------
  // Player name

  /** The ASCII characters `int()` ignores around its argument: space, the
      tab, line and page breaks, and the four information separators. */
  predicate IsSpace(c: char) {
    || c == ' ' || c == '\t' || c == '\n' || c == '\r' || c == '\U{000B}' || c == '\U{000C}'
    || c == '\U{001C}' || c == '\U{001D}' || c == '\U{001E}' || c == '\U{001F}'
  }

  function LeadingSpaces(s: string): (n: nat)
    ensures n <= |s|
  {
    if s != [] && IsSpace(s[0]) then 1 + LeadingSpaces(s[1..]) else 0
  }

  function TrailingSpaces(s: string): (n: nat)
    ensures n <= |s|
  {
    if s != [] && IsSpace(s[|s| - 1]) then 1 + TrailingSpaces(s[..|s| - 1]) else 0
  }

  /** `s` without the whitespace at either end. */
  function Trim(s: string): string {
    var rest := s[LeadingSpaces(s)..];
    rest[..|rest| - TrailingSpaces(rest)]
  }

  /** One or more decimal digits, with single underscores allowed between
      two digits, as `int()` accepts them. */
  predicate DigitGroups(u: string)
    decreases |u|
  {
    && |u| > 0
    && IsDigit(u[0])
    && (|u| == 1 || DigitGroups(u[1..]) || (u[1] == '_' && DigitGroups(u[2..])))
  }

  /** The strings `int()` converts without raising: surrounding whitespace,
      an optional sign, then digit groups. */
  predicate IntLiteral(s: string) {
    var t := Trim(s);
    if t != [] && (t[0] == '+' || t[0] == '-') then DigitGroups(t[1..]) else DigitGroups(t)
  }

  predicate ContainsDigit(s: string) {
    exists i :: 0 <= i < |s| && IsDigit(s[i])
  }

  predicate ContainsLatinOrPeriod(s: string) {
    exists i :: 0 <= i < |s| && (IsLatinLetter(s[i]) || s[i] == '.')
  }

  /** Every string `int()` accepts has a digit in it. */
  lemma IntLiteralHasDigit(s: string)
    requires IntLiteral(s)
    ensures ContainsDigit(s)
  {
    var a := LeadingSpaces(s);
    var rest := s[a..];
    var t := Trim(s);
    assert t == s[a..a + |rest| - TrailingSpaces(rest)];
    if t != [] && (t[0] == '+' || t[0] == '-') {
      assert IsDigit(s[a + 1]);
    } else {
      assert IsDigit(s[a]);
    }
  }

  lemma LowerKeepsClasses(s: string)
    ensures ContainsDigit(Lower(s)) == ContainsDigit(s)
    ensures ContainsLatinOrPeriod(Lower(s)) == ContainsLatinOrPeriod(s)
  {
    var l := Lower(s);
    if ContainsDigit(s) {
      var i :| 0 <= i < |s| && IsDigit(s[i]);
      assert IsDigit(l[i]);
    }
    if ContainsLatinOrPeriod(s) {
      var i :| 0 <= i < |s| && (IsLatinLetter(s[i]) || s[i] == '.');
      assert IsLatinLetter(l[i]) || l[i] == '.';
    }
  }

  /** `validate_player_name`. A string `int()` accepts is "a number"; any
      other string with a digit is refused for the digit; a string with no
      digit passes as soon as it has one latin letter or period, whatever
      else it contains; the rest, the empty string among them, is refused
      for its characters. The answer is `True` or a message, never `False`. */
  function ValidatePlayerName(name: string): (r: Outcome)
    ensures r != Flag(false)
    ensures r == Message(NumberMessage) <==> IntLiteral(name)
    ensures r == Message(DigitsMessage) <==> !IntLiteral(name) && ContainsDigit(name)
    ensures r == Flag(true) <==> !ContainsDigit(name) && ContainsLatinOrPeriod(name)
    ensures r == Message(CharactersMessage) <==> !ContainsDigit(name) && !ContainsLatinOrPeriod(name)
  {
    if IntLiteral(name) then
      IntLiteralHasDigit(name);
      Message(NumberMessage)
    else
      var lowered := Lower(name);
      LowerKeepsClasses(name);
      if ContainsDigit(lowered) then Message(DigitsMessage)
      else if ContainsLatinOrPeriod(lowered) then Flag(true)
      else Message(CharactersMessage)
  }
}

/**
 * formatDuration of utils/events.js: a millisecond duration shown as whole
 * hours and minutes, "Hh Mm", "Hh" or "Mm".
 */
module Duration {
  import opened Wrappers

  const MS_PER_HOUR: nat := 3600000
  const MS_PER_MINUTE: nat := 60000

  predicate IsDigit(c: char)
  {
    '0' <= c <= '9'
  }

  predicate AllDigits(s: string)
  {
    forall i :: 0 <= i < |s| ==> IsDigit(s[i])
  }

  /** The decimal numeral `${n}` of a template literal: digits only, no leading zero. */
  function NatToString(n: nat): (s: string)
    ensures |s| >= 1 && AllDigits(s)
    ensures s[0] == '0' ==> n == 0 && |s| == 1
    decreases n
  {
    if n < 10 then [('0' as int + n) as char]
    else NatToString(n / 10) + [('0' as int + n % 10) as char]
  }

  /** A decimal numeral as `${n}` writes it: one or more digits, no leading zero. */
  predicate Numeral(s: string)
  {
    |s| >= 1 && AllDigits(s) && (s[0] == '0' ==> |s| == 1)
  }

  /** The number a string of decimal digits denotes. */
  function DigitsValue(s: string): nat
    requires AllDigits(s)
  {
    if s == [] then 0 else DigitsValue(s[..|s| - 1]) * 10 + (s[|s| - 1] as int - '0' as int)
  }

  lemma {:induction false} DigitsRoundTrip(n: nat)
    ensures DigitsValue(NatToString(n)) == n
    decreases n
  {
    var s := NatToString(n);
    if n >= 10 {
      DigitsRoundTrip(n / 10);
      assert s[..|s| - 1] == NatToString(n / 10);
    }
  }

  /** Whole hours in `ms`. */
  function Hours(ms: nat): nat
  {
    ms / MS_PER_HOUR
  }

  /** Whole minutes left over after the whole hours. */
  function Minutes(ms: nat): nat
  {
    (ms % MS_PER_HOUR) / MS_PER_MINUTE
  }

  /**
   * Hours and Minutes floor the duration: they account for all of `ms` but
   * less than one minute, and Minutes never reaches 60.
   */
  lemma HoursMinutesBounds(ms: nat)
    ensures Minutes(ms) < 60
    ensures Hours(ms) * MS_PER_HOUR + Minutes(ms) * MS_PER_MINUTE <= ms
                                     < Hours(ms) * MS_PER_HOUR + Minutes(ms) * MS_PER_MINUTE + MS_PER_MINUTE
  {
  }

  /**
   * Reads back a rendered duration: "Hh Mm", "Hh" or "Mm" with decimal
   * numerals H and M, written without leading zeros; anything else is None.
   */
  function ParseDuration(s: string): Option<(nat, nat)>
  {
    if |s| < 2 then None
    else
      var body, unit := s[..|s| - 1], s[|s| - 1];
      if unit == 'h' then
        if Numeral(body) then Some((DigitsValue(body), 0)) else None
      else if unit == 'm' then
        if Numeral(body) then Some((0, DigitsValue(body)))
        else
          var k := IndexOfH(body);
          if k + 2 < |body| && body[k + 1] == ' '
             && Numeral(body[..k]) && Numeral(body[k + 2..])
          then Some((DigitsValue(body[..k]), DigitsValue(body[k + 2..])))
          else None
      else None
  }

  /** Index of the first 'h' in `s`, or |s| when there is none. */
  function IndexOfH(s: string): (k: nat)
    ensures k <= |s| && (k < |s| ==> s[k] == 'h')
    ensures forall i :: 0 <= i < k ==> s[i] != 'h'
  {
    if s == [] || s[0] == 'h' then 0 else 1 + IndexOfH(s[1..])
  }

  /**
   * formatDuration for a non-negative whole number of milliseconds. The text
   * reads back as exactly the floored hours and minutes; it ends in 'h'
   * exactly when there are hours and no minutes, and holds a space exactly
   * when there are both.
   */
  function FormatDuration(ms: nat): (r: string)
    ensures ParseDuration(r) == Some((Hours(ms), Minutes(ms)))
    ensures r[|r| - 1] == 'h' <==> Hours(ms) > 0 && Minutes(ms) == 0
    ensures ' ' in r <==> Hours(ms) > 0 && Minutes(ms) > 0
  {
    var hours := Hours(ms);
    var minutes := Minutes(ms);
    if hours > 0 && minutes > 0 then
      ReadBackHoursMinutes(hours, minutes);
      NatToString(hours) + "h " + NatToString(minutes) + "m"
    else if hours > 0 then
      ReadBackUnit(hours, 'h');
      NatToString(hours) + "h"
    else
      ReadBackUnit(minutes, 'm');
      NatToString(minutes) + "m"
  }

  /** "Hh Mm" reads back as (H, M) and does not end in 'h'. */
  lemma ReadBackHoursMinutes(hours: nat, minutes: nat)
    requires hours > 0
    ensures var r := NatToString(hours) + "h " + NatToString(minutes) + "m";
            ParseDuration(r) == Some((hours, minutes)) && r[|r| - 1] == 'm' && ' ' in r
  {
    var h, m := NatToString(hours), NatToString(minutes);
    ParseTwoNumerals(h, m);
    DigitsRoundTrip(hours);
    DigitsRoundTrip(minutes);
    var r := h + "h " + m + "m";
    assert r[|h| + 1] == ' ';
  }

  lemma ParseTwoNumerals(h: string, m: string)
    requires Numeral(h) && Numeral(m)
    ensures ParseDuration(h + "h " + m + "m") == Some((DigitsValue(h), DigitsValue(m)))
  {
    var r := h + "h " + m + "m";
    var body := h + "h " + m;
    assert r[..|r| - 1] == body;
    assert r[|r| - 1] == 'm';
    assert body[|h|] == 'h';
    assert !AllDigits(body);
    IndexOfHDigits(h, "h " + m);
    var k := IndexOfH(body);
    assert k == |h| && 1 <= k && k + 2 < |body|;
    assert body[..k] == h;
    assert body[k + 2..] == m;
    assert body[k + 1] == ' ';
    assert ParseDuration(r) == Some((DigitsValue(body[..k]), DigitsValue(body[k + 2..])));
  }

  /** A single numeral followed by its unit reads back as that one count. */
  lemma ReadBackUnit(n: nat, unit: char)
    requires unit == 'h' || unit == 'm'
    ensures var r := NatToString(n) + [unit];
            ParseDuration(r) == (if unit == 'h' then Some((n, 0)) else Some((0, n)))
            && r[|r| - 1] == unit && ' ' !in r
  {
    var d := NatToString(n);
    var r := d + [unit];
    assert r[..|r| - 1] == d;
    DigitsRoundTrip(n);
    assert forall i :: 0 <= i < |r| ==> r[i] != ' ';
  }

  lemma IndexOfHDigits(d: string, rest: string)
    requires AllDigits(d) && |rest| > 0 && rest[0] == 'h'
    ensures IndexOfH(d + rest) == |d|
  {
    if d != [] {
      assert (d + rest)[1..] == d[1..] + rest;
      IndexOfHDigits(d[1..], rest);
    } else {
      assert d + rest == rest;
    }
  }

  /** A numeral that does not start with '0' denotes a positive number. */
  lemma {:induction false} LeadingDigitPositive(s: string)
    requires |s| >= 1 && AllDigits(s) && s[0] != '0'
    ensures DigitsValue(s) >= 1
    decreases |s|
  {
    if |s| > 1 {
      LeadingDigitPositive(s[..|s| - 1]);
    }
  }

  /** Numerals are canonical: each is the `${n}` of the number it denotes. */
  lemma {:induction false} NumeralIsCanonical(s: string)
    requires Numeral(s)
    ensures s == NatToString(DigitsValue(s))
    decreases |s|
  {
    if |s| > 1 {
      var init := s[..|s| - 1];
      assert init[0] == s[0];
      LeadingDigitPositive(init);
      NumeralIsCanonical(init);
      var n := DigitsValue(s);
      assert n / 10 == DigitsValue(init) && n % 10 == s[|s| - 1] as int - '0' as int;
      assert s == init + [s[|s| - 1]];
    }
  }

  /** A numeral holds no space. */
  lemma NumeralHasNoSpace(s: string)
    requires Numeral(s)
    ensures ' ' !in s
  {
    assert forall i :: 0 <= i < |s| ==> s[i] != ' ';
  }

  /** "Nh" or "Nm" with a numeral N is N's canonical form and its unit. */
  lemma OneNumeralForm(s: string)
    requires |s| >= 2 && Numeral(s[..|s| - 1])
    ensures s == NatToString(DigitsValue(s[..|s| - 1])) + [s[|s| - 1]]
    ensures s[|s| - 1] != ' ' ==> ' ' !in s
  {
    var body := s[..|s| - 1];
    NumeralIsCanonical(body);
    NumeralHasNoSpace(body);
    assert s == body + [s[|s| - 1]];
  }

  /** A string cut around an "h " at `k` is the two outer pieces joined by "h ". */
  lemma Reassemble(body: string, k: nat)
    requires k + 2 <= |body| && body[k] == 'h' && body[k + 1] == ' '
    ensures body == body[..k] + "h " + body[k + 2..]
  {
  }

  /** "Hh Mm" as ParseDuration splits it is built from the canonical forms of H and M. */
  lemma TwoNumeralForm(s: string, k: nat)
    requires |s| >= 2 && s[|s| - 1] == 'm'
    requires k + 2 < |s| - 1 && s[k] == 'h' && s[k + 1] == ' '
    requires Numeral(s[..k]) && Numeral(s[k + 2..|s| - 1])
    ensures s == NatToString(DigitsValue(s[..k])) + "h " + NatToString(DigitsValue(s[k + 2..|s| - 1])) + "m"
    ensures ' ' in s
  {
    var body, h, m := s[..|s| - 1], s[..k], s[k + 2..|s| - 1];
    Reassemble(body, k);
    assert body[..k] == h && body[k + 2..] == m;
    assert s == body + "m";
    NumeralIsCanonical(h);
    NumeralIsCanonical(m);
    assert s[k + 1] == ' ';
  }

  /** Every text ParseDuration accepts is one of the three renderings of what it reads. */
  lemma ParsedForms(s: string, hours: nat, minutes: nat)
    requires ParseDuration(s) == Some((hours, minutes))
    ensures || (s == NatToString(hours) + "h" && minutes == 0)
            || (s == NatToString(minutes) + "m" && hours == 0 && ' ' !in s)
            || (s == NatToString(hours) + "h " + NatToString(minutes) + "m" && ' ' in s)
  {
    var body := s[..|s| - 1];
    if Numeral(body) {
      OneNumeralForm(s);
    } else {
      var k := IndexOfH(body);
      assert body[..k] == s[..k] && body[k + 2..] == s[k + 2..|s| - 1];
      TwoNumeralForm(s, k);
    }
  }

  /**
   * The contract of FormatDuration determines its text: any string that reads
   * back as the floored hours and minutes, ends in 'h' and holds a space under
   * the same conditions, is the one FormatDuration renders.
   */
  lemma FormatDurationUnique(ms: nat, s: string)
    requires ParseDuration(s) == Some((Hours(ms), Minutes(ms)))
    requires s[|s| - 1] == 'h' <==> Hours(ms) > 0 && Minutes(ms) == 0
    requires ' ' in s <==> Hours(ms) > 0 && Minutes(ms) > 0
    ensures s == FormatDuration(ms)
  {
    ParsedForms(s, Hours(ms), Minutes(ms));
  }

  /** Four sample renderings: no time, a whole hour, an hour and a half, under a minute. */
  lemma FormatExamples()
    ensures FormatDuration(0) == "0m"
    ensures FormatDuration(3600000) == "1h"
    ensures FormatDuration(5400000) == "1h 30m"
    ensures FormatDuration(59000) == "0m"
  {
    assert Hours(5400000) == 1 && Minutes(5400000) == 30;
    assert NatToString(30) == NatToString(3) + ['0'];
    assert NatToString(1) + "h " + NatToString(30) + "m" == "1h 30m";
  }
}

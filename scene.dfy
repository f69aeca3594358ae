/**
 * The scene dispatch of `turn_light_scene`: the operator's scene text is
 * first offered to `int()`; text it accepts is the scene id itself, any
 * other text is resolved by the bulb library's `get_id_from_scene_name`.
 */
module Scene {
  import opened Wrappers

  predicate IsDigit(c: char) {
    '0' <= c <= '9'
  }

  predicate IsDigits(s: string) {
    s != [] && forall i :: 0 <= i < |s| ==> IsDigit(s[i])
  }

  /** The value of a decimal numeral, leading zeros allowed. */
  function DigitsValue(s: string): nat
    requires forall i :: 0 <= i < |s| ==> IsDigit(s[i])
    decreases |s|
  {
    if s == [] then 0
    else
      assert IsDigit(s[|s| - 1]);
      10 * DigitsValue(s[..|s| - 1]) + (s[|s| - 1] as int - '0' as int)
  }

  /** `int(text)` for an optional sign followed by decimal digits; None where `int` raises ValueError. */
  function ParseInt(text: string): (r: Option<int>)
    ensures r.Some? ==> text != [] && IsDigit(text[|text| - 1])
    ensures r.Some? && r.value < 0 ==> text[0] == '-'
  {
    if text != [] && (text[0] == '-' || text[0] == '+') then
      if IsDigits(text[1..]) then
        var magnitude: int := DigitsValue(text[1..]);
        Some(if text[0] == '-' then -magnitude else magnitude)
      else None
    else if IsDigits(text) then Some(DigitsValue(text))
    else None
  }

  /** The decimal digits of `n`, most significant first. */
  function NatDigits(n: nat): string
    decreases n
  {
    (if n < 10 then "" else NatDigits(n / 10)) + [('0' as int + n % 10) as char]
  }

  /** `str(n)` */
  function Show(n: int): string {
    if n < 0 then "-" + NatDigits(-n) else NatDigits(n)
  }

  lemma {:induction false} NatDigitsValue(n: nat)
    ensures IsDigits(NatDigits(n))
    ensures DigitsValue(NatDigits(n)) == n
    decreases n
  {
    var d := NatDigits(n);
    if n >= 10 {
      NatDigitsValue(n / 10);
      assert d[..|d| - 1] == NatDigits(n / 10);
    }
  }

  /**
   * Every run of decimal digits is accepted, bare or behind a `+` or `-`
   * sign, and is worth its decimal value: `int("7")`, `int("+7")` and
   * `int("-7")` give 7, 7 and -7.
   */
  lemma DigitsAccepted(d: string)
    requires IsDigits(d)
    ensures ParseInt(d) == Some(DigitsValue(d) as int)
    ensures ParseInt("+" + d) == Some(DigitsValue(d) as int)
    ensures ParseInt("-" + d) == Some(-(DigitsValue(d) as int))
  {
    assert IsDigit(d[0]);
    assert ("+" + d)[1..] == d;
    assert ("-" + d)[1..] == d;
  }

  lemma {:induction false} ZerosValue(zeros: string)
    requires forall i :: 0 <= i < |zeros| ==> zeros[i] == '0'
    ensures DigitsValue(zeros) == 0
    decreases |zeros|
  {
    if zeros != [] {
      ZerosValue(zeros[..|zeros| - 1]);
    }
  }

  /** Leading zeros do not change the value: `int("007") == 7` and `int("-0") == 0`. */
  lemma {:induction false} LeadingZeros(zeros: string, d: string)
    requires forall i :: 0 <= i < |zeros| ==> zeros[i] == '0'
    requires forall i :: 0 <= i < |d| ==> IsDigit(d[i])
    ensures DigitsValue(zeros + d) == DigitsValue(d)
    decreases |d|
  {
    if d == [] {
      assert zeros + d == zeros;
      ZerosValue(zeros);
    } else {
      var s := zeros + d;
      assert s[..|s| - 1] == zeros + d[..|d| - 1];
      assert s[|s| - 1] == d[|d| - 1];
      LeadingZeros(zeros, d[..|d| - 1]);
    }
  }

  /** `int(str(n)) == n`: the printed form of every integer parses back to it. */
  lemma ParseShow(n: int)
    ensures ParseInt(Show(n)) == Some(n)
  {
    var m: nat := if n < 0 then -n else n;
    NatDigitsValue(m);
    DigitsAccepted(NatDigits(m));
  }

  /**
   * Text with a character that is neither a digit nor a leading sign is
   * not an integer.
   */
  lemma NotNumeric(text: string, i: nat)
    requires i < |text| && !IsDigit(text[i])
    requires i == 0 ==> text[0] != '-' && text[0] != '+'
    ensures ParseInt(text) == None
  {
    if text[0] == '-' || text[0] == '+' {
      assert text[1..][i - 1] == text[i];
    }
  }

  /** An empty scene entry, or a lone sign, has no digits and is not an integer. */
  lemma NoDigitsNotNumeric(text: string)
    requires text == "" || text == "+" || text == "-"
    ensures ParseInt(text) == None
  {
    if text != "" {
      assert text[1..] == "";
    }
  }

  /**
   * The scene id sent to the bulb, or None when `idFromName` (standing for
   * `get_id_from_scene_name`) does not know the name and raises.
   */
  function SceneIdFor(text: string, idFromName: string -> Option<int>): Option<int> {
    match ParseInt(text)
    case Some(id) => Some(id)
    case None => idFromName(text)
  }

  /** Numeric text is used as the id whatever the name lookup would say. */
  lemma NumericTextBypassesLookup(text: string, idFromName: string -> Option<int>, other: string -> Option<int>)
    requires ParseInt(text).Some?
    ensures SceneIdFor(text, idFromName) == SceneIdFor(text, other) == ParseInt(text)
  {
  }

  /** The text "7" selects scene 7, as the number 7 would. */
  lemma PrintedIdSelectsThatId(id: int, idFromName: string -> Option<int>)
    ensures SceneIdFor(Show(id), idFromName) == Some(id)
  {
    ParseShow(id);
  }

  /**
   * Every text that `ParseInt` rejects, a scene name such as "Daylight" as
   * well as the empty text or a lone sign, goes to the name lookup, whose
   * answer is the id sent.
   */
  lemma NameGoesToLookup(text: string, idFromName: string -> Option<int>)
    requires ParseInt(text).None?
    ensures SceneIdFor(text, idFromName) == idFromName(text)
  {
  }
}

/** `getAddressDisplay`: the delivery address line with its stop-count suffix. */
module Address {

  const DefaultAddress: string := "Current Location"

  predicate IsDigit(c: char) {
    '0' <= c <= '9'
  }

  predicate AllDigits(s: string) {
    forall i :: 0 <= i < |s| ==> IsDigit(s[i])
  }

  function DigitChar(d: nat): (c: char)
    requires d < 10
    ensures IsDigit(c) && c as int - '0' as int == d
  {
    ('0' as int + d) as char
  }

  /** The decimal text of a count, as a template literal renders a non-negative integer. */
  function NatToString(n: nat): string
    decreases n
  {
    if n < 10 then [DigitChar(n)] else NatToString(n / 10) + [DigitChar(n % 10)]
  }

  /** The value of a string of decimal digits (an independent reading of `NatToString`). */
  function DigitsValue(s: string): nat
    requires AllDigits(s)
  {
    if s == [] then 0
    else DigitsValue(s[..|s| - 1]) * 10 + (s[|s| - 1] as int - '0' as int)
  }

  /**
   * `NatToString` writes a non-empty string of digits with no leading zero
   * (except for 0 itself) whose decimal value is the count again.
   */
  lemma {:induction false} NatToStringRoundTrip(n: nat)
    ensures |NatToString(n)| >= 1 && AllDigits(NatToString(n))
    ensures DigitsValue(NatToString(n)) == n
    ensures NatToString(n)[0] == '0' ==> n == 0
    decreases n
  {
    if n >= 10 {
      var s := NatToString(n / 10);
      NatToStringRoundTrip(n / 10);
      var t := s + [DigitChar(n % 10)];
      assert t[..|t| - 1] == s;
      assert t[0] == s[0];
    }
  }

  /** Length-independent injectivity of the decimal text. */
  lemma NatToStringInjective(m: nat, n: nat)
    requires NatToString(m) == NatToString(n)
    ensures m == n
  {
    NatToStringRoundTrip(m);
    NatToStringRoundTrip(n);
  }

  /** `deliveryLocation || 'Current Location'`: the empty location falls back to the default. */
  function MainAddress(location: string): (r: string)
    ensures location != "" ==> r == location
    ensures location == "" ==> r == DefaultAddress
    ensures r != ""
  {
    if location != "" then location else DefaultAddress
  }

  /** The stop-count suffix: nothing for no stops, then ` +N stop`, pluralised above one. */
  function StopsText(count: nat): (r: string)
    ensures count == 0 <==> r == ""
    ensures count == 1 ==> r == " +1 stop"
    ensures count > 1 ==> r == " +" + NatToString(count) + " stops"
  {
    if count > 0 then " +" + NatToString(count) + " stop" + (if count > 1 then "s" else "") else ""
  }

  /** The address line: the main address followed by the stop suffix. */
  function AddressDisplay(location: string, count: nat): (r: string)
    ensures r == MainAddress(location) + StopsText(count)
    ensures count == 0 ==> r == MainAddress(location)
  {
    MainAddress(location) + StopsText(count)
  }

  /** The number of leading decimal digits of `s`. */
  function LeadingDigits(s: string): nat
    ensures LeadingDigits(s) <= |s|
  {
    if s == [] || !IsDigit(s[0]) then 0 else 1 + LeadingDigits(s[1..])
  }

  /** Digits followed by a space: the digits are exactly the leading ones. */
  lemma {:induction false} LeadingDigitsBeforeSpace(d: string, x: string)
    requires AllDigits(d)
    ensures LeadingDigits(d + " " + x) == |d|
    decreases |d|
  {
    if d == [] {
      assert (d + " " + x)[0] == ' ';
    } else {
      assert (d + " " + x)[1..] == d[1..] + " " + x;
      LeadingDigitsBeforeSpace(d[1..], x);
    }
  }

  /** If two digit strings each continue with a space, the texts up to the space agree. */
  lemma DigitsThenSpace(d: string, e: string, x: string, y: string)
    requires AllDigits(d) && AllDigits(e)
    requires d + " " + x == e + " " + y
    ensures d == e
  {
    LeadingDigitsBeforeSpace(d, x);
    LeadingDigitsBeforeSpace(e, y);
    assert d == (d + " " + x)[..|d|];
    assert e == (e + " " + y)[..|e|];
  }

  /** Different stop counts give different suffixes: the count can be read back from the text. */
  lemma StopsTextInjective(m: nat, n: nat)
    requires StopsText(m) == StopsText(n)
    ensures m == n
  {
    if m > 0 && n > 0 {
      var dm, dn := NatToString(m), NatToString(n);
      NatToStringRoundTrip(m);
      NatToStringRoundTrip(n);
      var pm := if m > 1 then "s" else "";
      var pn := if n > 1 then "s" else "";
      assert StopsText(m) == " +" + (dm + " " + ("stop" + pm));
      assert StopsText(n) == " +" + (dn + " " + ("stop" + pn));
      assert dm + " " + ("stop" + pm) == StopsText(m)[2..];
      assert dn + " " + ("stop" + pn) == StopsText(n)[2..];
      DigitsThenSpace(dm, dn, "stop" + pm, "stop" + pn);
      NatToStringInjective(m, n);
    }
  }

  /** For one location, the address line determines the number of stops. */
  lemma AddressDisplayInjective(location: string, m: nat, n: nat)
    requires AddressDisplay(location, m) == AddressDisplay(location, n)
    ensures m == n
  {
    var base := MainAddress(location);
    assert StopsText(m) == AddressDisplay(location, m)[|base|..];
    assert StopsText(n) == AddressDisplay(location, n)[|base|..];
    StopsTextInjective(m, n);
  }

  /** Examples: the default address, and a location with two stops. */
  lemma AddressDisplayExamples()
    ensures AddressDisplay("", 0) == "Current Location"
    ensures AddressDisplay("", 1) == "Current Location +1 stop"
    ensures AddressDisplay("Home", 2) == "Home +2 stops"
    ensures AddressDisplay("Home", 12) == "Home +12 stops"
  {
    assert NatToString(12) == NatToString(1) + [DigitChar(2)];
  }
}

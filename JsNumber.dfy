/** `parseInt(s, 10)` and `Number.prototype.toString` on integral Numbers,
    the conversions the client applies to response bodies and to numeric
    request fields. */
module JsNumber {
  import opened Wrappers
  import opened JsString

  predicate IsDigit(c: char) {
    '0' <= c <= '9'
  }

  predicate AllDigits(s: string) {
    forall k :: 0 <= k < |s| ==> IsDigit(s[k])
  }

  function DigitValue(c: char): (d: nat)
    requires IsDigit(c)
    ensures d < 10
  {
    c as int - '0' as int
  }

  function DigitChar(d: nat): (c: char)
    requires d < 10
    ensures IsDigit(c) && DigitValue(c) == d
  {
    ('0' as int + d) as char
  }

  /** The maximal run of decimal digits at the start of `s`. */
  function LeadingDigits(s: string): (r: string)
    ensures |r| <= |s|
    ensures forall k :: 0 <= k < |r| ==> r[k] == s[k] && IsDigit(s[k])
    ensures |r| == |s| || !IsDigit(s[|r|])
    decreases |s|
  {
    if s != [] && IsDigit(s[0]) then [s[0]] + LeadingDigits(s[1..]) else []
  }

  /** The value of a digit string read most significant digit first. */
  function DecValue(ds: string): (v: nat)
    requires AllDigits(ds)
    decreases |ds|
  {
    if ds == [] then 0 else DecValue(ds[..|ds| - 1]) * 10 + DigitValue(ds[|ds| - 1])
  }

  /** `s` with one leading `+` or `-` removed, as `parseInt` does. */
  function Unsigned(t: string): (r: string)
    ensures r == t || (t != [] && (t[0] == '+' || t[0] == '-') && r == t[1..])
  {
    if t != [] && (t[0] == '+' || t[0] == '-') then t[1..] else t
  }

  /** `parseInt` on a string whose leading whitespace is already skipped. */
  function ParseSigned(t: string): (r: Option<int>)
    ensures r.None? <==> LeadingDigits(Unsigned(t)) == []
    ensures r.Some? && r.value < 0 ==> t[0] == '-'
  {
    var ds := LeadingDigits(Unsigned(t));
    var magnitude: int := if ds == [] then 0 else DecValue(ds);
    if ds == [] then None
    else if t[0] == '-' then Some(-magnitude)
    else Some(magnitude)
  }

  /** `parseInt(s, 10)`: skip leading whitespace, accept one sign, read the
      maximal run of decimal digits; `None` is `NaN` (no digit at all).
      Everything after the digits is ignored. */
  function ParseIntDec(s: string): (r: Option<int>)
    ensures r.None? <==> LeadingDigits(Unsigned(TrimStart(s))) == []
    ensures r.Some? && r.value < 0 ==> TrimStart(s)[0] == '-'
  {
    ParseSigned(TrimStart(s))
  }

  /** The shortest decimal digits of `n`. */
  function NatToDec(n: nat): (r: string)
    ensures |r| >= 1 && AllDigits(r)
    ensures r[0] == '0' ==> n == 0
    decreases n
  {
    if n < 10 then [DigitChar(n)] else NatToDec(n / 10) + [DigitChar(n % 10)]
  }

  /** `String(n)` for an integral Number. */
  function NumberToString(n: int): (r: string)
    ensures r != []
    ensures r[0] == '-' <==> n < 0
    ensures AllDigits(if n < 0 then r[1..] else r)
  {
    if n < 0 then "-" + NatToDec(-n) else NatToDec(n)
  }

  lemma {:induction false} DecValueOfNatToDec(n: nat)
    ensures DecValue(NatToDec(n)) == n
    decreases n
  {
    var r := NatToDec(n);
    if n >= 10 {
      DecValueOfNatToDec(n / 10);
      assert r[..|r| - 1] == NatToDec(n / 10);
    }
  }

  /** The digits of a run followed by a non-digit are read up to the
      non-digit. */
  lemma {:induction false} LeadingDigitsOfRun(ds: string, tail: string)
    requires AllDigits(ds)
    requires tail == [] || !IsDigit(tail[0])
    ensures LeadingDigits(ds + tail) == ds
    decreases |ds|
  {
    if ds == [] {
      assert ds + tail == tail;
    } else {
      assert (ds + tail)[1..] == ds[1..] + tail;
      LeadingDigitsOfRun(ds[1..], tail);
      assert [ds[0]] + ds[1..] == ds;
    }
  }

  /** A digit run followed by anything that does not start with a digit is
      read as the run's value. */
  lemma ParseSignedDigits(ds: string, tail: string)
    requires ds != [] && AllDigits(ds)
    requires tail == [] || !IsDigit(tail[0])
    ensures ParseSigned(ds + tail) == Some(DecValue(ds) as int)
  {
    assert (ds + tail)[0] == ds[0];
    LeadingDigitsOfRun(ds, tail);
  }

  /** The same run after a minus sign is read as the negated value. */
  lemma ParseSignedNegative(ds: string, tail: string)
    requires ds != [] && AllDigits(ds)
    requires tail == [] || !IsDigit(tail[0])
    ensures ParseSigned(['-'] + (ds + tail)) == Some(-(DecValue(ds) as int))
  {
    var u := ds + tail;
    var s := ['-'] + u;
    assert Unsigned(s) == u by {
      assert s[0] == '-' && s[1..] == u;
    }
    LeadingDigitsOfRun(ds, tail);
    assert LeadingDigits(Unsigned(s)) == ds;
  }

  /** Without leading whitespace `parseInt` starts at the sign. */
  lemma ParseIntNoLeadingSpace(s: string)
    requires s == [] || !IsWhitespace(s[0])
    ensures ParseIntDec(s) == ParseSigned(s)
  {
    TrimStartNoOp(s);
  }

  /** `parseInt(String(n) + tail, 10) == n` for every integer `n` and every
      `tail` that does not continue the digits. */
  lemma ParseIntRoundTrip(n: int, tail: string)
    requires tail == [] || !IsDigit(tail[0])
    ensures ParseIntDec(NumberToString(n) + tail) == Some(n)
  {
    if n < 0 {
      RoundTripNegative(n, tail);
    } else {
      RoundTripNatural(n, tail);
    }
  }

  lemma RoundTripNegative(n: int, tail: string)
    requires n < 0
    requires tail == [] || !IsDigit(tail[0])
    ensures ParseIntDec(NumberToString(n) + tail) == Some(n)
  {
    var ds := NatToDec(-n);
    var s := ['-'] + (ds + tail);
    assert NumberToString(n) + tail == s;
    ParseIntNoLeadingSpace(s);
    NegativeRead(n, tail);
  }

  lemma NegativeRead(n: int, tail: string)
    requires n < 0
    requires tail == [] || !IsDigit(tail[0])
    ensures ParseSigned(['-'] + (NatToDec(-n) + tail)) == Some(n)
  {
    ParseSignedNegative(NatToDec(-n), tail);
    DecValueOfNatToDec(-n);
  }

  lemma RoundTripNatural(n: nat, tail: string)
    requires tail == [] || !IsDigit(tail[0])
    ensures ParseIntDec(NumberToString(n) + tail) == Some(n)
  {
    var ds := NatToDec(n);
    var s := ds + tail;
    assert NumberToString(n) + tail == s;
    assert s[0] == ds[0];
    ParseIntNoLeadingSpace(s);
    ParseSignedDigits(ds, tail);
    DecValueOfNatToDec(n);
  }

  /** `parseInt` reads back the digits of a natural number. */
  lemma ParseIntNat(n: nat)
    ensures ParseIntDec(NatToDec(n)) == Some(n)
  {
    RoundTripNatural(n, []);
    assert NumberToString(n) + [] == NatToDec(n);
  }

  /** Leading whitespace never changes what `parseInt` reads. */
  lemma ParseIntSkipsWhitespace(w: string, s: string)
    requires AllWhitespace(w)
    ensures ParseIntDec(w + s) == ParseIntDec(s)
  {
    var t := TrimStart(s);
    assert s == s[..|s| - |t|] + t;
    assert w + s == (w + s[..|s| - |t|]) + t;
    TrimStartSkips(w + s[..|s| - |t|], t);
  }

  /** `parseInt` gives `NaN` exactly when no digit follows the leading
      whitespace and the optional sign. */
  lemma ParseIntNaN(s: string)
    ensures var t := Unsigned(TrimStart(s));
      ParseIntDec(s).None? <==> (t == [] || !IsDigit(t[0]))
  {
    var t := Unsigned(TrimStart(s));
    var ds := LeadingDigits(t);
    if ds != [] {
      assert ds[0] == t[0];
    }
  }
}

/** The image-path test of the request handler: `sscanf(rqpath, "/%d,%d", &w, &h) == 2`.
    The format is matched against a prefix of the path only; characters after the
    second number are never examined. */
module Scan {
  import opened CTypes
  import opened Decimal

  /** `isspace` in the "C" locale. */
  predicate IsSpace(c: char) {
    c == ' ' || c == '\t' || c == '\n' || c == '\U{B}' || c == '\U{C}' || c == '\r'
  }

  /** Number of leading white-space characters, which `%d` skips. */
  function SpaceRun(s: string): (n: nat)
    ensures n <= |s|
    ensures forall i :: 0 <= i < n ==> IsSpace(s[i])
    ensures n == |s| || !IsSpace(s[n])
  {
    if s != [] && IsSpace(s[0]) then 1 + SpaceRun(s[1..]) else 0
  }

  /** Number of leading decimal digits. */
  function DigitRun(s: string): (n: nat)
    ensures n <= |s|
    ensures AllDigits(s[..n])
    ensures n == |s| || !IsDigit(s[n])
  {
    if s != [] && IsDigit(s[0]) then
      assert s[..1 + DigitRun(s[1..])] == [s[0]] + s[1..][..DigitRun(s[1..])];
      1 + DigitRun(s[1..])
    else 0
  }

  /** Digits read greedily: their value and their count, or None when there is none. */
  function ScanDigits(u: string): (r: Option<(nat, nat)>)
    ensures r.Some? ==> 0 < r.value.1 <= |u| && AllDigits(u[..r.value.1])
    ensures r.Some? ==> r.value.1 == |u| || !IsDigit(u[r.value.1])
    ensures r.None? <==> u == [] || !IsDigit(u[0])
    ensures r.Some? ==> r.value.0 == DigitsValue(u[..r.value.1])
  {
    var n := DigitRun(u);
    if n == 0 then None else Some((DigitsValue(u[..n]), n))
  }

  /** The length of the optional sign in front of the digits of a `%d` conversion. */
  function SignLength(t: string): nat {
    if t != [] && (t[0] == '+' || t[0] == '-') then 1 else 0
  }

  /** No sign, "+" or "-". */
  predicate IsSign(sign: string) {
    |sign| <= 1 && (sign != [] ==> sign[0] == '+' || sign[0] == '-')
  }

  /** The value of digits after an optional sign. */
  function SignedValue(sign: string, ds: string): int
    requires AllDigits(ds)
  {
    if sign != [] && sign[0] == '-' then -(DigitsValue(ds) as int) else DigitsValue(ds)
  }

  /** The text one `%d` conversion accepts: white space, an optional sign, digits. */
  predicate Numeral(ws: string, sign: string, ds: string) {
    (forall i :: 0 <= i < |ws| ==> IsSpace(ws[i])) && IsSign(sign) && ds != [] && AllDigits(ds)
  }

  /** A conversion stops here: nothing follows, or a character that is not a digit. */
  predicate Stops(rest: string) {
    rest == [] || !IsDigit(rest[0])
  }

  /** `t` is an optional sign followed by at least one digit, and nothing else. */
  predicate IsSignedDigits(t: string) {
    SignLength(t) < |t| && AllDigits(t[SignLength(t)..])
  }

  /** `n` is exactly one numeral: white space, an optional sign, then digits to its end. */
  predicate IsNumeral(n: string)
    decreases |n|
  {
    if n != [] && IsSpace(n[0]) then IsNumeral(n[1..]) else IsSignedDigits(n)
  }

  /** The value `%d` converts a numeral to. */
  function NumeralValue(n: string): int
    requires IsNumeral(n)
    decreases |n|
  {
    if n != [] && IsSpace(n[0]) then NumeralValue(n[1..])
    else SignedValue(n[..SignLength(n)], n[SignLength(n)..])
  }

  /** An optional sign followed by digits. */
  function ScanSigned(t: string): (r: Option<(int, nat)>)
    ensures r.Some? ==> 0 < r.value.1 <= |t| && IsDigit(t[r.value.1 - 1])
    ensures r.Some? ==> r.value.1 == |t| || !IsDigit(t[r.value.1])
  {
    var signLen := SignLength(t);
    match ScanDigits(t[signLen..])
    case None => None
    case Some((magnitude, n)) =>
      assert t[signLen..][..n][n - 1] == t[signLen + n - 1];
      var value: int := if signLen == 1 && t[0] == '-' then -(magnitude as int) else magnitude;
      Some((value, signLen + n))
  }

  /** A conversion result after `extra` more characters have been consumed in front. */
  function Consumed(r: Option<(int, nat)>, extra: nat): Option<(int, nat)> {
    if r.Some? then Some((r.value.0, extra + r.value.1)) else None
  }

  /** One `%d` conversion: white space, an optional sign, then at least one digit,
      read greedily. The result is the value and the number of characters consumed,
      or None for a matching failure. */
  function ScanInt(s: string): (r: Option<(int, nat)>)
    ensures r.Some? ==> 0 < r.value.1 <= |s| && IsDigit(s[r.value.1 - 1])
    ensures r.Some? ==> r.value.1 == |s| || !IsDigit(s[r.value.1])
  {
    var k := SpaceRun(s);
    match ScanSigned(s[k..])
    case None => None
    case Some((value, n)) => Some((value, k + n))
  }

  /** `sscanf(path, "/%d,%d", &width, &height) == 2`: Some((width, height)) exactly when
      both conversions succeed. */
  function ScanImagePath(path: string): Option<(int, int)>
  {
    if path == [] || path[0] != '/' then None else ScanSize(path[1..])
  }

  /** The part of the format after the slash: "%d,%d". */
  function ScanSize(s: string): Option<(int, int)>
  {
    match ScanInt(s)
    case None => None
    case Some((width, used)) =>
      match ScanCommaInt(s[used..])
      case None => None
      case Some(height) => Some((width, height))
  }

  /** The part of the format after the first number: ",%d". */
  function ScanCommaInt(s: string): Option<int>
  {
    if s == [] || s[0] != ',' then None
    else
      match ScanInt(s[1..])
      case None => None
      case Some((height, _)) => Some(height)
  }

  lemma {:induction false} SpaceRunOfPrefix(ws: string, t: string)
    requires forall i :: 0 <= i < |ws| ==> IsSpace(ws[i])
    requires t == [] || !IsSpace(t[0])
    ensures SpaceRun(ws + t) == |ws|
    decreases |ws|
  {
    if ws != [] {
      assert (ws + t)[1..] == ws[1..] + t;
      SpaceRunOfPrefix(ws[1..], t);
    }
  }

  lemma {:induction false} DigitRunOfPrefix(ds: string, t: string)
    requires AllDigits(ds)
    requires t == [] || !IsDigit(t[0])
    ensures DigitRun(ds + t) == |ds|
    decreases |ds|
  {
    if ds != [] {
      assert (ds + t)[1..] == ds[1..] + t;
      DigitRunOfPrefix(ds[1..], t);
    }
  }

  /** `%d` skips leading white space and then reads what follows it. */
  lemma ScanIntAfterSpaces(ws: string, t: string)
    requires forall i :: 0 <= i < |ws| ==> IsSpace(ws[i])
    requires t == [] || !IsSpace(t[0])
    ensures ScanInt(ws + t) == Consumed(ScanSigned(t), |ws|)
  {
    SpaceRunOfPrefix(ws, t);
    assert (ws + t)[|ws|..] == t;
  }

  // ---------------------------------------------------------------------------------
  // Every numeral `%d` accepts, leading zeros and a '+' included, and nothing else

  /** Any non-empty run of digits that is not followed by a digit is read whole. */
  lemma ScanDigitsOf(ds: string, rest: string)
    requires ds != [] && AllDigits(ds) && Stops(rest)
    ensures ScanDigits(ds + rest) == Some((DigitsValue(ds), |ds|))
  {
    DigitRunOfPrefix(ds, rest);
    assert (ds + rest)[..|ds|] == ds;
  }

  /** An optional sign and digits, not followed by a digit, read as the signed value. */
  lemma ScanSignedOf(sign: string, ds: string, rest: string)
    requires Numeral([], sign, ds) && Stops(rest)
    ensures ScanSigned(sign + ds + rest) == Some((SignedValue(sign, ds), |sign| + |ds|))
  {
    var t := sign + ds + rest;
    if sign == [] {
      assert t == ds + rest && t[0] == ds[0];
    } else {
      assert t[0] == sign[0];
    }
    assert SignLength(t) == |sign|;
    assert t[|sign|..] == ds + rest;
    ScanDigitsOf(ds, rest);
  }

  /** A sign or a digit starts the text after the white space. */
  lemma NumeralStart(sign: string, ds: string, rest: string)
    requires Numeral([], sign, ds)
    ensures var t := sign + ds + rest; t != [] && !IsSpace(t[0])
  {
    if sign == [] {
      assert sign + ds + rest == ds + rest;
    } else {
      assert (sign + ds + rest)[0] == sign[0];
    }
  }

  /** One `%d` reads white space, an optional sign and digits, when no digit follows. */
  lemma ScanNumeral(ws: string, sign: string, ds: string, rest: string)
    requires Numeral(ws, sign, ds) && Stops(rest)
    ensures ScanInt(ws + (sign + ds + rest))
         == Some((SignedValue(sign, ds), |ws| + |sign| + |ds|))
  {
    var t := sign + ds + rest;
    NumeralStart(sign, ds, rest);
    assert ScanSigned(t) == Some((SignedValue(sign, ds), |sign| + |ds|)) by {
      ScanSignedOf(sign, ds, rest);
    }
    ScanIntAfterSpaces(ws, t);
  }

  /** White space, an optional sign and digits make a numeral of that signed value. */
  lemma {:induction false} NumeralOf(ws: string, sign: string, ds: string)
    requires Numeral(ws, sign, ds)
    ensures IsNumeral(ws + sign + ds) && NumeralValue(ws + sign + ds) == SignedValue(sign, ds)
    decreases |ws|
  {
    var n := ws + sign + ds;
    if ws == [] {
      assert n == sign + ds;
      NumeralStart(sign, ds, []);
      assert sign + ds + [] == n;
      if sign == [] {
        assert n == ds && n[0] == ds[0];
      } else {
        assert n[0] == sign[0];
      }
      assert n[..|sign|] == sign && n[|sign|..] == ds;
    } else {
      assert n[0] == ws[0];
      assert n[1..] == ws[1..] + sign + ds;
      NumeralOf(ws[1..], sign, ds);
    }
  }

  /** Every numeral is white space, an optional sign and digits. */
  lemma {:induction false} NumeralParts(n: string) returns (ws: string, sign: string, ds: string)
    requires IsNumeral(n)
    ensures Numeral(ws, sign, ds) && n == ws + sign + ds
    ensures NumeralValue(n) == SignedValue(sign, ds)
    decreases |n|
  {
    if n != [] && IsSpace(n[0]) {
      var w;
      w, sign, ds := NumeralParts(n[1..]);
      ws := [n[0]] + w;
      assert n == [n[0]] + n[1..];
      assert forall i :: 0 < i < |ws| ==> ws[i] == w[i - 1];
    } else {
      ws, sign, ds := [], n[..SignLength(n)], n[SignLength(n)..];
      assert n == ws + sign + ds;
    }
  }

  /** `%d` skips one leading white-space character. */
  lemma ScanIntSkipsSpace(s: string)
    requires s != [] && IsSpace(s[0])
    ensures ScanInt(s) == Consumed(ScanInt(s[1..]), 1)
  {
    var u := s[1..];
    var k := SpaceRun(u);
    var t := u[k..];
    ScanIntSplit(u, k, t);
    ScanIntSplit(s, 1 + k, t);
    ConsumedTwice(ScanSigned(t), k, 1);
  }

  /** `%d` on a text whose first `k` characters are white space and whose rest `t`
      does not start with white space is the signed conversion of `t`. */
  lemma ScanIntSplit(x: string, k: nat, t: string)
    requires k <= |x| && x[k..] == t && (forall i :: 0 <= i < k ==> IsSpace(x[i]))
    requires t == [] || !IsSpace(t[0])
    ensures ScanInt(x) == Consumed(ScanSigned(t), k)
  {
    assert x == x[..k] + t;
    ScanIntAfterSpaces(x[..k], t);
  }

  /** Consuming `a` and then `b` more characters is consuming `b + a`. */
  lemma ConsumedTwice(m: Option<(int, nat)>, a: nat, b: nat)
    ensures Consumed(Consumed(m, a), b) == Consumed(m, b + a)
  {
  }

  /** A sign and digits, read when no digit follows them. */
  lemma ScanSignedDigitsOf(t: string, rest: string)
    requires IsSignedDigits(t) && Stops(rest)
    ensures ScanSigned(t + rest) == Some((SignedValue(t[..SignLength(t)], t[SignLength(t)..]), |t|))
  {
    var sl := SignLength(t);
    assert (t + rest)[0] == t[0];
    assert (t + rest)[sl..] == t[sl..] + rest;
    ScanDigitsOf(t[sl..], rest);
  }

  /** One `%d` reads every numeral that no digit follows, consuming exactly the numeral. */
  lemma {:induction false} ScanIntOf(n: string, rest: string)
    requires IsNumeral(n) && Stops(rest)
    ensures ScanInt(n + rest) == Some((NumeralValue(n), |n|))
    decreases |n|
  {
    assert (n + rest)[0] == n[0];
    if n != [] && IsSpace(n[0]) {
      assert (n + rest)[1..] == n[1..] + rest;
      ScanIntOf(n[1..], rest);
      ScanIntSkipsSpace(n + rest);
    } else {
      assert (n + rest)[0..] == n + rest;
      ScanSignedDigitsOf(n, rest);
    }
  }

  /** Conversely, a successful `%d` consumed exactly a numeral, which no digit follows,
      and converted it to that numeral's value. */
  lemma {:induction false} ScanIntShape(s: string) returns (n: string, rest: string)
    requires ScanInt(s).Some?
    ensures IsNumeral(n) && Stops(rest) && s == n + rest
    ensures ScanInt(s) == Some((NumeralValue(n), |n|))
    decreases |s|
  {
    if IsSpace(s[0]) {
      ScanIntSkipsSpace(s);
      var m;
      m, rest := ScanIntShape(s[1..]);
      n := [s[0]] + m;
      assert n[1..] == m;
      SplitAfterFirst(s, m, rest);
    } else {
      n, rest := SignedDigitsShape(s);
    }
  }

  /** Splitting a text after its first character. */
  lemma SplitAfterFirst(s: string, m: string, rest: string)
    requires s != [] && s[1..] == m + rest
    ensures s == [s[0]] + m + rest
  {
    assert s == [s[0]] + s[1..];
  }

  /** `ScanIntShape` when no white space comes first. */
  lemma SignedDigitsShape(s: string) returns (n: string, rest: string)
    requires ScanInt(s).Some? && !IsSpace(s[0])
    ensures IsSignedDigits(n) && n[0] == s[0] && Stops(rest) && s == n + rest
    ensures ScanInt(s) == Some((SignedValue(n[..SignLength(n)], n[SignLength(n)..]), |n|))
  {
    assert s[0..] == s;
    var sl := SignLength(s);
    var m := ScanDigits(s[sl..]).value.1;
    n, rest := s[..sl + m], s[sl + m..];
    assert n[0] == s[0];
    assert n[sl..] == s[sl..][..m];
  }

  /** ",%d" reads the value of any numeral after the comma. */
  lemma ScanCommaIntOf(n: string, rest: string)
    requires IsNumeral(n) && Stops(rest)
    ensures ScanCommaInt("," + n + rest) == Some(NumeralValue(n))
  {
    LeadChar("," + n + rest, ',', n, rest);
    ScanIntOf(n, rest);
  }

  /** "%d,%d" reads the values of two numerals separated by a comma. */
  lemma ScanSizeOf(n1: string, n2: string, rest: string)
    requires IsNumeral(n1) && IsNumeral(n2) && Stops(rest)
    ensures ScanSize(n1 + ("," + n2 + rest)) == Some((NumeralValue(n1), NumeralValue(n2)))
  {
    var tail := "," + n2 + rest;
    ScanIntOf(n1, tail);
    DropPrefix(n1 + tail, n1, tail);
    ScanCommaIntOf(n2, rest);
  }

  /** `sscanf(path, "/%d,%d")` reads every path made of '/', a numeral, ',', a numeral
      and anything that does not continue the second numeral. */
  lemma ImagePathOf(n1: string, n2: string, rest: string)
    requires IsNumeral(n1) && IsNumeral(n2) && Stops(rest)
    ensures ScanImagePath("/" + n1 + "," + n2 + rest) == Some((NumeralValue(n1), NumeralValue(n2)))
  {
    PathPieces("/" + n1 + "," + n2 + rest, n1, n2, rest);
    ScanSizeOf(n1, n2, rest);
  }

  /** Conversely, every path `sscanf(path, "/%d,%d")` accepts has that form, and the two
      values are the values of its numerals. */
  lemma ImagePathShape(path: string) returns (n1: string, n2: string, rest: string)
    requires ScanImagePath(path).Some?
    ensures IsNumeral(n1) && IsNumeral(n2) && Stops(rest)
    ensures path == "/" + n1 + "," + n2 + rest
    ensures ScanImagePath(path) == Some((NumeralValue(n1), NumeralValue(n2)))
  {
    var s := path[1..];
    var r1: string;
    n1, r1 := ScanIntShape(s);
    DropPrefix(s, n1, r1);
    n2, rest := ScanIntShape(r1[1..]);
    JoinPath(path, n1, r1, n2, rest);
  }

  // The sequence steps of the lemmas above, kept apart from the scanning functions.

  lemma DropPrefix(s: string, a: string, b: string)
    requires s == a + b
    ensures s[|a|..] == b
  {
  }

  lemma LeadChar(s: string, c: char, a: string, b: string)
    requires s == [c] + a + b
    ensures s != [] && s[0] == c && s[1..] == a + b
  {
  }

  lemma PathPieces(p: string, n1: string, n2: string, rest: string)
    requires p == "/" + n1 + "," + n2 + rest
    ensures p != [] && p[0] == '/' && p[1..] == n1 + ("," + n2 + rest)
  {
  }

  lemma JoinPath(path: string, n1: string, r1: string, n2: string, rest: string)
    requires path != [] && path[0] == '/' && path[1..] == n1 + r1
    requires r1 != [] && r1[0] == ',' && r1[1..] == n2 + rest
    ensures path == "/" + n1 + "," + n2 + rest
  {
    assert path == [path[0]] + path[1..];
    assert r1 == [r1[0]] + r1[1..];
  }

  // ---------------------------------------------------------------------------------
  // Numbers printed in decimal are numerals

  /** The decimal text of an integer is a numeral of that value. */
  lemma PrintedNumeral(v: int)
    ensures IsNumeral(IntToDecimal(v)) && NumeralValue(IntToDecimal(v)) == v
  {
    if v < 0 {
      PrintedNumeralOf(v, "-", NatToDecimal(-v));
    } else {
      PrintedNumeralOf(v, [], NatToDecimal(v));
    }
  }

  lemma PrintedNumeralOf(v: int, sign: string, ds: string)
    requires if v < 0 then sign == "-" && ds == NatToDecimal(-v) else sign == [] && ds == NatToDecimal(v)
    ensures IsNumeral(IntToDecimal(v)) && NumeralValue(IntToDecimal(v)) == v
  {
    NatToDecimalRoundTrip(if v < 0 then -v else v);
    assert IntToDecimal(v) == [] + sign + ds;
    assert IsSign(sign);
    NumeralOf([], sign, ds);
  }

  /** The path "/<w>,<h>" followed by anything but a digit is read as the pair (w, h). */
  lemma ImagePathRoundTrip(width: int, height: int, rest: string)
    requires Stops(rest)
    ensures ScanImagePath("/" + IntToDecimal(width) + "," + IntToDecimal(height) + rest)
         == Some((width, height))
  {
    PrintedNumeral(width);
    PrintedNumeral(height);
    ImagePathOf(IntToDecimal(width), IntToDecimal(height), rest);
  }

  /** Leading zeros, a '+' and white space before a number are accepted: `/007, +5`
      asks for a 7 by 5 image. */
  lemma LooseNumeralsAreRead()
    ensures ScanImagePath("/007, +5") == Some((7, 5))
  {
    var n1, n2 := "007", " +5";
    assert DigitsValue("0") == 0 by { assert "0"[..0] == []; }
    assert DigitsValue("00") == 0 by { assert "00"[..1] == "0"; }
    assert DigitsValue(n1) == 7 by { assert n1[..2] == "00"; }
    assert IsNumeral(n1) && NumeralValue(n1) == 7 by {
      assert n1[..0] == [] && n1[0..] == n1;
    }
    assert IsNumeral(n2) && NumeralValue(n2) == 5 by {
      assert n2[1..] == "+5" && "+5"[..1] == "+" && "+5"[1..] == "5";
    }
    assert "/007, +5" == "/" + n1 + "," + n2 + [];
    ImagePathOf(n1, n2, []);
  }

  /** A malformed pair is not an image path: it is served as a file. */
  lemma MalformedPairIsNotImage()
    ensures ScanImagePath("/12x,5") == None
  {
    var s := "12x,5";
    assert "/12x,5"[1..] == s;
    assert SpaceRun(s) == 0;
    assert s[0..] == s;
    assert DigitRun(s) == 2;
    assert ScanInt(s).Some? && ScanInt(s).value.1 == 2;
    assert s[2..][0] == 'x';
  }

  lemma FileNamesAreNotImages()
    ensures ScanImagePath("/") == None
    ensures ScanImagePath("/index.html") == None
  {
    var s := "index.html";
    assert "/index.html"[1..] == s;
    assert SpaceRun(s) == 0;
    assert s[0..] == s;
    assert DigitRun(s) == 0;
    assert "/"[1..] == [];
  }
}

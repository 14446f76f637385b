/** Text conversions of `rational_adaptor`: assignment from a C string
    ("n" or "n/d") and `str()`. The backend's own integer conversions are
    parameters: `conv` reads an integer string (None when the backend rejects
    it), `toStr` prints one. */
module RationalText {
  import opened Gcds
  import opened RationalValues

  datatype Option<T> = None | Some(value: T)

  /** The characters the scanner takes into a numerator or denominator
      string: `x`, `X`, the signs, decimal digits, and the hex letters once an
      `x` or `X` has been seen. */
  predicate Accepted(c: char, hex: bool) {
    c == 'x' || c == 'X' || c == '-' || c == '+' || ('0' <= c <= '9')
    || (hex && 'a' <= c <= 'f') || (hex && 'A' <= c <= 'F')
  }

  predicate IsHexMarker(c: char) {
    c == 'x' || c == 'X'
  }

  predicate HexSeen(t: seq<char>) {
    'x' in t || 'X' in t
  }

  /** Where a scan stopped and whether it has seen a hex marker by then. */
  datatype Scanned = Scanned(end: nat, hex: bool)

  /** The length of the C string held in `s`: up to the first NUL. */
  function CLength(s: seq<char>): (len: nat)
    ensures len <= |s|
    ensures forall k :: 0 <= k < len ==> s[k] != '\0'
    ensures len < |s| ==> s[len] == '\0'
  {
    if |s| == 0 then 0
    else if s[0] == '\0' then 0
    else 1 + CLength(s[1..])
  }

  /** The character `*p` at position i: NUL past the end. */
  function CharAt(s: seq<char>, i: nat): char {
    if i < |s| then s[i] else '\0'
  }

  /** One scanning loop of the string assignment: take characters from
      position i while they are accepted, turning hex letters on at the first
      `x` or `X`. ScanSpec characterises the result. */
  function Scan(s: seq<char>, i: nat, hex: bool): (r: Scanned)
    requires i <= |s|
    ensures i <= r.end <= |s|
    ensures hex ==> r.hex
    decreases |s| - i
  {
    if i < |s| && s[i] != '\0' && Accepted(s[i], hex) then
      Scan(s, i + 1, hex || IsHexMarker(s[i]))
    else
      Scanned(i, hex)
  }

  /** The scan takes the longest run of characters each accepted with the hex
      letters switched on exactly when an `x` or `X` came before it; the flag
      it returns says whether the run holds one. */
  lemma {:induction false} ScanSpec(s: seq<char>, i: nat, hex: bool)
    requires i <= |s|
    ensures var r := Scan(s, i, hex);
      && (forall k :: i <= k < r.end ==> Accepted(s[k], hex || HexSeen(s[i..k])))
      && r.hex == (hex || HexSeen(s[i..r.end]))
      && (r.end == |s| || !Accepted(s[r.end], r.hex))
    decreases |s| - i
  {
    var r := Scan(s, i, hex);
    assert s[i..i] == [];
    if i < |s| && s[i] != '\0' && Accepted(s[i], hex) {
      ScanSpec(s, i + 1, hex || IsHexMarker(s[i]));
      HexSeenStep(s, i, r.end);
      forall k | i + 1 <= k < r.end
        ensures HexSeen(s[i..k]) == (IsHexMarker(s[i]) || HexSeen(s[i + 1..k]))
      {
        HexSeenStep(s, i, k);
      }
    }
  }

  /** One accepted character: the scan goes on from the next position. */
  lemma ScanStep(s: seq<char>, i: nat, hex: bool)
    requires i < |s| && s[i] != '\0' && Accepted(s[i], hex)
    ensures Scan(s, i, hex) == Scan(s, i + 1, hex || IsHexMarker(s[i]))
  {
  }

  /** A character that is not accepted, or the end, stops the scan. */
  lemma ScanStop(s: seq<char>, i: nat, hex: bool)
    requires i <= |s|
    requires !(i < |s| && s[i] != '\0' && Accepted(s[i], hex))
    ensures Scan(s, i, hex) == Scanned(i, hex)
  {
  }

  lemma HexSeenStep(s: seq<char>, i: nat, k: nat)
    requires i < k <= |s|
    ensures HexSeen(s[i..k]) == (IsHexMarker(s[i]) || HexSeen(s[i + 1..k]))
  {
    assert s[i..k] == [s[i]] + s[i + 1..k];
  }

  /** The backend's divide by a zero gcd when both parts are zero; otherwise
      the usual reduction. */
  function Finish(num: int, den: int): (r: Result<Fraction>)
    ensures r.Err? <==> num == 0 && den == 0
    ensures r.Err? ==> r.error == DivisionByZero
    ensures r.Ok? ==> r.value.n * den == num * r.value.d && Gcd(r.value.n, r.value.d) == 1
  {
    if num == 0 && den == 0 then Err(DivisionByZero) else Ok(Reduced(num, den))
  }

  /** Assignment from a string: scan and convert the numerator; after a `/`
      scan (hex mode carried over) and convert the denominator, otherwise the
      denominator is 1; anything left before the terminator is an error; then
      reduce by the gcd. The result is not made canonical: "1/-2" keeps its
      negative denominator. */
  function Parse(s: seq<char>, conv: seq<char> -> Option<int>): (r: Result<Fraction>)
    ensures r.Ok? ==> Gcd(r.value.n, r.value.d) == 1
  {
    var a := Scan(s, 0, false);
    match conv(s[..a.end])
    case None => Err(InvalidInteger)
    case Some(num) =>
      if CharAt(s, a.end) == '/' then
        var b := Scan(s, a.end + 1, a.hex);
        match conv(s[a.end + 1..b.end])
        case None => Err(InvalidInteger)
        case Some(den) =>
          if CharAt(s, b.end) != '\0' then Err(TrailingCharacters)
          else
            Finish(num, den)
      else if CharAt(s, a.end) != '\0' then Err(TrailingCharacters)
      else
        Finish(num, 1)
  }

  /** A string that parses holds, before its terminator, only scanner
      characters and `/`. */
  lemma ParseAccepts(s: seq<char>, conv: seq<char> -> Option<int>)
    requires Parse(s, conv).Ok?
    ensures forall k :: 0 <= k < CLength(s) ==> s[k] == '/' || Accepted(s[k], true)
  {
    var a := Scan(s, 0, false);
    ScanSpec(s, 0, false);
    if CharAt(s, a.end) == '/' {
      ScanStopsAtNul(s, a.end + 1, a.hex);
    } else {
      ScanStopsAtNul(s, 0, false);
    }
  }

  /** Without a `/` after the numerator, a string that ends there reads as
      the converted numerator over 1. */
  lemma ParseWithoutSlash(s: seq<char>, conv: seq<char> -> Option<int>)
    requires var a := Scan(s, 0, false);
      conv(s[..a.end]).Some? && CharAt(s, a.end) == '\0'
    ensures var a := Scan(s, 0, false);
      Parse(s, conv) == Ok(Fraction(conv(s[..a.end]).value, 1))
  {
    var a := Scan(s, 0, false);
    GcdOne(conv(s[..a.end]).value);
  }

  /** A character after the numerator that is neither `/` nor the terminator
      is reported as trailing input. */
  lemma ParseTrailingAfterNumerator(s: seq<char>, conv: seq<char> -> Option<int>)
    requires var a := Scan(s, 0, false);
      conv(s[..a.end]).Some? && CharAt(s, a.end) != '/' && CharAt(s, a.end) != '\0'
    ensures Parse(s, conv) == Err(TrailingCharacters)
  {
  }

  /** A character after the denominator other than the terminator is
      reported as trailing input; so "1/2/3" is rejected. */
  lemma ParseTrailingAfterDenominator(s: seq<char>, conv: seq<char> -> Option<int>)
    requires var a := Scan(s, 0, false);
      conv(s[..a.end]).Some? && CharAt(s, a.end) == '/'
      && var b := Scan(s, a.end + 1, a.hex);
      conv(s[a.end + 1..b.end]).Some? && CharAt(s, b.end) != '\0'
    ensures Parse(s, conv) == Err(TrailingCharacters)
  {
  }

  /** A well-formed "n/d" whose parts are not both zero always parses, to the
      converted parts divided by their gcd with the signs left as they are:
      "2/-4" reads as 1/-2 and "3/0" as 1/0. */
  lemma ParseWithSlash(s: seq<char>, conv: seq<char> -> Option<int>)
    requires var a := Scan(s, 0, false);
      conv(s[..a.end]).Some? && CharAt(s, a.end) == '/'
      && var b := Scan(s, a.end + 1, a.hex);
      conv(s[a.end + 1..b.end]).Some? && CharAt(s, b.end) == '\0'
      && (conv(s[..a.end]).value != 0 || conv(s[a.end + 1..b.end]).value != 0)
    ensures var a := Scan(s, 0, false);
      var b := Scan(s, a.end + 1, a.hex);
      Parse(s, conv) == Ok(Reduced(conv(s[..a.end]).value, conv(s[a.end + 1..b.end]).value))
  {
  }

  /** A string that parses is its converted numerator and denominator (1 when
      there is no `/`) divided by their gcd, signs untouched, and nothing
      follows the last part. */
  lemma ParseValue(s: seq<char>, conv: seq<char> -> Option<int>)
    requires Parse(s, conv).Ok?
    ensures var a := Scan(s, 0, false);
      var r := Parse(s, conv).value;
      conv(s[..a.end]).Some? &&
      var num := conv(s[..a.end]).value;
      if CharAt(s, a.end) == '/' then
        var b := Scan(s, a.end + 1, a.hex);
        conv(s[a.end + 1..b.end]).Some? && CharAt(s, b.end) == '\0'
        && var den := conv(s[a.end + 1..b.end]).value;
        (num != 0 || den != 0) && r == Reduced(num, den)
      else
        CharAt(s, a.end) == '\0' && r == Fraction(num, 1)
  {
    var a := Scan(s, 0, false);
    if CharAt(s, a.end) != '/' {
      GcdOne(conv(s[..a.end]).value);
    }
  }

  /** A scan that stops at the terminator has seen only accepted characters
      up to the C string's end. */
  lemma ScanStopsAtNul(s: seq<char>, i: nat, hex: bool)
    requires i <= |s|
    requires CharAt(s, Scan(s, i, hex).end) == '\0'
    ensures forall k :: i <= k < CLength(s) ==> Accepted(s[k], true)
  {
    var r := Scan(s, i, hex);
    ScanSpec(s, i, hex);
    assert CLength(s) <= r.end;
    forall k | i <= k < CLength(s)
      ensures Accepted(s[k], true)
    {
      assert Accepted(s[k], hex || HexSeen(s[i..k]));
    }
  }

  /** `str()`: the numerator, then `/` and the denominator unless the
      denominator prints as "1". */
  function Str(f: Fraction, toStr: int -> seq<char>): (s: seq<char>)
    ensures |toStr(f.n)| <= |s| && s[..|toStr(f.n)|] == toStr(f.n)
  {
    var t := toStr(f.d);
    if t != "1" then toStr(f.n) + "/" + t else toStr(f.n)
  }

  // ---------------------------------------------------------------------
  // Round trip

  predicate DecimalChar(c: char) {
    c == '-' || '0' <= c <= '9'
  }

  /** A run of decimal characters followed by the end or a `/` is scanned
      whole, and the hex flag is left as it was. */
  lemma {:induction false} ScanDecimal(s: seq<char>, i: nat, j: nat, hex: bool)
    requires i <= j <= |s|
    requires forall k :: i <= k < j ==> DecimalChar(s[k])
    requires j == |s| || s[j] == '/'
    ensures Scan(s, i, hex) == Scanned(j, hex)
    decreases j - i
  {
    if i < j {
      ScanDecimal(s, i + 1, j, hex);
    }
  }

  /** Printing a reduced pair and reading it back gives the pair again, for
      any backend whose printing reads back, uses only decimal characters, and
      prints 1 as "1". A negative or zero denominator survives too. */
  lemma ParseStrRoundTrip(f: Fraction, conv: seq<char> -> Option<int>, toStr: int -> seq<char>)
    requires Gcd(f.n, f.d) == 1
    requires forall x :: conv(toStr(x)) == Some(x)
    requires forall x, k :: 0 <= k < |toStr(x)| ==> DecimalChar(toStr(x)[k])
    requires toStr(1) == "1"
    ensures Parse(Str(f, toStr), conv) == Ok(f)
  {
    var s := Str(f, toStr);
    var tn, td := toStr(f.n), toStr(f.d);
    ScanDecimal(s, 0, |tn|, false);
    assert s[..|tn|] == tn;
    if td != "1" {
      assert s == tn + "/" + td;
      ScanDecimal(s, |tn| + 1, |s|, false);
      assert s[|tn| + 1..|s|] == td;
      assert Reduced(f.n, f.d) == f;
    } else {
      assert conv("1") == Some(f.d);
      GcdOne(f.n);
      assert Reduced(f.n, 1) == f;
    }
  }

  // ---------------------------------------------------------------------
  // A decimal backend for worked examples

  /** Reads decimal digits left to right onto `acc`; None at any other character. */
  function Digits(t: seq<char>, acc: nat): Option<nat>
    decreases |t|
  {
    if |t| == 0 then Some(acc)
    else if '0' <= t[0] <= '9' then Digits(t[1..], 10 * acc + (t[0] as int - '0' as int))
    else None
  }

  /** Reads an optional `-` and at least one decimal digit. */
  function SampleDecimal(t: seq<char>): (r: Option<int>)
    ensures r.Some? ==> |t| > 0
  {
    if |t| > 1 && t[0] == '-' then
      match Digits(t[1..], 0)
      case Some(v) => Some(-(v as int))
      case None => None
    else if |t| > 0 then
      match Digits(t, 0)
      case Some(v) => Some(v as int)
      case None => None
    else None
  }

  /** "12/34" reads as 12/34 and is reduced to 6/17. */
  lemma ExampleReduces()
    ensures Parse("12/34", SampleDecimal) == Ok(Fraction(6, 17))
  {
    var s := "12/34";
    assert s[..2] == "12" && s[3..5] == "34";
    assert SampleDecimal("12") == Some(12) by {
      assert Digits("2", 1) == Some(12);
    }
    assert SampleDecimal("34") == Some(34) by {
      assert Digits("4", 3) == Some(34);
    }
    assert Gcd(12, 34) == 2;
    assert Scan(s, 0, false) == Scanned(2, false);
    assert Scan(s, 3, false) == Scanned(5, false);
  }

  /** A negative denominator is kept, not moved to the numerator. */
  lemma ExampleNegativeDenominator()
    ensures Parse("1/-2", SampleDecimal) == Ok(Fraction(1, -2))
  {
    var s := "1/-2";
    assert Scan(s, 0, false) == Scanned(1, false);
    assert s[..1] == "1";
    assert SampleDecimal("1") == Some(1);
    assert Scan(s, 2, false) == Scanned(4, false);
    assert s[2..4] == "-2";
    assert "-2"[1..] == "2";
    assert SampleDecimal("-2") == Some(-2);
    assert Gcd(1, -2) == 1;
  }

  /** A zero denominator is accepted; 3/0 reduces to 1/0. */
  lemma ExampleZeroDenominator()
    ensures Parse("3/0", SampleDecimal) == Ok(Fraction(1, 0))
  {
    var s := "3/0";
    assert Scan(s, 0, false) == Scanned(1, false);
    assert s[..1] == "3";
    assert SampleDecimal("3") == Some(3);
    assert Scan(s, 2, false) == Scanned(3, false);
    assert s[2..3] == "0";
    assert SampleDecimal("0") == Some(0);
    assert Gcd(3, 0) == 3;
  }

  /** Only 0/0 reaches the division by a zero gcd. */
  lemma ExampleZeroOverZero()
    ensures Parse("0/0", SampleDecimal) == Err(DivisionByZero)
  {
    var s := "0/0";
    assert Scan(s, 0, false) == Scanned(1, false);
    assert s[..1] == "0";
    assert SampleDecimal("0") == Some(0);
    assert Scan(s, 2, false) == Scanned(3, false);
    assert s[2..3] == "0";
  }

  /** Without a `/` the denominator is 1. */
  lemma ExampleInteger()
    ensures Parse("7", SampleDecimal) == Ok(Fraction(7, 1))
  {
    var s := "7";
    assert Scan(s, 0, false) == Scanned(1, false);
    assert s[..1] == "7";
    assert SampleDecimal("7") == Some(7);
    GcdOne(7);
  }

  /** A character outside the scanner's set ends the input early. */
  lemma ExampleTrailing()
    ensures Parse("1.5", SampleDecimal) == Err(TrailingCharacters)
  {
    var s := "1.5";
    assert Scan(s, 0, false) == Scanned(1, false);
    assert s[..1] == "1";
    assert SampleDecimal("1") == Some(1);
  }

  /** An `x` is taken by the scanner, so "34x" reaches the backend's
      conversion, which rejects it. */
  lemma ExampleMarkerInDenominator()
    ensures Parse("12/34x", SampleDecimal) == Err(InvalidInteger)
  {
    var s := "12/34x";
    assert s[..2] == "12" && s[3..6] == "34x";
    assert SampleDecimal("12") == Some(12) by {
      assert Digits("2", 1) == Some(12);
    }
    assert SampleDecimal("34x") == None by {
      assert Digits("x", 34) == None;
    }
    assert Scan(s, 0, false) == Scanned(2, false);
    assert Scan(s, 3, false) == Scanned(6, true) by {
      assert Scan(s, 5, false) == Scanned(6, true);
      assert Scan(s, 4, false) == Scanned(6, true);
    }
  }

  /** Hex mode carries from the numerator into the denominator. */
  lemma ExampleHexCarry()
    ensures Scan("0x1/ff", 0, false) == Scanned(3, true)
    ensures Scan("0x1/ff", 4, true) == Scanned(6, true)
    ensures Scan("1/ff", 2, false) == Scanned(2, false)
  {
  }
}

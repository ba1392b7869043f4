/** Apartment codes: a wing letter A-D, a floor 1-27 and a unit 1-4, written
    canonically as the wing, the floor in two digits and the unit in two digits
    ("A0101", "B2503"). Input is trimmed and upper-cased first, so " a101 "
    and "A0101" name the same apartment. */
module ApartmentValidator {
  import opened Records

  datatype ParsedApartment = ParsedApartment(wing: char, floor: nat, unit: nat, apartmentNumber: string)

  // ---------------------------------------------------------------------------
  // Cleaning: String.prototype.trim, then toUpperCase

  /** The code points `trim` removes: ECMAScript WhiteSpace and LineTerminator. */
  predicate IsJsWhitespace(c: char) {
    c == '\t' || c == '\n' || c == '\U{000B}' || c == '\U{000C}' || c == '\r' || c == ' '
    || c == '\U{00A0}' || c == '\U{1680}' || ('\U{2000}' <= c <= '\U{200A}')
    || c == '\U{2028}' || c == '\U{2029}' || c == '\U{202F}' || c == '\U{205F}'
    || c == '\U{3000}' || c == '\U{FEFF}'
  }

  predicate AllWhitespace(s: string) {
    forall k :: 0 <= k < |s| ==> IsJsWhitespace(s[k])
  }

  /** `s` without its leading whitespace. */
  function TrimStart(s: string): string
    decreases |s|
  {
    if |s| > 0 && IsJsWhitespace(s[0]) then TrimStart(s[1..]) else s
  }

  /** `s` without its trailing whitespace. */
  function TrimEnd(s: string): string
    decreases |s|
  {
    if |s| > 0 && IsJsWhitespace(s[|s| - 1]) then TrimEnd(s[..|s| - 1]) else s
  }

  function Trim(s: string): string {
    TrimEnd(TrimStart(s))
  }

  /** Upper-casing of one character; only the ASCII letters are mapped. */
  function UpperChar(c: char): char {
    if 'a' <= c <= 'z' then (c as int - 32) as char else c
  }

  function ToUpperCase(s: string): string {
    seq(|s|, k requires 0 <= k < |s| => UpperChar(s[k]))
  }

  /** TrimStart leaves a suffix of `s` that does not start with whitespace,
      and everything it drops is whitespace. */
  lemma {:induction false} TrimStartDropsLeadingWhitespace(s: string)
    ensures var r := TrimStart(s);
      && |r| <= |s| && r == s[|s| - |r|..] && AllWhitespace(s[..|s| - |r|])
      && (r == [] || !IsJsWhitespace(r[0]))
    decreases |s|
  {
    if |s| > 0 && IsJsWhitespace(s[0]) {
      TrimStartDropsLeadingWhitespace(s[1..]);
      var r := TrimStart(s);
      assert s[1..][|s| - 1 - |r|..] == s[|s| - |r|..];
      assert s[..|s| - |r|] == [s[0]] + s[1..][..|s| - 1 - |r|];
    }
  }

  /** TrimEnd leaves a prefix of `s` that does not end with whitespace, and
      everything it drops is whitespace. */
  lemma {:induction false} TrimEndDropsTrailingWhitespace(s: string)
    ensures var r := TrimEnd(s);
      && |r| <= |s| && r == s[..|r|] && AllWhitespace(s[|r|..])
      && (r == [] || !IsJsWhitespace(r[|r| - 1]))
    decreases |s|
  {
    if |s| > 0 && IsJsWhitespace(s[|s| - 1]) {
      TrimEndDropsTrailingWhitespace(s[..|s| - 1]);
      var r := TrimEnd(s);
      assert s[..|s| - 1][..|r|] == s[..|r|];
      assert s[|r|..] == s[..|s| - 1][|r|..] + [s[|s| - 1]];
    }
  }

  /** The string the pattern is matched against. */
  function Clean(s: string): string {
    ToUpperCase(Trim(s))
  }

  // ---------------------------------------------------------------------------
  // Digits

  predicate IsWing(c: char) { 'A' <= c <= 'D' }
  predicate IsDigit(c: char) { '0' <= c <= '9' }
  predicate AllDigits(s: string) { forall k :: 0 <= k < |s| ==> IsDigit(s[k]) }

  function DigitValue(c: char): (d: nat)
    requires IsDigit(c)
    ensures d < 10
  {
    c as int - '0' as int
  }

  function DigitChar(d: nat): (c: char)
    requires d < 10
    ensures IsDigit(c) && DigitValue(c) == d
  {
    ('0' as int + d) as char
  }

  /** parseInt(ds, 10) on the one or two ASCII digits a pattern group captures. */
  function ParseInt(ds: string): (n: nat)
    requires 1 <= |ds| <= 2 && AllDigits(ds)
    ensures |ds| == 1 ==> n < 10
    ensures |ds| == 2 ==> n < 100
  {
    if |ds| == 1 then DigitValue(ds[0]) else 10 * DigitValue(ds[0]) + DigitValue(ds[1])
  }

  /** Number.prototype.toString() of a natural: its decimal digits, no leading zero. */
  function NatToString(n: nat): (s: string)
    ensures |s| >= 1 && AllDigits(s)
    ensures n < 10 <==> |s| == 1
    ensures n < 10 ==> s == [DigitChar(n)]
    decreases n
  {
    if n < 10 then [DigitChar(n)] else NatToString(n / 10) + [DigitChar(n % 10)]
  }

  /** String.prototype.padStart(2, '0'). */
  function PadStart2(s: string): (r: string)
    ensures |s| >= 2 ==> r == s
    ensures |s| < 2 ==> |r| == 2 && r[2 - |s|..] == s && forall k :: 0 <= k < 2 - |s| ==> r[k] == '0'
  {
    if |s| >= 2 then s else seq(2 - |s|, _ => '0') + s
  }

  /** A natural below 100, written in two digits, reads back as itself. */
  lemma TwoDigits(n: nat)
    ensures n < 100 ==> |PadStart2(NatToString(n))| == 2 && AllDigits(PadStart2(NatToString(n)))
    ensures n < 100 ==> ParseInt(PadStart2(NatToString(n))) == n
  {
    if n < 10 {
      assert PadStart2(NatToString(n)) == ['0', DigitChar(n)];
    } else if n < 100 {
      assert NatToString(n / 10) == [DigitChar(n / 10)];
      assert PadStart2(NatToString(n)) == [DigitChar(n / 10), DigitChar(n % 10)];
    }
  }

  /** Every pair of ASCII digits is the two-digit writing of its own value. */
  lemma TwoDigitStringIsPadded(ds: string)
    requires |ds| == 2 && AllDigits(ds)
    ensures PadStart2(NatToString(ParseInt(ds))) == ds
  {
    var n := ParseInt(ds);
    assert n / 10 == DigitValue(ds[0]) && n % 10 == DigitValue(ds[1]);
    if n < 10 {
      assert DigitChar(DigitValue(ds[1])) == ds[1];
      assert PadStart2(NatToString(n)) == ['0', DigitChar(n)];
    } else {
      assert NatToString(n / 10) == [DigitChar(n / 10)];
      assert DigitChar(DigitValue(ds[0])) == ds[0];
      assert DigitChar(DigitValue(ds[1])) == ds[1];
    }
  }

  // ---------------------------------------------------------------------------
  // Formatting and parsing

  /** formatApartmentNumber: the wing, then the floor and the unit each padded to two digits. */
  function FormatApartment(wing: string, floor: nat, unit: nat): (r: string)
    ensures floor < 100 && unit < 100 ==> |r| == |wing| + 4
  {
    TwoDigits(floor);
    TwoDigits(unit);
    wing + PadStart2(NatToString(floor)) + PadStart2(NatToString(unit))
  }

  /** The formatted string starts with the wing, and its two digit pairs read
      back as the floor and the unit. */
  lemma FormatApartmentDecodes(wing: string, floor: nat, unit: nat)
    requires floor < 100 && unit < 100
    ensures var r := FormatApartment(wing, floor, unit);
      && r[..|wing|] == wing && AllDigits(r[|wing|..])
      && ParseInt(r[|wing|..|wing| + 2]) == floor && ParseInt(r[|wing| + 2..]) == unit
  {
    TwoDigits(floor);
    TwoDigits(unit);
    var r := FormatApartment(wing, floor, unit);
    assert r[|wing|..|wing| + 2] == PadStart2(NatToString(floor)) && r[|wing| + 2..] == PadStart2(NatToString(unit));
  }

  /** The groups of /^([A-D])(\d{1,2})(\d{2})$/. The unit group always takes the
      last two digits, so with three digits the floor is one digit and with four
      it is two. */
  datatype PatternMatch = PatternMatch(wing: char, floorDigits: string, unitDigits: string)

  lemma DigitsSplit(ds: string, i: nat)
    requires AllDigits(ds) && i <= |ds|
    ensures AllDigits(ds[..i]) && AllDigits(ds[i..])
  {
    assert forall k :: 0 <= k < |ds| - i ==> ds[i..][k] == ds[i + k];
  }

  function MatchPattern(c: string): (m: Option<PatternMatch>)
    ensures m.Some? <==> (|c| == 4 || |c| == 5) && IsWing(c[0]) && AllDigits(c[1..])
    ensures m.Some? ==>
      [m.value.wing] + m.value.floorDigits + m.value.unitDigits == c
      && |m.value.floorDigits| == |c| - 3 && |m.value.unitDigits| == 2
      && AllDigits(m.value.floorDigits) && AllDigits(m.value.unitDigits)
  {
    if (|c| == 4 || |c| == 5) && IsWing(c[0]) && AllDigits(c[1..]) then
      DigitsSplit(c[1..], |c| - 3);
      assert c[1..|c| - 2] == c[1..][..|c| - 3] && c[|c| - 2..] == c[1..][|c| - 3..];
      Some(PatternMatch(c[0], c[1..|c| - 2], c[|c| - 2..]))
    else
      None
  }

  predicate InRange(wing: char, floor: nat, unit: nat) {
    IsWing(wing) && 1 <= floor <= 27 && 1 <= unit <= 4
  }

  /** The canonical record of an apartment. */
  function Canonical(wing: char, floor: nat, unit: nat): ParsedApartment {
    ParsedApartment(wing, floor, unit, FormatApartment([wing], floor, unit))
  }

  /** The cleaned strings that denote an apartment: the canonical five-character
      form, and, for a floor below 10, the form with a one-digit floor. */
  function Spellings(wing: char, floor: nat, unit: nat): set<string> {
    var u := PadStart2(NatToString(unit));
    {[wing] + PadStart2(NatToString(floor)) + u}
    + (if floor < 10 then {[wing] + NatToString(floor) + u} else {})
  }

  /** parseApartmentNumber. */
  function ParseApartmentNumber(apartmentNumber: string): (r: Option<ParsedApartment>)
    ensures r.Some? ==> InRange(r.value.wing, r.value.floor, r.value.unit)
    ensures r.Some? ==> r.value == Canonical(r.value.wing, r.value.floor, r.value.unit)
    ensures r.Some? ==> |r.value.apartmentNumber| == 5
  {
    var cleaned := Clean(apartmentNumber);
    match MatchPattern(cleaned)
    case None => None
    case Some(m) =>
      var floor := ParseInt(m.floorDigits);
      var unit := ParseInt(m.unitDigits);
      if floor < 1 || floor > 27 then None
      else if unit < 1 || unit > 4 then None
      else
        Some(ParsedApartment(m.wing, floor, unit, FormatApartment([m.wing], floor, unit)))
  }

  lemma MatchIsASpelling(c: string, m: PatternMatch)
    requires MatchPattern(c) == Some(m)
    ensures c in Spellings(m.wing, ParseInt(m.floorDigits), ParseInt(m.unitDigits))
  {
    var floor, unit := ParseInt(m.floorDigits), ParseInt(m.unitDigits);
    TwoDigitStringIsPadded(m.unitDigits);
    if |m.floorDigits| == 2 {
      TwoDigitStringIsPadded(m.floorDigits);
    } else {
      assert DigitChar(DigitValue(m.floorDigits[0])) == m.floorDigits[0];
      assert NatToString(floor) == m.floorDigits;
    }
  }

  /** validateApartmentNumber: whether parsing yields a record. */
  function ValidateApartmentNumber(apartmentNumber: string): (valid: bool)
    ensures valid <==> ParseApartmentNumber(apartmentNumber).Some?
  {
    ParseApartmentNumber(apartmentNumber) != None
  }

  // ---------------------------------------------------------------------------
  // Properties

  /** Every spelling of an in-range apartment parses to its canonical record. */
  lemma ParseAcceptsEverySpelling(s: string, wing: char, floor: nat, unit: nat)
    requires InRange(wing, floor, unit)
    requires Clean(s) in Spellings(wing, floor, unit)
    ensures ParseApartmentNumber(s) == Some(Canonical(wing, floor, unit))
  {
    var c := Clean(s);
    TwoDigits(floor);
    TwoDigits(unit);
    var u := PadStart2(NatToString(unit));
    if c == [wing] + PadStart2(NatToString(floor)) + u {
      assert c[1..3] == PadStart2(NatToString(floor)) && c[3..] == u;
    } else {
      assert floor < 10 && c == [wing] + [DigitChar(floor)] + u;
      assert c[1..2] == [DigitChar(floor)] && c[2..] == u;
    }
  }

  /** Whatever parseApartmentNumber(s) yields, the cleaned `s` is one of its spellings. */
  lemma ParseIsSound(s: string)
    requires ParseApartmentNumber(s).Some?
    ensures var p := ParseApartmentNumber(s).value;
      Clean(s) in Spellings(p.wing, p.floor, p.unit)
  {
    MatchIsASpelling(Clean(s), MatchPattern(Clean(s)).value);
  }

  /** parseApartmentNumber(s) yields `p` exactly when `p` is an in-range
      apartment in canonical form and the cleaned `s` is one of its spellings. */
  lemma ParseCharacterization(s: string, p: ParsedApartment)
    ensures ParseApartmentNumber(s) == Some(p) <==>
      InRange(p.wing, p.floor, p.unit) && p == Canonical(p.wing, p.floor, p.unit)
      && Clean(s) in Spellings(p.wing, p.floor, p.unit)
  {
    if InRange(p.wing, p.floor, p.unit) && p == Canonical(p.wing, p.floor, p.unit)
       && Clean(s) in Spellings(p.wing, p.floor, p.unit) {
      ParseAcceptsEverySpelling(s, p.wing, p.floor, p.unit);
    }
    if ParseApartmentNumber(s) == Some(p) {
      ParseIsSound(s);
    }
  }

  /** validateApartmentNumber(s) holds iff the cleaned `s` spells some in-range apartment. */
  lemma ValidateAcceptsExactlySpellings(s: string)
    ensures ValidateApartmentNumber(s) <==>
      exists w: char, f: nat, u: nat :: InRange(w, f, u) && Clean(s) in Spellings(w, f, u)
  {
    if ValidateApartmentNumber(s) {
      var p := ParseApartmentNumber(s).value;
      ParseIsSound(s);
      assert InRange(p.wing, p.floor, p.unit) && Clean(s) in Spellings(p.wing, p.floor, p.unit);
    }
    if exists w: char, f: nat, u: nat :: InRange(w, f, u) && Clean(s) in Spellings(w, f, u) {
      var w: char, f: nat, u: nat :| InRange(w, f, u) && Clean(s) in Spellings(w, f, u);
      ParseAcceptsEverySpelling(s, w, f, u);
    }
  }

  /** A capital letter followed by digits is its own cleaned form. */
  lemma CleanKeepsCode(c: string)
    requires |c| > 0 && 'A' <= c[0] <= 'Z' && AllDigits(c[1..])
    ensures Clean(c) == c
  {
    assert !IsJsWhitespace(c[0]);
    assert TrimStart(c) == c;
    assert !IsJsWhitespace(c[|c| - 1]);
    assert TrimEnd(c) == c;
    assert forall k :: 0 <= k < |c| ==> UpperChar(c[k]) == c[k] by {
      forall k | 0 <= k < |c| ensures UpperChar(c[k]) == c[k] {
        if k > 0 { assert IsDigit(c[1..][k - 1]); }
      }
    }
  }

  /** Parsing the canonical string of a parsed apartment gives back the same record. */
  lemma ParseIsIdempotent(s: string)
    requires ParseApartmentNumber(s).Some?
    ensures ParseApartmentNumber(ParseApartmentNumber(s).value.apartmentNumber) == ParseApartmentNumber(s)
  {
    var p := ParseApartmentNumber(s).value;
    var c := p.apartmentNumber;
    TwoDigits(p.floor);
    TwoDigits(p.unit);
    assert c == [p.wing] + PadStart2(NatToString(p.floor)) + PadStart2(NatToString(p.unit));
    assert c[1..] == PadStart2(NatToString(p.floor)) + PadStart2(NatToString(p.unit));
    CleanKeepsCode(c);
    ParseAcceptsEverySpelling(c, p.wing, p.floor, p.unit);
  }

  /** formatApartmentNumber, given a parsed record's components, rebuilds its apartmentNumber. */
  lemma FormatAgreesWithParse(s: string)
    requires ParseApartmentNumber(s).Some?
    ensures var p := ParseApartmentNumber(s).value;
      FormatApartment([p.wing], p.floor, p.unit) == p.apartmentNumber
      && ParseApartmentNumber(FormatApartment([p.wing], p.floor, p.unit)) == Some(p)
  {
    ParseIsIdempotent(s);
  }

  // Trimming and case

  lemma {:induction false} TrimStartSkipsWhitespace(w: string, s: string)
    requires AllWhitespace(w)
    ensures TrimStart(w + s) == TrimStart(s)
    decreases |w|
  {
    if |w| > 0 {
      assert (w + s)[1..] == w[1..] + s;
      TrimStartSkipsWhitespace(w[1..], s);
    } else {
      assert w + s == s;
    }
  }

  lemma {:induction false} TrimEndSkipsWhitespace(s: string, w: string)
    requires AllWhitespace(w)
    ensures TrimEnd(s + w) == TrimEnd(s)
    decreases |w|
  {
    if |w| > 0 {
      assert (s + w)[..|s + w| - 1] == s + w[..|w| - 1];
      TrimEndSkipsWhitespace(s, w[..|w| - 1]);
    } else {
      assert s + w == s;
    }
  }

  lemma {:induction false} TrimStartAppend(s: string, w: string)
    ensures TrimStart(s + w) == if TrimStart(s) == [] then TrimStart(w) else TrimStart(s) + w
    decreases |s|
  {
    if |s| == 0 {
      assert s + w == w;
    } else if IsJsWhitespace(s[0]) {
      assert (s + w)[1..] == s[1..] + w;
      TrimStartAppend(s[1..], w);
    }
  }

  /** Whitespace around the input does not change the parse ("a101" and " A101 "). */
  lemma ParseIgnoresSurroundingWhitespace(before: string, s: string, after: string)
    requires AllWhitespace(before) && AllWhitespace(after)
    ensures ParseApartmentNumber(before + s + after) == ParseApartmentNumber(s)
  {
    assert before + s + after == before + (s + after);
    TrimStartSkipsWhitespace(before, s + after);
    TrimStartAppend(s, after);
    if TrimStart(s) == [] {
      TrimStartSkipsWhitespace(after, []);
      assert after + [] == after;
    } else {
      TrimEndSkipsWhitespace(TrimStart(s), after);
    }
    assert Trim(before + s + after) == Trim(s);
  }

  lemma UpperCharKeepsWhitespace(c: char)
    ensures IsJsWhitespace(UpperChar(c)) == IsJsWhitespace(c)
    ensures UpperChar(UpperChar(c)) == UpperChar(c)
  {
  }

  lemma {:induction false} TrimStartUpper(s: string)
    ensures TrimStart(ToUpperCase(s)) == ToUpperCase(TrimStart(s))
    decreases |s|
  {
    if |s| > 0 {
      UpperCharKeepsWhitespace(s[0]);
      assert ToUpperCase(s)[1..] == ToUpperCase(s[1..]);
      TrimStartUpper(s[1..]);
    }
  }

  lemma {:induction false} TrimEndUpper(s: string)
    ensures TrimEnd(ToUpperCase(s)) == ToUpperCase(TrimEnd(s))
    decreases |s|
  {
    if |s| > 0 {
      UpperCharKeepsWhitespace(s[|s| - 1]);
      assert ToUpperCase(s)[..|s| - 1] == ToUpperCase(s[..|s| - 1]);
      TrimEndUpper(s[..|s| - 1]);
    }
  }

  lemma TrimUpper(s: string)
    ensures Trim(ToUpperCase(s)) == ToUpperCase(Trim(s))
  {
    TrimStartUpper(s);
    TrimEndUpper(TrimStart(s));
  }

  lemma UpperIsIdempotent(t: string)
    ensures ToUpperCase(ToUpperCase(t)) == ToUpperCase(t)
  {
    forall k | 0 <= k < |t| ensures ToUpperCase(ToUpperCase(t))[k] == ToUpperCase(t)[k] {
      UpperCharKeepsWhitespace(t[k]);
    }
  }

  /** Trimming removes exactly the whitespace around `s`: what is left has
      whitespace on neither end, and `s` is it surrounded by whitespace. */
  lemma TrimDropsSurroundingWhitespace(s: string)
    ensures var r := Trim(s);
      && (r == [] || (!IsJsWhitespace(r[0]) && !IsJsWhitespace(r[|r| - 1])))
      && exists lead, trail :: s == lead + r + trail && AllWhitespace(lead) && AllWhitespace(trail)
  {
    var t := TrimStart(s);
    TrimStartDropsLeadingWhitespace(s);
    TrimEndDropsTrailingWhitespace(t);
    var r := TrimEnd(t);
    var lead, trail := s[..|s| - |t|], t[|r|..];
    assert t == r + trail;
    assert s == lead + r + trail;
    if r != [] {
      assert r[0] == t[0];
    }
  }

  /** Upper-casing keeps the length, maps each lower-case ASCII letter to its
      capital and leaves every other character alone, so no lower-case ASCII
      letter remains. */
  lemma UpperCaseMapsAsciiLetters(s: string)
    ensures var r := ToUpperCase(s);
      && |r| == |s|
      && (forall k :: 0 <= k < |s| && 'a' <= s[k] <= 'z' ==> r[k] as int == s[k] as int - ('a' as int - 'A' as int))
      && (forall k :: 0 <= k < |s| && !('a' <= s[k] <= 'z') ==> r[k] == s[k])
      && (forall k :: 0 <= k < |r| ==> !('a' <= r[k] <= 'z'))
  {
  }

  /** The cleaned string has whitespace on neither end and no lower-case ASCII
      letter, and cleaning it again changes nothing. */
  lemma CleanIsTrimmedUpperCase(s: string)
    ensures var c := Clean(s);
      && (c == [] || (!IsJsWhitespace(c[0]) && !IsJsWhitespace(c[|c| - 1])))
      && (forall k :: 0 <= k < |c| ==> !('a' <= c[k] <= 'z'))
      && Clean(c) == c
  {
    var t := Trim(s);
    var c := Clean(s);
    TrimDropsSurroundingWhitespace(s);
    UpperCaseMapsAsciiLetters(t);
    if t != [] {
      UpperCharKeepsWhitespace(t[0]);
      UpperCharKeepsWhitespace(t[|t| - 1]);
      assert c[0] == UpperChar(t[0]) && c[|c| - 1] == UpperChar(t[|t| - 1]);
    }
    assert TrimStart(c) == c;
    assert TrimEnd(c) == c;
    UpperIsIdempotent(t);
  }

  lemma CleanIgnoresCase(s: string)
    ensures Clean(ToUpperCase(s)) == Clean(s)
  {
    TrimUpper(s);
    UpperIsIdempotent(Trim(s));
  }

  /** Upper-casing the input first does not change the parse ("a101" and "A101"). */
  lemma ParseIgnoresCase(s: string)
    ensures ParseApartmentNumber(ToUpperCase(s)) == ParseApartmentNumber(s)
  {
    CleanIgnoresCase(s);
  }

  /** The documented examples. */
  lemma ExampleA101()
    ensures ParseApartmentNumber("A101") == Some(ParsedApartment('A', 1, 1, "A0101"))
  {
    CleanKeepsCode("A101");
    assert NatToString(1) == "1";
    assert PadStart2("1") == "01";
    assert "A101" == ['A'] + NatToString(1) + PadStart2(NatToString(1));
    ParseAcceptsEverySpelling("A101", 'A', 1, 1);
    assert FormatApartment("A", 1, 1) == "A0101";
  }

  lemma ExampleB2503()
    ensures ParseApartmentNumber("B2503") == Some(ParsedApartment('B', 25, 3, "B2503"))
  {
    CleanKeepsCode("B2503");
    assert NatToString(2) == "2";
    assert NatToString(25) == "25";
    assert NatToString(3) == "3";
    assert PadStart2("3") == "03";
    assert "B2503" == ['B'] + PadStart2(NatToString(25)) + PadStart2(NatToString(3));
    ParseAcceptsEverySpelling("B2503", 'B', 25, 3);
  }

  lemma ExampleBadWing()
    ensures ParseApartmentNumber("Z101") == None
  {
    CleanKeepsCode("Z101");
  }

  lemma ExampleFloorTooHigh()
    ensures ParseApartmentNumber("A2801") == None
  {
    CleanKeepsCode("A2801");
    var c := "A2801";
    assert c[1..] == "2801" && AllDigits(c[1..]);
    assert c[1..3] == "28" && c[3..] == "01";
  }

  lemma ExampleTooLong()
    ensures ParseApartmentNumber("A10105") == None
  {
    CleanKeepsCode("A10105");
  }

  lemma ExampleUnitOutOfRange()
    ensures ParseApartmentNumber("A105") == None
    ensures ParseApartmentNumber("A100") == None
  {
    CleanKeepsCode("A105");
    CleanKeepsCode("A100");
    var c, d := "A105", "A100";
    assert c[1..] == "105" && AllDigits(c[1..]);
    assert c[1..2] == "1" && c[2..] == "05";
    assert d[1..] == "100" && AllDigits(d[1..]);
    assert d[1..2] == "1" && d[2..] == "00";
  }
}

/**
 * `clean_number`: the amount in a Debit, Kredit or Saldo cell of the ledger
 * export. The export writes amounts the Indonesian way (`.` groups thousands,
 * `,` starts the decimals) and may annotate them with `(Dr)` or `(Cr)`.
 */
module NumberCleaning {
  import opened Optional
  import opened Strings

  const DebitMarker := "(Dr)"
  const CreditMarker := "(Cr)"

  /** The markers deleted, then every `(`, then every `)`. */
  function NoParens(s: string): (r: string)
    ensures '(' !in r && ')' !in r
    ensures forall c :: c in r ==> c in s
  {
    var noMarkers := DeleteAll(DeleteAll(s, DebitMarker), CreditMarker);
    DeleteCharGone(noMarkers, '(');
    DeleteCharGone(DeleteAll(noMarkers, "("), ')');
    DeleteAll(DeleteAll(noMarkers, "("), ")")
  }

  /** The markers and every parenthesis deleted, then surrounding whitespace. */
  function Unmarked(s: string): (r: string)
    ensures '(' !in r && ')' !in r
    ensures forall c :: c in r ==> c in s
  {
    StripChars(NoParens(s));
    Strip(NoParens(s))
  }

  /**
   * The text handed to `float()`: every `.` (a thousands separator) deleted,
   * then every `,` turned into the decimal point.
   */
  function CleanedText(s: string): (r: string)
    ensures '(' !in r && ')' !in r && ',' !in r
    ensures forall c :: c in r && c != '.' ==> c in s
  {
    var u := Unmarked(s);
    var r := ReplaceChar(DeleteAll(u, "."), ',', '.');
    assert forall c :: c in r && c != '.' ==> c in DeleteAll(u, ".");
    r
  }

  /** Position of the first `.` in `s`, or `|s|` when there is none. */
  function DotIndex(s: string): (k: nat)
    ensures k <= |s|
    ensures forall j :: 0 <= j < k ==> s[j] != '.'
    ensures k < |s| ==> s[k] == '.'
  {
    if s == [] || s[0] == '.' then 0 else 1 + DotIndex(s[1..])
  }

  /** The value of the digits after the decimal point: `FracValue("25") == 0.25`. */
  function FracValue(f: string): (r: real)
    requires AllDigits(f)
    ensures 0.0 <= r < 1.0
  {
    if f == [] then 0.0 else (DigitValue(f[0]) as real + FracValue(f[1..])) / 10.0
  }

  /**
   * The value of `whole.frac`, when both parts are digits and there is at
   * least one digit in all (`5.`, `.5` and `5` are numbers, `.` is not).
   */
  function Magnitude(whole: string, frac: string): (r: Option<real>)
    ensures r.Some? ==> r.value >= 0.0
  {
    if AllDigits(whole) && AllDigits(frac) && |whole| + |frac| > 0 then
      Some(DigitsValue(whole) as real + FracValue(frac))
    else
      None
  }

  /** Unsigned digits with at most one decimal point, split at the first `.`. */
  function ParseUnsigned(body: string): (r: Option<real>)
    ensures r.Some? ==> r.value >= 0.0
  {
    var k := DotIndex(body);
    Magnitude(body[..k], if k < |body| then body[k + 1..] else [])
  }

  /**
   * The number `float()` reads from text without surrounding whitespace, as
   * an exact decimal: an optional sign, then digits with at most one decimal
   * point. Anything else is not a number (None).
   */
  function ParseDecimal(u: string): Option<real> {
    var signed := u != [] && (u[0] == '-' || u[0] == '+');
    var magnitude := ParseUnsigned(u[if signed then 1 else 0..]);
    if signed && u[0] == '-' then Negate(magnitude) else magnitude
  }

  function Negate(m: Option<real>): Option<real> {
    if m.Some? then Some(-m.value) else None
  }

  /** Only a leading minus sign makes the number negative. */
  lemma NegativeNeedsMinus(u: string)
    ensures var r := ParseDecimal(u); r.Some? && r.value < 0.0 ==> u != [] && u[0] == '-'
  {
  }

  /** Python's `float(t)`: whitespace around the number is ignored. */
  function ParseFloat(t: string): (r: Option<real>)
    ensures r.Some? && '-' !in t ==> r.value >= 0.0
  {
    var u := Strip(t);
    StripChars(t);
    NegativeNeedsMinus(u);
    assert u != [] && u[0] == '-' ==> '-' in u;
    ParseDecimal(u)
  }

  /**
   * `clean_number(value)`: a missing cell is 0, text that is not a number
   * after cleaning is 0, and without a minus sign the amount is never negative
   * (parentheses are stripped, not read as a negative amount).
   */
  function CleanNumber(cell: Option<string>): (r: real)
    ensures cell.None? ==> r == 0.0
    ensures cell.Some? && '-' !in cell.value ==> r >= 0.0
  {
    match cell
    case None => 0.0
    case Some(s) =>
      match ParseFloat(CleanedText(s))
      case None => 0.0
      case Some(v) => v
  }

  // ---------------------------------------------------------------------------
  // What the cleaning promises
  // ---------------------------------------------------------------------------

  /**
   * The lossy default: a character that cannot belong to a number and that
   * survives the cleaning makes the whole amount 0.
   */
  lemma NonNumericGivesZero(s: string, c: char)
    requires c in CleanedText(s)
    requires !IsDigit(c) && !IsSpace(c) && c != '.' && c != '+' && c != '-'
    ensures CleanNumber(Some(s)) == 0.0
  {
    StripKeeps(CleanedText(s), c);
    DecimalRejects(Strip(CleanedText(s)), c);
  }

  /** Text without a single digit (`""`, `.`, `-`, `+.`) is no number. */
  lemma DigitlessIsNoNumber(u: string)
    requires forall i :: 0 <= i < |u| ==> !IsDigit(u[i])
    ensures ParseDecimal(u) == None
  {
    var signed := u != [] && (u[0] == '-' || u[0] == '+');
    var body := u[if signed then 1 else 0..];
    var k := DotIndex(body);
    assert body[..k] != [] ==> !IsDigit(body[..k][0]);
    assert k + 1 < |body| ==> !IsDigit(body[k + 1..][0]);
  }

  /** A cell holding only whitespace, or nothing, is worth 0. */
  lemma BlankCellIsZero(s: string)
    requires AllSpace(s)
    ensures CleanNumber(Some(s)) == 0.0
  {
    assert '(' !in s && ')' !in s by {
      forall i | 0 <= i < |s| ensures s[i] != '(' && s[i] != ')' {
        assert IsSpace(s[i]);
      }
    }
    NoParensIsCloseDeleted(s);
    DeleteAbsent(s, ")");
    StripFrame(s, [], []);
    assert s + [] + [] == s;
    assert CleanedText(s) == [];
    DigitlessIsNoNumber([]);
  }

  /** One character that is no digit, sign or point makes the text no number. */
  lemma DecimalRejects(u: string, c: char)
    requires c in u
    requires !IsDigit(c) && c != '.' && c != '+' && c != '-'
    ensures ParseDecimal(u) == None
  {
    var i :| 0 <= i < |u| && u[i] == c;
    if u[0] == '-' || u[0] == '+' {
      assert u[1..][i - 1] == c;
      UnsignedRejects(u[1..], c);
    } else {
      UnsignedRejects(u, c);
    }
  }

  lemma UnsignedRejects(body: string, c: char)
    requires c in body
    requires !IsDigit(c) && c != '.'
    ensures ParseUnsigned(body) == None
  {
    var j :| 0 <= j < |body| && body[j] == c;
    var k := DotIndex(body);
    if j < k {
      assert body[..k][j] == c;
    } else {
      assert j != k;
      assert (body[k + 1..])[j - k - 1] == c;
    }
  }

  /**
   * Parentheses around an amount are only a wrapper: `(s)` is worth what `s`
   * is worth, so a parenthesised amount is never turned negative.
   */
  lemma ParenthesesAreNotNegation(s: string)
    requires '(' !in s && ')' !in s
    ensures CleanNumber(Some("(" + s + ")")) == CleanNumber(Some(s))
  {
    if s == "Dr" || s == "Cr" {
      MarkerAloneIsZero(s);
    } else {
      WrappedNoParens(s);
      NoParensIsCloseDeleted(s);
      DeleteAbsent(s, ")");
      assert NoParens("(" + s + ")") == NoParens(s);
    }
  }

  /** `(Dr)` and `(Cr)` alone clean to nothing, and `Dr`, `Cr` are no number: both are 0. */
  lemma MarkerAloneIsZero(s: string)
    requires s == "Dr" || s == "Cr"
    ensures CleanNumber(Some("(" + s + ")")) == 0.0 == CleanNumber(Some(s))
  {
    MarkerCleansToNothing(s);
    MarkerNameShape(s);
    LettersAreNoNumber(s);
  }

  lemma MarkerNameShape(s: string)
    requires s == "Dr" || s == "Cr"
    ensures s != [] && NoSpace(s)
    ensures '(' !in s && ')' !in s && '.' !in s && ',' !in s
    ensures !IsDigit(s[0]) && s[0] != '+' && s[0] != '-'
  {
  }

  lemma MarkerCleansToNothing(s: string)
    requires s == "Dr" || s == "Cr"
    ensures CleanNumber(Some("(" + s + ")")) == 0.0
  {
    var x := "(" + s + ")";
    if s == "Dr" {
      assert x == DebitMarker;
      assert DeleteAll(x, DebitMarker) == [];
    } else {
      assert x == CreditMarker;
      assert x[1..] == "Cr)";
      DeleteAbsent(x[1..], DebitMarker);
      assert DeleteAll(x, DebitMarker) == x;
      assert DeleteAll(x, CreditMarker) == [];
    }
    assert NoParens(x) == [];
    assert Strip(CleanedText(x)) == [];
  }

  /** Text the cleaning leaves alone is no number when it starts with a letter. */
  lemma LettersAreNoNumber(s: string)
    requires s != [] && NoSpace(s)
    requires '(' !in s && ')' !in s && '.' !in s && ',' !in s
    requires !IsDigit(s[0]) && s[0] != '+' && s[0] != '-'
    ensures CleanNumber(Some(s)) == 0.0
  {
    NoParensIsCloseDeleted(s);
    DeleteAbsent(s, ")");
    StripUnchanged(s);
    DeleteAbsent(s, ".");
    ReplaceCharAbsent(s, ',', '.');
    assert CleanedText(s) == s;
    NonNumericGivesZero(s, s[0]);
  }

  /** Without `(` no marker can match: only the `)` go. */
  lemma NoParensIsCloseDeleted(s: string)
    requires '(' !in s
    ensures NoParens(s) == DeleteAll(s, ")")
  {
    DeleteAbsent(s, DebitMarker);
    DeleteAbsent(s, CreditMarker);
    DeleteAbsent(s, "(");
  }

  /** The wrapping parentheses are deleted and nothing else, unless `s` is `Dr` or `Cr`. */
  lemma WrappedNoParens(s: string)
    requires '(' !in s && ')' !in s
    requires s != "Dr" && s != "Cr"
    ensures NoParens("(" + s + ")") == s
  {
    var x := "(" + s + ")";
    assert x[1..] == s + ")";
    WrappedMarker(s, DebitMarker);
    WrappedMarker(s, CreditMarker);
    DeleteCharAppend("(", s + ")", '(');
    DeleteAbsent(s + ")", "(");
    assert DeleteAll("(", "(") == [];
    assert [] + (s + ")") == s + ")";
    DeleteCharAppend(s, ")", ')');
    DeleteAbsent(s, ")");
    assert DeleteAll(")", ")") == [];
    assert s + [] == s;
  }

  /** A marker can only match at the opening parenthesis, and there only if `s` is its middle. */
  lemma WrappedMarker(s: string, marker: string)
    requires '(' !in s && ')' !in s
    requires marker == DebitMarker || marker == CreditMarker
    requires s != marker[1..3]
    ensures DeleteAll("(" + s + ")", marker) == "(" + s + ")"
  {
    var x := "(" + s + ")";
    assert |s| > 2 ==> x[3] == s[2] != ')';
    assert |s| == 2 ==> x[1..3] == s;
    assert !(marker <= x);
    assert x[1..] == s + ")";
    DeleteAbsent(s + ")", marker);
  }

  /**
   * Deleting a `.` never changes an amount's value when no `(` comes before
   * it: the cleaning throws every `.` away anyway.  A `.` inside a marker is
   * different (`DotInMarkerKeepsLetters`).
   */
  lemma DotInsensitive(a: string, b: string)
    requires '(' !in a
    ensures CleanNumber(Some(a + "." + b)) == CleanNumber(Some(a + b))
  {
    DotInsensitiveText(a, b);
    assert ParseFloat(CleanedText(a + "." + b)) == ParseFloat(CleanedText(a + b));
  }

  lemma DotInsensitiveText(a: string, b: string)
    requires '(' !in a
    ensures Strip(CleanedText(a + "." + b)) == Strip(CleanedText(a + b))
  {
    DotsDeletedAlike(a, b);
    CleanedTextStrip(a + "." + b);
    CleanedTextStrip(a + b);
  }

  lemma DotsDeletedAlike(a: string, b: string)
    requires '(' !in a
    ensures DeleteAll(NoParens(a + "." + b), ".") == DeleteAll(NoParens(a + b), ".")
  {
    var da, nb := DeleteAll(a, ")"), NoParens(b);
    assert a + "." + b == a + ("." + b);
    NoParensPrefix(a, "." + b);
    NoParensPrefix(".", b);
    assert DeleteAll(".", ")") == ".";
    NoParensPrefix(a, b);
    DeleteCharAppend(da, "." + nb, '.');
    DeleteCharAppend(".", nb, '.');
    assert DeleteAll(".", ".") == [];
    assert [] + DeleteAll(nb, ".") == DeleteAll(nb, ".");
    DeleteCharAppend(da, nb, '.');
  }

  /**
   * No marker and no `(` can start in a prefix without `(`: of the prefix
   * only its `)` are deleted, and the rest is cleaned on its own.
   */
  lemma NoParensPrefix(a: string, x: string)
    requires '(' !in a
    ensures NoParens(a + x) == DeleteAll(a, ")") + NoParens(x)
  {
    var dx := DeleteAll(x, DebitMarker);
    var cx := DeleteAll(dx, CreditMarker);
    var px := DeleteAll(cx, "(");
    DeleteAfterAbsent(a, x, DebitMarker);
    DeleteAfterAbsent(a, dx, CreditMarker);
    DeleteAfterAbsent(a, cx, "(");
    DeleteCharAppend(a, px, ')');
  }

  /** Each marker on its own is deleted whole. */
  lemma MarkerVanishes(m: string)
    requires m == DebitMarker || m == CreditMarker
    ensures NoParens(m) == []
  {
    if m == DebitMarker {
      assert DeleteAll(m, DebitMarker) == [];
    } else {
      assert m[1..] == "Cr)";
      DeleteAbsent(m[1..], DebitMarker);
      assert DeleteAll(m, DebitMarker) == m;
      assert DeleteAll(m, CreditMarker) == [];
    }
  }

  /**
   * A `(Dr)` or `(Cr)` marker after an amount, with or without whitespace
   * before it, is deleted whole and leaves the value as it is.
   */
  lemma MarkerKeepsValue(s: string, gap: string, m: string)
    requires '(' !in s && AllSpace(gap)
    requires m == DebitMarker || m == CreditMarker
    ensures CleanNumber(Some(s + gap + m)) == CleanNumber(Some(s))
  {
    var ds := DeleteAll(s, ")");
    MarkedNoParens(s, gap, m);
    NoParensIsCloseDeleted(s);
    StripFrame([], ds, gap);
    assert [] + ds + gap == ds + gap;
    SameUnmarkedSameValue(s + gap + m, s);
  }

  lemma MarkedNoParens(s: string, gap: string, m: string)
    requires '(' !in s && AllSpace(gap)
    requires m == DebitMarker || m == CreditMarker
    ensures NoParens(s + gap + m) == DeleteAll(s, ")") + gap
  {
    var t := s + gap;
    assert '(' !in gap by {
      forall i | 0 <= i < |gap| ensures gap[i] != '(' {
        assert IsSpace(gap[i]);
      }
    }
    assert '(' !in t;
    NoParensPrefix(t, m);
    MarkerVanishes(m);
    DeleteCharAppend(s, gap, ')');
    DeleteAbsent(gap, ")");
  }

  lemma SameUnmarkedSameValue(x: string, y: string)
    requires Unmarked(x) == Unmarked(y)
    ensures CleanNumber(Some(x)) == CleanNumber(Some(y))
  {
  }

  /** A marked amount as the export writes it, `1.234,50 (Dr)`, reads back exactly. */
  lemma MarkedAmountRoundTrip(cents: int, m: string)
    requires m == DebitMarker || m == CreditMarker
    ensures CleanNumber(Some(IndonesianAmount(cents) + " " + m)) == cents as real / 100.0
  {
    var n := if cents < 0 then -cents else cents;
    var sign := if cents < 0 then "-" else "";
    var ds := NatDigits(n / 100);
    var cc := [DigitChar(n % 100 / 10), DigitChar(n % 10)];
    assert AllDigits(cc);
    AmountCharacters(sign, ds, cc);
    assert IndonesianAmount(cents) == sign + GroupThousands(ds) + "," + cc;
    assert AllSpace(" ") by {
      assert " "[0] == ' ';
    }
    MarkerKeepsValue(IndonesianAmount(cents), " ", m);
    IndonesianAmountRoundTrip(cents);
  }

  /**
   * A `.` inside a marker keeps it from being deleted: `5(D.r)` is worth 0,
   * since `Dr` is left in the text, while `5(Dr)` is worth 5.
   */
  lemma DotInMarkerKeepsLetters(dotted: string, marked: string)
    requires dotted == "5(D.r)" && marked == "5(Dr)"
    ensures CleanNumber(Some(dotted)) == 0.0
    ensures CleanNumber(Some(marked)) == 5.0
  {
    DotInMarkerIsZero(dotted);
    MarkedFive(marked);
  }

  lemma DotInMarkerIsZero(x: string)
    requires x == "5(D.r)"
    ensures CleanNumber(Some(x)) == 0.0
  {
    DottedNoParens(x);
    assert NoParens(x)[1] == 'D';
    LetterSurvivesCleaning(x, 'D');
    NonNumericGivesZero(x, 'D');
  }

  lemma DottedNoParens(x: string)
    requires x == "5(D.r)"
    ensures NoParens(x) == "5D.r"
  {
    var five, y := x[..1], x[1..];
    assert five == "5" && y == "(D.r)";
    NoParensPrefix(five, y);
    assert five + y == x;
    DeleteAbsent(five, ")");
    DotMarkerNoParens(y);
  }

  /** A character other than whitespace, `.` and `,` that survives the parenthesis step reaches `float()`. */
  lemma LetterSurvivesCleaning(x: string, c: char)
    requires c in NoParens(x) && !IsSpace(c) && c != '.' && c != ','
    ensures c in CleanedText(x)
  {
    StripKeeps(NoParens(x), c);
    DeleteCharKeeps(Unmarked(x), '.', c);
    var d := DeleteAll(Unmarked(x), ".");
    var i :| 0 <= i < |d| && d[i] == c;
    assert ReplaceChar(d, ',', '.')[i] == c;
  }

  lemma MarkedFive(marked: string)
    requires marked == "5(Dr)"
    ensures CleanNumber(Some(marked)) == 5.0
  {
    var five, m := marked[..1], marked[1..];
    assert five == "5" && m == DebitMarker;
    assert five + [] + m == marked;
    MarkerKeepsValue(five, [], m);
    FiveIsFive(five);
  }

  lemma DotMarkerNoParens(y: string)
    requires y == "(D.r)"
    ensures NoParens(y) == "D.r"
  {
    assert y[2] == '.' && DebitMarker[2] == 'r' && CreditMarker[1] == 'C' && y[1] == 'D';
    var rest := y[1..];
    assert rest == "D.r)";
    DeleteAbsent(rest, DebitMarker);
    DeleteAbsent(rest, CreditMarker);
    assert DeleteAll(y, DebitMarker) == y;
    assert DeleteAll(y, CreditMarker) == y;
    DeleteAbsent(rest, "(");
    assert DeleteAll(y, "(") == rest;
    assert rest == "D.r" + ")";
    DeleteCharAppend("D.r", ")", ')');
    DeleteAbsent("D.r", ")");
    assert DeleteAll(")", ")") == [];
  }

  lemma FiveIsFive(five: string)
    requires five == "5"
    ensures CleanNumber(Some(five)) == 5.0
  {
    NoParensIsCloseDeleted(five);
    DeleteAbsent(five, ")");
    StripUnchanged(five);
    DeleteAbsent(five, ".");
    ReplaceCharAbsent(five, ',', '.');
    assert CleanedText(five) == five;
    assert DotIndex(five) == 1;
    assert five[..1] == five && AllDigits(five);
    assert DigitsValue(five) == 5;
    assert ParseDecimal(five) == Some(5.0);
  }

  /**
   * `float()` strips whitespace itself, so the first `strip()` of the cleaning
   * does not matter to the value.
   */
  lemma CleanedTextStrip(s: string)
    ensures Strip(CleanedText(s)) == Strip(ReplaceChar(DeleteAll(NoParens(s), "."), ',', '.'))
  {
    var x := NoParens(s);
    var lead, trail := StripDecompose(x);
    var m := Strip(x);
    assert '.' !in lead && ',' !in lead && '.' !in trail && ',' !in trail;
    DeleteCharAppend(lead + m, trail, '.');
    DeleteCharAppend(lead, m, '.');
    DeleteAbsent(lead, ".");
    DeleteAbsent(trail, ".");
    var dm := DeleteAll(m, ".");
    ReplaceCharAppend(lead + dm, trail, ',', '.');
    ReplaceCharAppend(lead, dm, ',', '.');
    ReplaceCharAbsent(lead, ',', '.');
    ReplaceCharAbsent(trail, ',', '.');
    StripFrame(lead, ReplaceChar(dm, ',', '.'), trail);
  }

  // ---------------------------------------------------------------------------
  // Amounts as the export writes them read back exactly
  // ---------------------------------------------------------------------------

  /** The first `.` after the whole part splits the text at the right place. */
  lemma DotSplitsAt(whole: string, frac: string, body: string)
    requires '.' !in whole && body == whole + "." + frac
    ensures DotIndex(body) == |whole|
    ensures body[..|whole|] == whole
    ensures body[|whole| + 1..] == frac
  {
    assert body[|whole|] == '.';
    assert forall j :: 0 <= j < |whole| ==> body[j] == whole[j] != '.';
  }

  /** Digits, a point and digits split at the point. */
  lemma UnsignedOf(whole: string, frac: string, body: string)
    requires AllDigits(whole) && AllDigits(frac) && whole != []
    requires body == whole + "." + frac
    ensures body != [] && IsDigit(body[0])
    ensures ParseUnsigned(body) == Magnitude(whole, frac)
  {
    DigitsNoDot(whole);
    DotSplitsAt(whole, frac, body);
    assert body[0] == whole[0];
  }

  lemma DigitsNoDot(ds: string)
    requires AllDigits(ds)
    ensures '.' !in ds
  {
    forall j | 0 <= j < |ds| ensures ds[j] != '.' {
      assert IsDigit(ds[j]);
    }
  }

  /** The value of digits around a point is the whole value plus the fraction. */
  lemma MagnitudeOfDigits(whole: string, frac: string)
    requires AllDigits(whole) && AllDigits(frac) && |whole| + |frac| > 0
    ensures Magnitude(whole, frac) == Some(DigitsValue(whole) as real + FracValue(frac))
  {
  }

  /** Digits with a decimal point read back as their value. */
  lemma ParseDecimalOf(whole: string, frac: string)
    requires AllDigits(whole) && AllDigits(frac) && whole != []
    ensures ParseDecimal(whole + "." + frac) == Magnitude(whole, frac)
  {
    var u := whole + "." + frac;
    UnsignedOf(whole, frac, u);
    UnsignedUnchanged(u);
  }

  /** Without a sign, the text is read as an unsigned number. */
  lemma UnsignedUnchanged(u: string)
    requires u != [] && IsDigit(u[0])
    ensures ParseDecimal(u) == ParseUnsigned(u)
  {
    assert u[0..] == u;
  }

  /** The same with a leading minus sign: the value is negated. */
  lemma ParseNegativeDecimalOf(whole: string, frac: string)
    requires AllDigits(whole) && AllDigits(frac) && whole != []
    ensures ParseDecimal("-" + whole + "." + frac) == Negate(Magnitude(whole, frac))
  {
    var body, u := whole + "." + frac, "-" + whole + "." + frac;
    UnsignedOf(whole, frac, body);
    SignDropped(whole, frac, body, u);
    NegatedUnsigned(body, u);
  }

  lemma SignDropped(whole: string, frac: string, body: string, u: string)
    requires body == whole + "." + frac && u == "-" + whole + "." + frac
    ensures u == "-" + body
  {
  }

  /** A minus sign in front of an unsigned number negates it. */
  lemma NegatedUnsigned(body: string, u: string)
    requires u == "-" + body
    ensures ParseDecimal(u) == Negate(ParseUnsigned(body))
  {
    assert u[0] == '-' && u[1..] == body;
  }

  lemma FracValueOfTwo(d1: char, d2: char)
    requires IsDigit(d1) && IsDigit(d2)
    ensures FracValue([d1, d2]) == DigitValue(d1) as real / 10.0 + DigitValue(d2) as real / 100.0
  {
    assert [d1, d2][1..] == [d2];
    assert [d2][1..] == [];
    assert FracValue([d2]) == DigitValue(d2) as real / 10.0;
    assert FracValue([d1, d2]) == (DigitValue(d1) as real + FracValue([d2])) / 10.0;
  }

  lemma CentsSplit(m: nat)
    ensures m as real / 100.0 == (m / 100) as real + (m % 100 / 10) as real / 10.0 + (m % 10) as real / 100.0
  {
    var q, r := m / 100, m % 100;
    var t, u := r / 10, r % 10;
    assert m == 10 * (10 * q + t) + u;
    LastDigit(m, 10 * q + t, u);
    assert m as real == 100.0 * q as real + 10.0 * t as real + u as real;
  }

  lemma LastDigit(m: nat, high: nat, u: nat)
    requires m == 10 * high + u && u < 10
    ensures m % 10 == u
  {
  }

  /** Inserts `.` before every group of three digits, counted from the right. */
  function GroupThousands(ds: string): (r: string)
    ensures forall c :: c in r ==> c in ds || c == '.'
    ensures ds != [] ==> r != [] && r[0] == ds[0] && r[|r| - 1] == ds[|ds| - 1]
  {
    if |ds| <= 3 then ds
    else
      var head := GroupThousands(ds[..|ds| - 3]);
      var r := head + "." + ds[|ds| - 3..];
      assert forall c :: c in r ==> c in head || c == '.' || c in ds[|ds| - 3..];
      r
  }

  /** Deleting the grouping dots gives the digits back. */
  lemma {:induction false} GroupThousandsDots(ds: string)
    requires '.' !in ds
    ensures DeleteAll(GroupThousands(ds), ".") == ds
    decreases |ds|
  {
    if |ds| <= 3 {
      DeleteAbsent(ds, ".");
    } else {
      var head, tail := ds[..|ds| - 3], ds[|ds| - 3..];
      assert '.' !in head && '.' !in tail;
      GroupThousandsDots(head);
      DeleteCharAppend(GroupThousands(head) + ".", tail, '.');
      DeleteCharAppend(GroupThousands(head), ".", '.');
      assert DeleteAll(".", ".") == [];
      DeleteAbsent(tail, ".");
      assert head + [] + tail == ds;
    }
  }

  /**
   * An amount of `cents` hundredths as the ledger export writes it: a minus
   * sign when negative, the whole part grouped by `.`, then `,` and two
   * decimals, as in `-1.234.567,05`.
   */
  function IndonesianAmount(cents: int): string {
    var m := if cents < 0 then -cents else cents;
    (if cents < 0 then "-" else "") + GroupThousands(NatDigits(m / 100)) + ","
      + [DigitChar(m % 100 / 10), DigitChar(m % 10)]
  }

  /** `clean_number` reads every amount written the Indonesian way back exactly. */
  lemma IndonesianAmountRoundTrip(cents: int)
    ensures CleanNumber(Some(IndonesianAmount(cents))) == cents as real / 100.0
  {
    var m := if cents < 0 then -cents else cents;
    var ds := NatDigits(m / 100);
    var cc := [DigitChar(m % 100 / 10), DigitChar(m % 10)];
    assert DigitsValue(ds) as real + FracValue(cc) == m as real / 100.0 by {
      FracValueOfTwo(cc[0], cc[1]);
      CentsSplit(m);
    }
    if cents < 0 {
      NegativeGroupedAmountValue(ds, cc);
    } else {
      assert IndonesianAmount(cents) == GroupThousands(ds) + "," + cc;
      GroupedAmountValue(ds, cc);
    }
  }

  /** An amount with grouped whole part and decimal comma has the value its digits spell. */
  lemma GroupedAmountValue(ds: string, cc: string)
    requires ds != [] && AllDigits(ds) && AllDigits(cc)
    ensures CleanNumber(Some(GroupThousands(ds) + "," + cc)) == DigitsValue(ds) as real + FracValue(cc)
  {
    var s := GroupThousands(ds) + "," + cc;
    CleanedAmount("", ds, cc, s, ds + "." + cc);
    ParseFloatOfStripped(CleanedText(s), ds + "." + cc);
    ParseDecimalOf(ds, cc);
    MagnitudeOfDigits(ds, cc);
  }

  /** The same with a leading minus sign. */
  lemma NegativeGroupedAmountValue(ds: string, cc: string)
    requires ds != [] && AllDigits(ds) && AllDigits(cc)
    ensures CleanNumber(Some("-" + GroupThousands(ds) + "," + cc)) == -(DigitsValue(ds) as real + FracValue(cc))
  {
    var s := "-" + GroupThousands(ds) + "," + cc;
    CleanedAmount("-", ds, cc, s, "-" + ds + "." + cc);
    ParseFloatOfStripped(CleanedText(s), "-" + ds + "." + cc);
    ParseNegativeDecimalOf(ds, cc);
    MagnitudeOfDigits(ds, cc);
  }

  lemma ParseFloatOfStripped(t: string, u: string)
    requires Strip(t) == u
    ensures ParseFloat(t) == ParseDecimal(u)
  {
  }

  /** The cleaning of an Indonesian amount: grouping dots go, the decimal comma becomes `.`. */
  lemma CleanedAmount(sign: string, ds: string, cc: string, s: string, shown: string)
    requires sign == "" || sign == "-"
    requires ds != [] && AllDigits(ds) && AllDigits(cc)
    requires s == sign + GroupThousands(ds) + "," + cc && shown == sign + ds + "." + cc
    ensures Strip(CleanedText(s)) == shown
  {
    AmountCharacters(sign, ds, cc);
    TightTextUnmarked(s);
    AmountDotsDeleted(sign, ds, cc);
    AmountCommaReplaced(sign, ds, cc);
    StripUnchanged(sign + ds + "." + cc);
  }

  lemma AmountCharacters(sign: string, ds: string, cc: string)
    requires sign == "" || sign == "-"
    requires ds != [] && AllDigits(ds) && AllDigits(cc)
    ensures '(' !in sign + GroupThousands(ds) + "," + cc
    ensures ')' !in sign + GroupThousands(ds) + "," + cc
    ensures NoSpace(sign + GroupThousands(ds) + "," + cc)
  {
    var s := sign + GroupThousands(ds) + "," + cc;
    assert forall c :: c in s ==> c == '-' || c == '.' || c == ',' || IsDigit(c);
    forall i | 0 <= i < |s| ensures !IsSpace(s[i]) {
      assert s[i] in s;
    }
  }

  /** Text without parentheses or whitespace passes the first cleaning steps unchanged. */
  lemma TightTextUnmarked(s: string)
    requires '(' !in s && ')' !in s && NoSpace(s)
    ensures Unmarked(s) == s
  {
    NoParensIsCloseDeleted(s);
    DeleteAbsent(s, ")");
    StripUnchanged(s);
  }

  lemma AmountDotsDeleted(sign: string, ds: string, cc: string)
    requires sign == "" || sign == "-"
    requires AllDigits(ds) && AllDigits(cc)
    ensures DeleteAll(sign + GroupThousands(ds) + "," + cc, ".") == sign + ds + "," + cc
  {
    var grouped := GroupThousands(ds);
    assert '.' !in sign && '.' !in ds && '.' !in cc;
    GroupThousandsDots(ds);
    DeleteCharAppend(sign + grouped + ",", cc, '.');
    DeleteCharAppend(sign + grouped, ",", '.');
    DeleteCharAppend(sign, grouped, '.');
    DeleteAbsent(sign, ".");
    DeleteAbsent(",", ".");
    DeleteAbsent(cc, ".");
  }

  lemma AmountCommaReplaced(sign: string, ds: string, cc: string)
    requires sign == "" || sign == "-"
    requires AllDigits(ds) && AllDigits(cc)
    ensures ReplaceChar(sign + ds + "," + cc, ',', '.') == sign + ds + "." + cc
  {
    var l, r := ReplaceChar(sign + ds + "," + cc, ',', '.'), sign + ds + "." + cc;
    forall i | 0 <= i < |r| ensures l[i] == r[i] {
      if i < |sign| + |ds| {
        assert (sign + ds + "," + cc)[i] != ',';
      }
    }
  }

  /** `1.000.000,00` reads as one million. */
  lemma IndonesianMillionExample(s: string)
    requires s == "1.000.000,00"
    ensures CleanNumber(Some(s)) == 1000000.0
  {
    MillionText(s);
    IndonesianAmountRoundTrip(100000000);
  }

  lemma MillionText(s: string)
    requires s == "1.000.000,00"
    ensures IndonesianAmount(100000000) == s
  {
    MillionDigits();
    MillionGrouped();
  }

  lemma MillionDigits()
    ensures NatDigits(1000000) == "1000000"
  {
    assert NatDigits(1) == "1";
    assert NatDigits(10) == "10";
    assert NatDigits(100) == "100";
    assert NatDigits(1000) == "1000";
    assert NatDigits(10000) == "10000";
    assert NatDigits(100000) == "100000";
  }

  lemma MillionGrouped()
    ensures GroupThousands("1000000") == "1.000.000"
  {
    assert GroupThousands("1") == "1";
    assert "1000"[..1] == "1" && "1000"[1..] == "000";
    assert GroupThousands("1000") == "1.000";
    assert "1000000"[..4] == "1000" && "1000000"[4..] == "000";
  }

  /**
   * Western grouping is not recognised: in `1,234.50` the `.` is deleted and
   * the `,` becomes the decimal point, so the amount reads as `1.23450`.
   */
  lemma WesternGroupingReadAsDecimals(a: string, b: string, c: string)
    requires a != [] && AllDigits(a) && AllDigits(b) && AllDigits(c)
    ensures CleanNumber(Some(a + "," + b + "." + c)) == DigitsValue(a) as real + FracValue(b + c)
  {
    var f := b + c;
    AllDigitsAppend(b, c);
    var s := a + "," + b + "." + c;
    WesternCleaned(a, b, c, s, a + "." + f);
    StrippedDecimalValue(a, f, s, a + "." + f);
  }

  lemma StrippedDecimalValue(whole: string, frac: string, s: string, u: string)
    requires whole != [] && AllDigits(whole) && AllDigits(frac)
    requires u == whole + "." + frac && Strip(CleanedText(s)) == u
    ensures CleanNumber(Some(s)) == DigitsValue(whole) as real + FracValue(frac)
  {
    ParseFloatOfStripped(CleanedText(s), u);
    ParseDecimalOf(whole, frac);
    MagnitudeOfDigits(whole, frac);
  }

  lemma AllDigitsAppend(b: string, c: string)
    requires AllDigits(b) && AllDigits(c)
    ensures AllDigits(b + c)
  {
  }

  lemma WesternCleaned(a: string, b: string, c: string, s: string, shown: string)
    requires a != [] && AllDigits(a) && AllDigits(b) && AllDigits(c)
    requires s == a + "," + b + "." + c && shown == a + "." + (b + c)
    ensures Strip(CleanedText(s)) == shown
  {
    var f := b + c;
    AllDigitsAppend(b, c);
    WesternCharacters(a, b, c, s);
    TightTextUnmarked(s);
    var d := a + "," + f;
    WesternDotsDeleted(a, b, c, s, d);
    CommaReplaced(a, f, d, shown);
    StripUnchanged(shown);
  }

  lemma CommaReplaced(ds: string, cc: string, d: string, shown: string)
    requires ds != [] && AllDigits(ds) && AllDigits(cc)
    requires d == ds + "," + cc && shown == ds + "." + cc
    ensures ReplaceChar(d, ',', '.') == shown
    ensures !IsSpace(shown[0]) && !IsSpace(shown[|shown| - 1])
  {
    var l := ReplaceChar(d, ',', '.');
    forall i | 0 <= i < |shown| ensures l[i] == shown[i] {
      if i < |ds| {
        assert d[i] == ds[i];
      }
    }
    assert shown[0] == ds[0];
    if cc == [] {
      assert shown[|shown| - 1] == '.';
    } else {
      assert shown[|shown| - 1] == cc[|cc| - 1];
    }
  }

  lemma WesternCharacters(a: string, b: string, c: string, s: string)
    requires AllDigits(a) && AllDigits(b) && AllDigits(c)
    requires s == a + "," + b + "." + c
    ensures '(' !in s && ')' !in s && NoSpace(s)
  {
    assert forall x :: x in s ==> x == '.' || x == ',' || IsDigit(x);
    forall i | 0 <= i < |s| ensures !IsSpace(s[i]) {
      assert s[i] in s;
    }
  }

  lemma WesternDotsDeleted(a: string, b: string, c: string, s: string, d: string)
    requires AllDigits(a) && AllDigits(b) && AllDigits(c)
    requires s == a + "," + b + "." + c && d == a + "," + (b + c)
    ensures DeleteAll(s, ".") == d
  {
    assert '.' !in a + "," + b && '.' !in c;
    DeleteCharAppend(a + "," + b + ".", c, '.');
    DeleteCharAppend(a + "," + b, ".", '.');
    assert DeleteAll(".", ".") == [];
    DeleteAbsent(a + "," + b, ".");
    DeleteAbsent(c, ".");
  }
}

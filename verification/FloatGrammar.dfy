/**
 The texts ParseFloat accepts, built from their parts: what each is read as, and that there are no
 others.
 */
module FloatGrammar {
  import opened NumberText
  import opened DecimalWriting
  import opened FloatParse

  // ── Parts ───────────────────────────────────────────────────────

  predicate Blank(c: char) {
    c == ' ' || 9 as char <= c <= 13 as char
  }

  predicate AllBlank(s: string) {
    forall k :: 0 <= k < |s| ==> Blank(s[k])
  }

  predicate OptionalSign(s: string) {
    s == "" || s == "+" || s == "-"
  }

  predicate Exponential(c: char) {
    c == 'e' || c == 'E'
  }

  // No digit follows.
  predicate Stops(rest: string) {
    rest == "" || !IsDigit(rest[0])
  }

  predicate StartsExponent(rest: string) {
    |rest| > 1 && Exponential(rest[0])
    && (IsDigit(rest[1]) || (|rest| > 2 && (rest[1] == '+' || rest[1] == '-') && IsDigit(rest[2])))
  }

  // A decimal with what stands before and after it.  Without a letter there is no exponent.
  datatype Decimal = Decimal(space: string, sign: string, whole: string, point: bool, part: string,
                             letter: string, exponentSign: string, exponent: string, rest: string)
  {
    // The rest does not continue the decimal.
    predicate Ends() {
      && Stops(rest)
      && (letter == "" ==> !StartsExponent(rest) && (point || rest == "" || rest[0] != '.'))
    }

    predicate WellFormed() {
      && AllBlank(space) && OptionalSign(sign)
      && AllDigits(whole) && AllDigits(part) && whole + part != "" && (point || part == "")
      && (if letter == "" then exponentSign == "" && exponent == ""
          else |letter| == 1 && Exponential(letter[0]) && OptionalSign(exponentSign) && exponent != "" && AllDigits(exponent))
      && Ends()
    }

    function Mantissa(): string {
      space + sign + whole + (if point then "." else "") + part
    }

    function Text(): string {
      Mantissa() + letter + exponentSign + exponent + rest
    }
  }

  // ── Where a part of a text stands ───────────────────────────────

  lemma PartAt(t: string, x: string, run: string, y: string)
    requires t == x + run + y
    ensures forall k :: 0 <= k < |run| ==> At(t, |x| + k) == run[k]
    ensures forall k: nat :: At(t, |x| + |run| + k) == At(y, k)
    ensures Slice(t, |x|, |x| + |run|) == run
  {}

  lemma DigitsAt(t: string, x: string, run: string, y: string)
    requires t == x + run + y && AllDigits(run) && Stops(y)
    ensures DigitsEnd(t, |x|, 10) == |x| + |run|
    ensures Slice(t, |x|, |x| + |run|) == run
    ensures forall k: nat :: At(t, |x| + |run| + k) == At(y, k)
  {
    hide DigitsEnd, DigitValue;
    PartAt(t, x, run, y);
    forall k | |x| <= k < |x| + |run| ensures DigitValue(At(t, k), 10) >= 0 {
      assert At(t, |x| + (k - |x|)) == run[k - |x|];
      DecimalDigit(At(t, k));
    }
    assert At(t, |x| + |run| + 0) == At(y, 0);
    DecimalDigit(At(y, 0));
    DigitsEndUnique(t, |x|, 10, |x| + |run|);
  }

  lemma SpaceAt(t: string, run: string, y: string)
    requires t == run + y && AllBlank(run) && y != "" && !Blank(y[0])
    ensures SpaceEnd(t, 0) == |run|
  {
    PartAt(t, "", run, y);
    assert "" + run + y == t;
    forall k | 0 <= k < |run| ensures IsSpace(At(t, k)) {
      assert At(t, 0 + k) == run[k];
    }
    assert At(t, |run| + 0) == At(y, 0);
    SpaceEndUnique(t, 0, |run|);
  }

  // ── Decimals ────────────────────────────────────────────────────

  lemma CharAt(t: string, x: string, y: string, k: nat)
    requires t == x + y
    ensures At(t, |x| + k) == At(y, k)
  {}

  lemma ExponentAt(t: string, x: string, letter: char, sign: string, digits: string, rest: string)
    requires t == x + ([letter] + sign + digits + rest)
    requires Exponential(letter) && OptionalSign(sign) && digits != "" && AllDigits(digits) && Stops(rest)
    ensures ReadExponent(t, |x|) == (sign == "-", digits, |t| - |rest|)
  {
    hide DigitsEnd, Slice;
    var y := [letter] + sign + digits + rest;
    CharAt(t, x, y, 0);
    CharAt(t, x, y, 1);
    CharAt(t, x, y, 1 + |sign|);
    var before := x + [letter] + sign;
    assert t == before + digits + rest;
    DigitsAt(t, before, digits, rest);
  }

  lemma ExponentReads(d: Decimal)
    requires d.WellFormed() && d.letter != ""
    ensures ReadExponent(d.Text(), |d.Mantissa()|) == (d.exponentSign == "-", d.exponent, |d.Text()| - |d.rest|)
  {
    hide ReadExponent, AllDigits, AllBlank;
    var t, x := d.Text(), d.Mantissa();
    assert d.letter == [d.letter[0]];
    assert t == x + (d.letter + d.exponentSign + d.exponent + d.rest);
    ExponentAt(t, x, d.letter[0], d.exponentSign, d.exponent, d.rest);
  }

  lemma NoExponentReads(d: Decimal)
    requires d.WellFormed() && d.letter == ""
    ensures ReadExponent(d.Text(), |d.Mantissa()|) == (false, "", |d.Text()| - |d.rest|)
  {
    hide DigitsEnd;
    var t, x := d.Text(), d.Mantissa();
    assert t == x + "" + d.rest;
    PartAt(t, x, "", d.rest);
    assert At(t, |x| + 0 + 0) == At(d.rest, 0);
    assert At(t, |x| + 0 + 1) == At(d.rest, 1);
    assert At(t, |x| + 0 + 2) == At(d.rest, 2);
  }

  // What follows the mantissa.
  function Tail(d: Decimal): string {
    d.letter + d.exponentSign + d.exponent + d.rest
  }

  lemma TailStops(d: Decimal)
    requires d.WellFormed()
    ensures Stops(Tail(d)) && d.Text() == d.Mantissa() + Tail(d)
    ensures !d.point ==> At(Tail(d), 0) != '.'
  {}

  lemma PointedReads(t: string, x: string, whole: string, part: string, tail: string)
    requires t == x + whole + ("." + part + tail) && AllDigits(whole) && AllDigits(part) && Stops(tail)
    ensures var c := |x| + |whole|;
            && DigitsEnd(t, |x|, 10) == c && Slice(t, |x|, c) == whole && At(t, c) == '.'
            && DigitsEnd(t, c + 1, 10) == c + 1 + |part| && Slice(t, c + 1, c + 1 + |part|) == part
  {
    hide DigitsEnd, Slice, AllDigits;
    DigitsAt(t, x, whole, "." + part + tail);
    assert At(t, |x| + |whole| + 0) == '.';
    assert t == (x + whole + ".") + part + tail;
    DigitsAt(t, x + whole + ".", part, tail);
  }

  lemma MantissaReads(d: Decimal)
    requires d.WellFormed()
    ensures var t, b := d.Text(), |d.space + d.sign|;
            var c := DigitsEnd(t, b, 10);
            && c == b + |d.whole| && Slice(t, b, c) == d.whole && (At(t, c) == '.' <==> d.point)
            && (d.point ==> DigitsEnd(t, c + 1, 10) == |d.Mantissa()| && Slice(t, c + 1, |d.Mantissa()|) == d.part)
            && (!d.point ==> c == |d.Mantissa()|)
  {
    hide DigitsEnd, Slice, AllDigits, AllBlank, OptionalSign, Exponential;
    var t, x, tail := d.Text(), d.space + d.sign, Tail(d);
    TailStops(d);
    if d.point {
      assert t == x + d.whole + ("." + d.part + tail);
      PointedReads(t, x, d.whole, d.part, tail);
    } else {
      assert t == x + d.whole + tail;
      DigitsAt(t, x, d.whole, tail);
      assert At(t, |x| + |d.whole| + 0) == At(tail, 0);
    }
  }

  // What follows the space and the sign starts with a digit or the point.
  lemma StartAt(t: string, space: string, sign: string, y: string)
    requires t == space + (sign + y) && AllBlank(space) && OptionalSign(sign)
    requires y != "" && !Blank(y[0]) && y[0] != '+' && y[0] != '-'
    ensures SpaceEnd(t, 0) == |space|
    ensures (At(t, |space|) == '-' <==> sign == "-") && (At(t, |space|) == '+' <==> sign == "+")
    ensures At(t, |space + sign|) == y[0]
  {
    hide SpaceEnd, AllBlank;
    SpaceAt(t, space, sign + y);
    CharAt(t, space, sign + y, 0);
    CharAt(t, space, sign + y, |sign|);
  }

  lemma StartReads(d: Decimal)
    requires d.WellFormed()
    ensures var t, a := d.Text(), SpaceEnd(d.Text(), 0);
            && a == |d.space| && (At(t, a) == '-' <==> d.sign == "-") && (At(t, a) == '+' <==> d.sign == "+")
            && (IsDigit(At(t, a + |d.sign|)) || At(t, a + |d.sign|) == '.')
  {
    hide SpaceEnd, AllBlank;
    var y := d.whole + ((if d.point then "." else "") + d.part + Tail(d));
    MantissaStarts(d, y);
    StartAt(d.Text(), d.space, d.sign, y);
  }

  lemma MantissaStarts(d: Decimal, y: string)
    requires d.WellFormed() && y == d.whole + ((if d.point then "." else "") + d.part + Tail(d))
    ensures y != "" && (IsDigit(y[0]) || y[0] == '.') && d.Text() == d.space + (d.sign + y)
  {
    TailStops(d);
    NotEmpty(d);
    var middle := (if d.point then "." else "") + d.part;
    FirstOfTwo(d.whole, middle, Tail(d));
    hide d.WellFormed, Tail;
    assert d.Mantissa() == d.space + (d.sign + (d.whole + middle));
    assert d.space + (d.sign + (d.whole + middle)) + Tail(d) == d.space + (d.sign + (d.whole + (middle + Tail(d))));
  }

  lemma FirstOfTwo(whole: string, middle: string, tail: string)
    requires AllDigits(whole) && (whole == "" ==> middle != "" && middle[0] == '.')
    requires middle != "" ==> middle[0] == '.'
    ensures var y := whole + (middle + tail);
            whole + middle != "" ==> y != "" && (IsDigit(y[0]) || y[0] == '.')
  {}

  lemma NoWord(t: string, b: nat)
    requires IsDigit(At(t, b)) || At(t, b) == '.'
    ensures !WordAt(t, b, "inf") && !WordAt(t, b, "nan")
  {
    assert At(t, b + 0) == At(t, b);
    assert Lower(At(t, b + 0)) != "inf"[0] && Lower(At(t, b + 0)) != "nan"[0];
  }

  /** Every decimal is read as its parts, whatever precedes and follows it. */
  lemma ReadsDecimal(d: Decimal)
    requires d.WellFormed()
    ensures ReadFloat(d.Text())
         == DecimalText(d.sign == "-", d.whole + d.part, |d.part|, d.exponentSign == "-", d.exponent, |d.Text()| - |d.rest|)
  {
    hide SpaceEnd, DigitsEnd, ReadExponent, WordAt, Slice, AllDigits, AllBlank, Exponential, StartsExponent, Stops;
    var t, b := d.Text(), |d.space + d.sign|;
    StartReads(d);
    MantissaReads(d);
    NoWord(t, b);
    NotEmpty(d);
    if d.letter == "" { NoExponentReads(d); } else { ExponentReads(d); }
  }

  lemma NotEmpty(d: Decimal)
    requires d.WellFormed()
    ensures d.whole + d.part != "" && (d.point || d.part == "")
  {}

  // ── Words ───────────────────────────────────────────────────────

  // w is the word, each letter in either case.
  predicate AnyCase(w: string, lower: string, upper: string)
    requires |lower| == |upper|
  {
    |w| == |lower| && forall k :: 0 <= k < |w| ==> w[k] == lower[k] || w[k] == upper[k]
  }

  predicate StartsWord(y: string, lower: string, upper: string)
    requires |lower| == |upper|
  {
    |lower| <= |y| && AnyCase(y[..|lower|], lower, upper)
  }

  predicate Cases(lower: string, upper: string) {
    |lower| == |upper| && forall k :: 0 <= k < |lower| ==> 'a' <= lower[k] <= 'z' && upper[k] == lower[k] - 'a' + 'A'
  }

  // A word with what stands before and after it.
  datatype Word = Word(space: string, sign: string, word: string, rest: string) {
    predicate Framed() {
      AllBlank(space) && OptionalSign(sign)
    }

    predicate Infinity() {
      && Framed()
      && (AnyCase(word, "infinity", "INFINITY") || (AnyCase(word, "inf", "INF") && !StartsWord(rest, "inity", "INITY")))
    }

    predicate Nan() {
      Framed() && AnyCase(word, "nan", "NAN")
    }

    function Text(): string {
      space + (sign + (word + rest))
    }
  }

  lemma WordIs(t: string, x: string, y: string, lower: string, upper: string)
    requires t == x + y && Cases(lower, upper)
    ensures WordAt(t, |x|, lower) <==> StartsWord(y, lower, upper)
  {
    forall k: nat ensures At(t, |x| + k) == At(y, k) { CharAt(t, x, y, k); }
    if WordAt(t, |x|, lower) {
      if lower != "" {
        var last := |lower| - 1;
        assert Lower(At(t, |x| + last)) == lower[last];
      }
      forall k | 0 <= k < |lower| ensures y[..|lower|][k] == lower[k] || y[..|lower|][k] == upper[k] {
        assert Lower(At(t, |x| + k)) == lower[k];
      }
    }
    if StartsWord(y, lower, upper) {
      forall k | 0 <= k < |lower| ensures Lower(At(t, |x| + k)) == lower[k] {
        assert y[..|lower|][k] == y[k];
      }
    }
  }

  lemma WordStarts(w: Word)
    requires w.Framed() && w.word != "" && !Blank(w.word[0]) && w.word[0] != '+' && w.word[0] != '-'
    ensures var t, a := w.Text(), SpaceEnd(w.Text(), 0);
            && a == |w.space| && (At(t, a) == '-' <==> w.sign == "-") && (At(t, a) == '+' <==> w.sign == "+")
    ensures w.Text() == (w.space + w.sign) + (w.word + w.rest)
    ensures w.Text() == (w.space + w.sign + w.word) + w.rest
  {
    StartAt(w.Text(), w.space, w.sign, w.word + w.rest);
  }

  /** Infinity, in either spelling and any case, with either sign. */
  lemma ReadsInfinity(w: Word)
    requires w.Infinity()
    ensures ReadFloat(w.Text()) == InfinityText(w.sign == "-", |w.Text()| - |w.rest|)
  {
    hide SpaceEnd, WordAt, ReadDecimal, AllBlank;
    WordStarts(w);
    var t, x, y := w.Text(), w.space + w.sign, w.word + w.rest;
    WordIs(t, x, y, "inf", "INF");
    assert y[..|w.word|] == w.word;
    var inf, tail := y[..3], y[3..];
    assert t == (x + inf) + tail;
    WordIs(t, x + inf, tail, "inity", "INITY");
    LongWord(w.word, w.rest);
  }

  // The long spelling is the short one and its ending.
  lemma LongWord(word: string, rest: string)
    requires AnyCase(word, "infinity", "INFINITY") || AnyCase(word, "inf", "INF")
    ensures var y := word + rest;
            && StartsWord(y, "inf", "INF")
            && (AnyCase(word, "infinity", "INFINITY") ==> StartsWord(y[3..], "inity", "INITY"))
            && (AnyCase(word, "inf", "INF") ==> y[3..] == rest)
  {
    var y := word + rest;
    if AnyCase(word, "infinity", "INFINITY") {
      assert forall k :: 0 <= k < 3 ==> y[..3][k] == word[k] && "inf"[k] == "infinity"[k] && "INF"[k] == "INFINITY"[k];
      assert forall k :: 0 <= k < 5 ==> y[3..][..5][k] == word[k + 3] && "inity"[k] == "infinity"[k + 3] && "INITY"[k] == "INFINITY"[k + 3];
    }
    if AnyCase(word, "inf", "INF") {
      assert y[..3] == word;
    }
  }

  lemma ReadsNan(w: Word)
    requires w.Nan()
    ensures ReadFloat(w.Text()) == NanText(w.sign == "-", |w.Text()| - |w.rest|)
  {
    hide SpaceEnd, WordAt, ReadDecimal, AllBlank;
    WordStarts(w);
    var t, x, y := w.Text(), w.space + w.sign, w.word + w.rest;
    assert y[..3] == w.word;
    WordIs(t, x, y, "inf", "INF");
    WordIs(t, x, y, "nan", "NAN");
    assert y[0] == w.word[0];
  }

  // ── There are no others ─────────────────────────────────────────

  lemma Cut(t: string, i: nat, j: nat)
    requires i <= j <= |t|
    ensures t[..i] + t[i..j] == t[..j]
  {}

  lemma RunIsDigits(t: string, i: nat, j: nat)
    requires i <= j <= |t| && (forall k :: i <= k < j ==> DigitValue(At(t, k), 10) >= 0)
    ensures AllDigits(t[i..j])
  {
    forall k | i <= k < j ensures IsDigit(t[k]) { DecimalDigit(At(t, k)); }
  }

  lemma RestStops(t: string, i: nat)
    requires i <= |t| && DigitValue(At(t, i), 10) < 0
    ensures Stops(t[i..])
  {
    DecimalDigit(At(t, i));
  }

  // The space and the sign.
  lemma HeadOf(t: string) returns (b: nat)
    ensures var a := SpaceEnd(t, 0);
            && b == (if At(t, a) == '+' || At(t, a) == '-' then a + 1 else a) <= |t| && a <= b
            && AllBlank(t[..a]) && OptionalSign(t[a..b]) && (t[a..b] == "-" <==> At(t, a) == '-')
  {
    var a := SpaceEnd(t, 0);
    b := if At(t, a) == '+' || At(t, a) == '-' then a + 1 else a;
    assert t[a..b] == if b == a then "" else [t[a]];
    forall k | 0 <= k < a ensures Blank(t[k]) { assert IsSpace(At(t, k)); }
  }

  // The exponent at i, if there is one.
  lemma ExponentOfText(t: string, i: nat) returns (letter: string, sign: string, digits: string, end: nat)
    requires i <= |t|
    ensures i <= end <= |t| && t[i..] == letter + sign + digits + t[end..]
    ensures if letter == "" then end == i && sign == "" && digits == "" && !StartsExponent(t[i..])
            else |letter| == 1 && Exponential(letter[0]) && OptionalSign(sign) && digits != "" && AllDigits(digits) && Stops(t[end..])
  {
    hide DigitValue, Stops;
    var signed := At(t, i + 1) == '+' || At(t, i + 1) == '-';
    var j := if signed then i + 2 else i + 1;
    if Lower(At(t, i)) == 'e' && IsDigit(At(t, j)) {
      end := DigitsEnd(t, j, 10);
      letter, sign, digits := t[i..i + 1], t[i + 1..j], t[j..end];
      DecimalDigit(At(t, j));
      DecimalDigit(At(t, end));
      RunIsDigits(t, j, end);
      RestStops(t, end);
      assert sign == if signed then [t[i + 1]] else "";
      assert end > j;
    } else {
      letter, sign, digits, end := "", "", "", i;
    }
  }

  // The digits and the point from b on.
  lemma MantissaOfText(t: string, b: nat, negative: bool) returns (c: nat, from: nat, e: nat)
    requires b <= |t|
    ensures b <= c <= from <= e <= |t| && AllDigits(t[b..c]) && AllDigits(t[from..e]) && Stops(t[e..])
    ensures if from == c then e == c && At(t, c) != '.' else t[c..from] == "."
    ensures ReadDecimal(t, b, negative).DecimalText? ==> t[b..c] + t[from..e] != ""
  {
    hide DigitValue, ReadExponent;
    c := DigitsEnd(t, b, 10);
    from := if At(t, c) == '.' then c + 1 else c;
    e := if At(t, c) == '.' then DigitsEnd(t, from, 10) else c;
    RunIsDigits(t, b, c);
    RunIsDigits(t, from, e);
    RestStops(t, e);
  }

  // The parts of a text, joined, are the text.
  lemma Joined(t: string, a: nat, b: nat, c: nat, from: nat, e: nat, letter: string, sign: string, exponent: string, rest: string)
    requires a <= b <= c <= from <= e <= |t| && t[e..] == letter + sign + exponent + rest
    ensures t[..a] + t[a..b] + t[b..c] + t[c..from] + t[from..e] == t[..e]
    ensures t[..e] + letter + sign + exponent + rest == t
  {
    Cut(t, a, b);
    Cut(t, b, c);
    Cut(t, c, from);
    Cut(t, from, e);
    assert t[..e] + t[e..] == t;
    assert t[..e] + letter + sign + exponent + rest == t[..e] + t[e..];
  }

  /** A text read as a decimal is one of those above. */
  lemma DecimalOfText(t: string) returns (d: Decimal)
    requires ReadFloat(t).DecimalText?
    ensures d.WellFormed() && d.Text() == t
  {
    hide WordAt, DigitsEnd, SpaceEnd, ReadDecimal, AllDigits, AllBlank, OptionalSign, Exponential, StartsExponent;
    var a := SpaceEnd(t, 0);
    var b := HeadOf(t);
    var c, from, e := MantissaOfText(t, b, At(t, a) == '-');
    var letter, sign, exponent, end := ExponentOfText(t, e);
    Joined(t, a, b, c, from, e, letter, sign, exponent, t[end..]);
    d := Decimal(t[..a], t[a..b], t[b..c], from > c, t[from..e], letter, sign, exponent, t[end..]);
    assert t[c..from] == if from > c then "." else "";
  }

  lemma WordAtCut(t: string, b: nat, lower: string, upper: string)
    requires b <= |t| && Cases(lower, upper)
    ensures WordAt(t, b, lower) <==> b + |lower| <= |t| && AnyCase(t[b..b + |lower|], lower, upper)
  {
    assert t == t[..b] + t[b..];
    WordIs(t, t[..b], t[b..], lower, upper);
    if b + |lower| <= |t| { assert t[b..][..|lower|] == t[b..b + |lower|]; }
  }

  // The infinity at b, as long as it is.
  lemma InfinityAt(t: string, b: nat) returns (c: nat)
    requires b <= |t| && WordAt(t, b, "inf")
    ensures b <= c <= |t|
    ensures AnyCase(t[b..c], "infinity", "INFINITY") || (AnyCase(t[b..c], "inf", "INF") && !StartsWord(t[c..], "inity", "INITY"))
  {
    hide WordAt;
    WordAtCut(t, b, "inf", "INF");
    WordAtCut(t, b + 3, "inity", "INITY");
    if WordAt(t, b + 3, "inity") {
      c := b + 8;
      assert t[b..b + 8] == t[b..b + 3] + t[b + 3..b + 3 + 5];
      assert "infinity" == "inf" + "inity" && "INFINITY" == "INF" + "INITY";
    } else {
      c := b + 3;
      if b + 8 <= |t| { assert t[b + 3..][..5] == t[b + 3..b + 3 + 5]; }
    }
  }

  /** And one read as a word is one of those. */
  lemma WordOfText(t: string) returns (w: Word)
    requires ReadFloat(t).InfinityText? || ReadFloat(t).NanText?
    ensures w.Text() == t && (if ReadFloat(t).InfinityText? then w.Infinity() else w.Nan())
  {
    hide WordAt, SpaceEnd, ReadFloat, AllBlank, OptionalSign, AnyCase, StartsWord;
    var a := SpaceEnd(t, 0);
    var b := HeadOf(t);
    WordRead(t, b);
    var c := b + 3;
    if ReadFloat(t).InfinityText? { c := InfinityAt(t, b); } else { WordAtCut(t, b, "nan", "NAN"); }
    w := Word(t[..a], t[a..b], t[b..c], t[c..]);
    Rejoined(t, a, b, c);
  }

  lemma WordRead(t: string, b: nat)
    requires ReadFloat(t).InfinityText? || ReadFloat(t).NanText?
    requires var a := SpaceEnd(t, 0); b == if At(t, a) == '+' || At(t, a) == '-' then a + 1 else a
    ensures WordAt(t, b, if ReadFloat(t).InfinityText? then "inf" else "nan")
  {
    hide WordAt, SpaceEnd, ReadExponent;
  }

  lemma Rejoined(t: string, a: nat, b: nat, c: nat)
    requires a <= b <= c <= |t|
    ensures t[..a] + (t[a..b] + (t[b..c] + t[c..])) == t
  {}

  /** The grammar, exactly: what is read as a decimal, as infinity and as no number's value, and nothing else is. */
  lemma Accepted(t: string)
    ensures ReadFloat(t).DecimalText? <==> exists d: Decimal :: d.WellFormed() && d.Text() == t
    ensures ReadFloat(t).InfinityText? <==> exists w: Word :: w.Infinity() && w.Text() == t
    ensures ReadFloat(t).NanText? <==> exists w: Word :: w.Nan() && w.Text() == t
  {
    hide ReadFloat;
    if ReadFloat(t).DecimalText? { var d := DecimalOfText(t); }
    if ReadFloat(t).InfinityText? || ReadFloat(t).NanText? { var w := WordOfText(t); }
    forall d: Decimal | d.WellFormed() && d.Text() == t ensures ReadFloat(t).DecimalText? { ReadsDecimal(d); }
    forall w: Word | w.Infinity() && w.Text() == t ensures ReadFloat(t).InfinityText? { ReadsInfinity(w); }
    forall w: Word | w.Nan() && w.Text() == t ensures ReadFloat(t).NanText? { ReadsNan(w); }
  }
}

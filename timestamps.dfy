/** The capture time of a photo, as `time.strptime(field, "%Y:%m:%d %H:%M:%S")`
    reads it, and the order in which the resulting `struct_time` values compare. */
module Timestamps {
  import opened Wrappers
  import opened Text

  /** The six leading fields of a `struct_time`, in the order Python compares them. */
  datatype Timestamp = Timestamp(year: nat, month: nat, day: nat, hour: nat, minute: nat, second: nat)

  /** The values the directives %Y, %m, %d, %H, %M and %S accept. */
  predicate InRange(t: Timestamp)
  {
    t.year <= 9999 && 1 <= t.month <= 12 && 1 <= t.day <= 31 &&
    t.hour <= 23 && t.minute <= 59 && t.second <= 61
  }

  /** Struct comparison `a < b`: by year, then month, day, hour, minute, second.
      (The remaining struct fields are derived from these six, or constant.) */
  predicate TimeLess(a: Timestamp, b: Timestamp)
  {
    a.year < b.year || (a.year == b.year &&
    (a.month < b.month || (a.month == b.month &&
    (a.day < b.day || (a.day == b.day &&
    (a.hour < b.hour || (a.hour == b.hour &&
    (a.minute < b.minute || (a.minute == b.minute &&
    a.second < b.second)))))))))
  }

  /** `TimeLess` is a strict total order on timestamps. */
  lemma TimeLessOrder(a: Timestamp, b: Timestamp, c: Timestamp)
    ensures !TimeLess(a, a)
    ensures TimeLess(a, b) ==> !TimeLess(b, a)
    ensures TimeLess(a, b) && TimeLess(b, c) ==> TimeLess(a, c)
    ensures a == b || TimeLess(a, b) || TimeLess(b, a)
  {
  }

  predicate IsDigit(c: char)
  {
    '0' <= c <= '9'
  }

  predicate AllDigits(s: string)
  {
    forall i :: 0 <= i < |s| ==> IsDigit(s[i])
  }

  function Pow10(n: nat): (p: nat)
    ensures p >= 1
  {
    if n == 0 then 1 else 10 * Pow10(n - 1)
  }

  /** The number a fixed-width block of decimal digits denotes, leading zeros allowed. */
  function Number(s: string): (v: nat)
    requires AllDigits(s)
    ensures v < Pow10(|s|)
  {
    if |s| == 0 then 0
    else Number(s[..|s| - 1]) * 10 + (s[|s| - 1] as int - '0' as int)
  }

  /** `n` written with exactly `w` decimal digits, zero-padded on the left. */
  function Digits(n: nat, w: nat): (s: string)
    requires n < Pow10(w)
    ensures |s| == w && AllDigits(s)
  {
    if w == 0 then ""
    else Digits(n / 10, w - 1) + [('0' as int + n % 10) as char]
  }

  /** Reading the digits of `n` back gives `n`. */
  lemma {:induction false} NumberDigits(n: nat, w: nat)
    requires n < Pow10(w)
    ensures Number(Digits(n, w)) == n
  {
    if w > 0 {
      var s := Digits(n, w);
      assert s[..w - 1] == Digits(n / 10, w - 1);
      NumberDigits(n / 10, w - 1);
    }
  }

  /** Writing the number of a digit block with the block's width gives the block. */
  lemma {:induction false} DigitsNumber(s: string)
    requires AllDigits(s)
    ensures Digits(Number(s), |s|) == s
  {
    if |s| > 0 {
      var init := s[..|s| - 1];
      assert AllDigits(init);
      DigitsNumber(init);
      assert s == init + [s[|s| - 1]];
    }
  }

  /** Zero-padded digit blocks of one width compare as strings the way their
      numbers compare. */
  lemma {:induction false} DigitsOrder(a: nat, b: nat, w: nat)
    requires a < Pow10(w) && b < Pow10(w)
    ensures LexLess(Digits(a, w), Digits(b, w)) <==> a < b
  {
    if w > 0 {
      var ca, cb := ('0' as int + a % 10) as char, ('0' as int + b % 10) as char;
      DigitsOrder(a / 10, b / 10, w - 1);
      LexConcat(Digits(a / 10, w - 1), [ca], Digits(b / 10, w - 1), [cb]);
      NumberDigits(a / 10, w - 1);
      NumberDigits(b / 10, w - 1);
      LexSingle(ca, cb);
      LastDigitOrder(a, b);
    }
  }

  lemma LexSingle(c: char, d: char)
    ensures LexLess([c], [d]) <==> c < d
  {
    assert [c][1..] == [] && [d][1..] == [];
  }

  /** Numbers compare by all digits but the last, then by the last. */
  lemma LastDigitOrder(a: nat, b: nat)
    ensures a < b <==> a / 10 < b / 10 || (a / 10 == b / 10 && a % 10 < b % 10)
  {
  }

  /** The layout `YYYY:MM:DD HH:MM:SS` of the format "%Y:%m:%d %H:%M:%S",
      every field zero-padded to its width. */
  predicate Layout(s: string)
  {
    |s| == 19 &&
    AllDigits(s[0..4]) && s[4] == ':' && AllDigits(s[5..7]) && s[7] == ':' &&
    AllDigits(s[8..10]) && s[10] == ' ' && AllDigits(s[11..13]) && s[13] == ':' &&
    AllDigits(s[14..16]) && s[16] == ':' && AllDigits(s[17..19])
  }

  /** `time.strptime(s, "%Y:%m:%d %H:%M:%S")`; `None` where Python raises ValueError. */
  function Parse(s: string): (r: Option<Timestamp>)
    ensures r.Some? ==> Layout(s) && InRange(r.value)
  {
    if !Layout(s) then None
    else
      var t := Timestamp(Number(s[0..4]), Number(s[5..7]), Number(s[8..10]),
                         Number(s[11..13]), Number(s[14..16]), Number(s[17..19]));
      if InRange(t) then Some(t) else None
  }

  /** The fixed-width text of the layout that denotes `t`, as exiftool prints a
      capture time; the inverse of `Parse`. */
  function Format(t: Timestamp): (s: string)
    requires InRange(t)
    ensures Layout(s)
  {
    Digits(t.year, 4) + (":" + (Digits(t.month, 2) + (":" + (Digits(t.day, 2) + (" " +
    (Digits(t.hour, 2) + (":" + (Digits(t.minute, 2) + (":" + Digits(t.second, 2))))))))))
  }

  /** Every timestamp the format can express survives formatting and parsing. */
  lemma ParseFormat(t: Timestamp)
    requires InRange(t)
    ensures Parse(Format(t)) == Some(t)
  {
    var s := Format(t);
    assert s[0..4] == Digits(t.year, 4);
    assert s[5..7] == Digits(t.month, 2);
    assert s[8..10] == Digits(t.day, 2);
    assert s[11..13] == Digits(t.hour, 2);
    assert s[14..16] == Digits(t.minute, 2);
    assert s[17..19] == Digits(t.second, 2);
    NumberDigits(t.year, 4);
    NumberDigits(t.month, 2);
    NumberDigits(t.day, 2);
    NumberDigits(t.hour, 2);
    NumberDigits(t.minute, 2);
    NumberDigits(t.second, 2);
  }

  /** Every string `Parse` accepts is the formatting of the timestamp it yields,
      so two accepted strings parse to the same timestamp only if they are equal. */
  lemma FormatParse(s: string)
    requires Parse(s).Some?
    ensures Format(Parse(s).value) == s
  {
    DigitsNumber(s[0..4]);
    DigitsNumber(s[5..7]);
    DigitsNumber(s[8..10]);
    DigitsNumber(s[11..13]);
    DigitsNumber(s[14..16]);
    DigitsNumber(s[17..19]);
    LayoutPieces(s);
  }

  /** A string of the layout is its six digit blocks and five separators. */
  lemma LayoutPieces(s: string)
    requires Layout(s)
    ensures s == s[0..4] + (":" + (s[5..7] + (":" + (s[8..10] + (" " +
                 (s[11..13] + (":" + (s[14..16] + (":" + s[17..19])))))))))
  {
  }

  /** Comparing `a ++ x` with `b ++ y` for blocks `a`, `b` of one length. */
  lemma LexConcat(a: string, x: string, b: string, y: string)
    requires |a| == |b|
    ensures LexLess(a + x, b + y) <==> LexLess(a, b) || (a == b && LexLess(x, y))
  {
    LexLessSplit(a + x, b + y, |a|);
    assert (a + x)[..|a|] == a && (b + y)[..|a|] == b;
    assert (a + x)[|a|..] == x && (b + y)[|a|..] == y;
  }

  /** A shared separator followed by two remainders compares as the remainders. */
  lemma LexSep(c: char, x: string, y: string)
    ensures LexLess([c] + x, [c] + y) <==> LexLess(x, y)
  {
    assert ([c] + x)[1..] == x && ([c] + y)[1..] == y;
  }

  /** A digit block and the rest of a formatted timestamp: the block decides
      unless the two numbers are equal. */
  lemma LexField(m: nat, n: nat, w: nat, c: char, x: string, y: string)
    requires m < Pow10(w) && n < Pow10(w)
    ensures LexLess(Digits(m, w) + ([c] + x), Digits(n, w) + ([c] + y)) <==>
            m < n || (m == n && LexLess(x, y))
  {
    LexConcat(Digits(m, w), [c] + x, Digits(n, w), [c] + y);
    DigitsOrder(m, n, w);
    NumberDigits(m, w);
    NumberDigits(n, w);
    LexSep(c, x, y);
  }

  /** Formatted timestamps compare as strings exactly as the timestamps compare. */
  lemma FormatOrder(a: Timestamp, b: Timestamp)
    requires InRange(a) && InRange(b)
    ensures TimeLess(a, b) <==> LexLess(Format(a), Format(b))
  {
    var s5a, s5b := Digits(a.second, 2), Digits(b.second, 2);
    var s4a, s4b := Digits(a.minute, 2) + (":" + s5a), Digits(b.minute, 2) + (":" + s5b);
    var s3a, s3b := Digits(a.hour, 2) + (":" + s4a), Digits(b.hour, 2) + (":" + s4b);
    var s2a, s2b := Digits(a.day, 2) + (" " + s3a), Digits(b.day, 2) + (" " + s3b);
    var s1a, s1b := Digits(a.month, 2) + (":" + s2a), Digits(b.month, 2) + (":" + s2b);
    DigitsOrder(a.second, b.second, 2);
    LexField(a.minute, b.minute, 2, ':', s5a, s5b);
    LexField(a.hour, b.hour, 2, ':', s4a, s4b);
    LexField(a.day, b.day, 2, ' ', s3a, s3b);
    LexField(a.month, b.month, 2, ':', s2a, s2b);
    LexField(a.year, b.year, 4, ':', s1a, s1b);
  }

  /** For well-formed capture times, the struct order `time.strptime` yields is
      the plain string order of the fields as exiftool prints them. */
  lemma ParsedOrder(s: string, t: string)
    requires Parse(s).Some? && Parse(t).Some?
    ensures TimeLess(Parse(s).value, Parse(t).value) <==> LexLess(s, t)
    ensures Parse(s) == Parse(t) <==> s == t
  {
    FormatParse(s);
    FormatParse(t);
    FormatOrder(Parse(s).value, Parse(t).value);
  }
}

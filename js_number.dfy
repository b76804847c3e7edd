/** JavaScript's `Number(s)` conversion, restricted to the strings the price
    normaliser can hand it: strings over the digits, `,`, `.` and `-`.

    Over that alphabet the ECMAScript string-to-number grammar leaves one
    shape: an optional `-`, then decimal digits with at most one `.`, with at
    least one digit somewhere. Every other non-empty string is NaN (`None`
    here); the empty string is 0. Values are exact reals, not doubles. */
module JsNumber {
  import opened Wrappers
  import opened JsString

  predicate IsDigit(c: char)
  {
    '0' <= c <= '9'
  }

  predicate AllDigits(s: string)
  {
    forall i :: 0 <= i < |s| ==> IsDigit(s[i])
  }

  /** The characters the price normaliser keeps: `[\d,.\-]`, where `\d`
      is the ASCII digits only. */
  predicate NumericChar(c: char)
  {
    IsDigit(c) || c == ',' || c == '.' || c == '-'
  }

  /** The kept characters, listed one by one. */
  lemma NumericCharListed(c: char)
    ensures NumericChar(c) <==> c in "0123456789,.-"
  {
  }

  predicate NumericText(s: string)
  {
    forall i :: 0 <= i < |s| ==> NumericChar(s[i])
  }

  /** A decimal literal `[-]whole[.fraction]`; `fraction` is `None` when
      there is no dot at all and `Some([])` for a trailing dot (`"5."`). */
  datatype Literal = Literal(negative: bool, whole: string, fraction: Option<string>)
  {
    predicate Valid()
    {
      && AllDigits(whole)
      && (fraction.Some? ==> AllDigits(fraction.value))
      && (|whole| > 0 || (fraction.Some? && |fraction.value| > 0))
    }
  }

  /** The text of a literal. */
  function Spell(lit: Literal): (s: string)
    ensures lit.Valid() ==> |s| > 0 && NumericText(s) && ',' !in s
  {
    UnsignedText(lit.whole, lit.fraction);
    (if lit.negative then "-" else "") + Unsigned(lit.whole, lit.fraction)
  }

  /** The text of a literal after its sign. */
  function Unsigned(whole: string, fraction: Option<string>): (s: string)
    ensures |whole| > 0 ==> |s| > 0 && s[0] == whole[0]
    ensures |whole| == 0 && fraction.Some? ==> |s| > 0 && s[0] == '.'
  {
    match fraction
    case None => whole
    case Some(f) => whole + ['.'] + f
  }

  /** The text of digits around an optional dot is numeric text without a
      comma or a minus sign. */
  lemma UnsignedText(whole: string, fraction: Option<string>)
    ensures AllDigits(whole) && (fraction.Some? ==> AllDigits(fraction.value)) ==>
      && NumericText(Unsigned(whole, fraction))
      && ',' !in Unsigned(whole, fraction) && '-' !in Unsigned(whole, fraction)
  {
  }

  function DigitValue(c: char): (r: nat)
    requires IsDigit(c)
    ensures r < 10
  {
    c as int - '0' as int
  }

  /** The number a string of decimal digits denotes, read left to right:
      `acc` is the value of the digits already read. */
  function WholeValue(acc: nat, ds: string): (r: nat)
    requires AllDigits(ds)
    ensures r >= acc
    decreases |ds|
  {
    if |ds| == 0 then acc
    else WholeValue(acc * 10 + DigitValue(ds[0]), ds[1..])
  }

  /** The number the digits after a decimal point denote; always in [0, 1). */
  function FractionValue(ds: string): (r: real)
    requires AllDigits(ds)
    ensures 0.0 <= r < 1.0
  {
    if |ds| == 0 then 0.0
    else (DigitValue(ds[0]) as real + FractionValue(ds[1..])) / 10.0
  }

  /** The exact value of a literal. */
  function Value(lit: Literal): (v: real)
    requires lit.Valid()
    ensures lit.negative ==> v <= 0.0
    ensures !lit.negative ==> v >= 0.0
  {
    var magnitude := WholeValue(0, lit.whole) as real
      + (match lit.fraction
         case None => 0.0
         case Some(f) => FractionValue(f));
    if lit.negative then -magnitude else magnitude
  }

  /** Ten to the power `n`. */
  function Pow10(n: nat): (r: nat)
    ensures r >= 1
  {
    if n == 0 then 1 else 10 * Pow10(n - 1)
  }

  /** `x` with the decimal point moved `n` places to the right, that is
      `x` times ten to the `n`. */
  function Shifted(x: real, n: nat): (r: real)
    ensures x >= 0.0 ==> r >= x
    decreases n
  {
    if n == 0 then x else Shifted(10.0 * x, n - 1)
  }

  /** Moving the decimal point is additive. */
  lemma {:induction false} ShiftedAdd(x: real, y: real, n: nat)
    ensures Shifted(x + y, n) == Shifted(x, n) + Shifted(y, n)
    decreases n
  {
    if n > 0 {
      ShiftedAdd(10.0 * x, 10.0 * y, n - 1);
    }
  }

  /** Moving the decimal point of a whole number multiplies it by a power of ten. */
  lemma {:induction false} ShiftedWhole(a: nat, n: nat)
    ensures Shifted(a as real, n) == (a * Pow10(n)) as real
    decreases n
  {
    if n > 0 {
      ShiftedWhole(10 * a, n - 1);
      assert (10 * a) * Pow10(n - 1) == a * Pow10(n) by {
        assert Pow10(n) == 10 * Pow10(n - 1);
      }
    }
  }

  /** Reading digits after a prefix worth `acc` multiplies the prefix's
      worth by ten per digit read, and adds what the digits alone are worth. */
  lemma {:induction false} WholeValueShift(acc: nat, ds: string)
    requires AllDigits(ds)
    ensures WholeValue(acc, ds) as real == Shifted(acc as real, |ds|) + WholeValue(0, ds) as real
    decreases |ds|
  {
    if |ds| > 0 {
      var d, t := DigitValue(ds[0]), ds[1..];
      calc {
        WholeValue(acc, ds) as real;
        WholeValue(acc * 10 + d, t) as real;
        { WholeValueShift(acc * 10 + d, t); }
        Shifted((acc * 10 + d) as real, |t|) + WholeValue(0, t) as real;
        { ShiftedAdd(10.0 * acc as real, d as real, |t|); }
        Shifted(10.0 * acc as real, |t|) + Shifted(d as real, |t|) + WholeValue(0, t) as real;
        { WholeValueShift(d, t); }
        Shifted(acc as real, |ds|) + WholeValue(d, t) as real;
      }
    }
  }

  /** The digits after a decimal point, with the point moved past all of
      them, are worth what the same digits are worth as a whole number. */
  lemma {:induction false} FractionValueScaled(ds: string)
    requires AllDigits(ds)
    ensures Shifted(FractionValue(ds), |ds|) == WholeValue(0, ds) as real
  {
    if |ds| > 0 {
      var d, t := DigitValue(ds[0]), ds[1..];
      calc {
        Shifted(FractionValue(ds), |ds|);
        Shifted(10.0 * FractionValue(ds), |t|);
        Shifted(d as real + FractionValue(t), |t|);
        { ShiftedAdd(d as real, FractionValue(t), |t|); }
        Shifted(d as real, |t|) + Shifted(FractionValue(t), |t|);
        { FractionValueScaled(t); }
        Shifted(d as real, |t|) + WholeValue(0, t) as real;
        { WholeValueShift(d, t); }
        WholeValue(d, t) as real;
      }
    }
  }

  /** An independent reading of a decimal literal: `whole.fraction` with
      its decimal point moved past the fraction digits is the number that the
      digits of `whole` followed by those of `fraction` denote. */
  lemma ValueScaled(whole: string, fraction: string)
    requires Literal(false, whole, Some(fraction)).Valid()
    ensures Shifted(Value(Literal(false, whole, Some(fraction))), |fraction|)
         == WholeValue(0, whole + fraction) as real
  {
    var w, n := WholeValue(0, whole), |fraction|;
    calc {
      Shifted(Value(Literal(false, whole, Some(fraction))), n);
      Shifted(w as real + FractionValue(fraction), n);
      { ShiftedAdd(w as real, FractionValue(fraction), n); }
      Shifted(w as real, n) + Shifted(FractionValue(fraction), n);
      { FractionValueScaled(fraction); }
      Shifted(w as real, n) + WholeValue(0, fraction) as real;
      { WholeValueShift(w, fraction); }
      WholeValue(w, fraction) as real;
      { WholeValueRead(0, whole, fraction); }
      WholeValue(0, whole + fraction) as real;
    }
  }

  /** Reading `a + b` reads `a` and then continues with `b` from there. */
  lemma {:induction false} WholeValueRead(acc: nat, a: string, b: string)
    requires AllDigits(a) && AllDigits(b)
    ensures WholeValue(acc, a + b) == WholeValue(WholeValue(acc, a), b)
    decreases |a|
  {
    if |a| == 0 {
      assert a + b == b;
    } else {
      assert (a + b)[0] == a[0] && (a + b)[1..] == a[1..] + b;
      WholeValueRead(acc * 10 + DigitValue(a[0]), a[1..], b);
    }
  }

  /** Splits text at its first dot: the part before it, and the part after
      it when there is a dot at all. */
  function SplitAtDot(s: string): (r: (string, Option<string>))
    ensures '.' !in r.0
    ensures Unsigned(r.0, r.1) == s
  {
    if |s| == 0 then ([], None)
    else if s[0] == '.' then
      assert s == [] + ['.'] + s[1..];
      ([], Some(s[1..]))
    else
      var rest := SplitAtDot(s[1..]);
      assert Unsigned([s[0]] + rest.0, rest.1) == [s[0]] + s[1..] by {
        if rest.1.Some? {
          assert [s[0]] + rest.0 + ['.'] + rest.1.value == [s[0]] + (rest.0 + ['.'] + rest.1.value);
        }
      }
      ([s[0]] + rest.0, rest.1)
  }

  /** Splitting the text of `whole` and `fraction` at its first dot gives
      them back, as long as `whole` holds no dot. */
  lemma {:induction false} SplitAtDotUnsigned(whole: string, fraction: Option<string>)
    requires '.' !in whole
    ensures SplitAtDot(Unsigned(whole, fraction)) == (whole, fraction)
  {
    var s := Unsigned(whole, fraction);
    if |whole| > 0 {
      var tail := Unsigned(whole[1..], fraction);
      assert s == [whole[0]] + tail by {
        match fraction
        case None =>
        case Some(f) => assert whole + ['.'] + f == [whole[0]] + (whole[1..] + ['.'] + f);
      }
      assert s[0] != '.' && s[1..] == tail;
      SplitAtDotUnsigned(whole[1..], fraction);
      assert whole == [whole[0]] + whole[1..];
    } else if fraction.Some? {
      assert s == ['.'] + fraction.value;
    }
  }

  /** Reads an unsigned literal back from its text. */
  function LexUnsigned(body: string): (r: Option<Literal>)
    ensures r.Some? ==> r.value.Valid() && !r.value.negative && Unsigned(r.value.whole, r.value.fraction) == body
  {
    var parts := SplitAtDot(body);
    var lit := Literal(false, parts.0, parts.1);
    if lit.Valid() then Some(lit) else None
  }

  /** Reads a literal back from its text; `None` when the text is not one. */
  function Lex(s: string): (r: Option<Literal>)
    ensures r.Some? ==> r.value.Valid() && Spell(r.value) == s
  {
    if |s| > 0 && s[0] == '-' then
      match LexUnsigned(s[1..])
      case None => None
      case Some(lit) =>
        assert s == "-" + s[1..];
        Some(lit.(negative := true))
    else LexUnsigned(s)
  }

  /** An unsigned valid literal is read back from its own text. */
  lemma LexUnsignedSpell(whole: string, fraction: Option<string>)
    requires Literal(false, whole, fraction).Valid()
    ensures LexUnsigned(Unsigned(whole, fraction)) == Some(Literal(false, whole, fraction))
  {
    assert '.' !in whole;
    SplitAtDotUnsigned(whole, fraction);
  }

  /** Every valid literal is read back from its own text. */
  lemma LexSpell(lit: Literal)
    requires lit.Valid()
    ensures Lex(Spell(lit)) == Some(lit)
  {
    var body := Unsigned(lit.whole, lit.fraction);
    LexUnsignedSpell(lit.whole, lit.fraction);
    if lit.negative {
      assert Spell(lit)[1..] == body;
    } else {
      assert Spell(lit) == body;
      assert |lit.whole| > 0 ==> IsDigit(body[0]);
    }
  }

  /** `Number(s)` for a string over the numeric alphabet; `None` is NaN. */
  function Number(s: string): (r: Option<real>)
    requires NumericText(s)
    ensures s == [] ==> r == Some(0.0)
    ensures s != [] && r.Some? ==>
      exists lit: Literal :: lit.Valid() && Spell(lit) == s && Value(lit) == r.value
    ensures s != [] && r.None? ==> forall lit: Literal :: lit.Valid() ==> Spell(lit) != s
  {
    if s == [] then Some(0.0)
    else
      match Lex(s)
      case None =>
        assert forall lit: Literal :: lit.Valid() ==> Spell(lit) != s by {
          forall lit: Literal | lit.Valid() ensures Spell(lit) != s {
            LexSpell(lit);
          }
        }
        None
      case Some(lit) => Some(Value(lit))
  }

  /** The text of a valid literal converts to exactly that literal's value. */
  lemma NumberSpell(lit: Literal)
    requires lit.Valid()
    ensures Number(Spell(lit)) == Some(Value(lit))
  {
    LexSpell(lit);
  }

  /** A comma never survives into a number. */
  lemma NumberRejectsComma(s: string)
    requires NumericText(s) && ',' in s
    ensures Number(s) == None
  {
  }
}

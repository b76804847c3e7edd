/** The `toNum` normaliser of the price endpoint: it turns Steam's formatted
    price strings (`"0,73 €"`, `"$1.50"`, `"1.234,56"`) into numbers, or into
    `null` when there is nothing usable. */
module PriceNumber {
  import opened Wrappers
  import opened JsString
  import opened JsNumber

  /** The strip step, `s.replace(/[^\d,.\-]/g, "")`: only digits, `,`, `.`
      and `-` survive, each as often as it occurred and in the same order. */
  function Clean(s: string): (r: string)
    ensures NumericText(r)
    ensures |r| <= |s|
    ensures NumericText(s) ==> r == s
  {
    if |s| == 0 then []
    else
      (if NumericChar(s[0]) then [s[0]] else []) + Clean(s[1..])
  }

  /** Each kept character occurs as often after the strip as before; every
      other character is gone. */
  lemma {:induction false} CleanCounts(s: string)
    ensures forall c :: multiset(Clean(s))[c] == if NumericChar(c) then multiset(s)[c] else 0
  {
    if |s| > 0 {
      assert s == [s[0]] + s[1..];
      CleanCounts(s[1..]);
    }
  }

  /** Stripping works piece by piece, so the kept characters keep their order. */
  lemma {:induction false} CleanConcat(a: string, b: string)
    ensures Clean(a + b) == Clean(a) + Clean(b)
  {
    if |a| == 0 {
      assert a + b == b;
    } else {
      var head: string := if NumericChar(a[0]) then [a[0]] else [];
      calc {
        Clean(a + b);
        { assert (a + b)[0] == a[0]; assert (a + b)[1..] == a[1..] + b; }
        head + Clean(a[1..] + b);
        { CleanConcat(a[1..], b); }
        head + (Clean(a[1..]) + Clean(b));
        (head + Clean(a[1..])) + Clean(b);
        Clean(a) + Clean(b);
      }
    }
  }

  /** Text with no kept character at all. */
  predicate NothingKept(s: string)
  {
    forall i :: 0 <= i < |s| ==> !NumericChar(s[i])
  }

  /** Decorations around a price (currency signs, codes, spaces) are
      stripped and the numeric core is left exactly as it was. */
  lemma CleanDropsDecorations(before: string, core: string, after: string)
    requires NothingKept(before) && NumericText(core) && NothingKept(after)
    ensures Clean(before + core + after) == core
  {
    CleanConcat(before + core, after);
    CleanConcat(before, core);
    CleanNothingKept(before);
    CleanNothingKept(after);
  }

  /** Text with no kept character strips to nothing. */
  lemma CleanNothingKept(s: string)
    requires NothingKept(s)
    ensures Clean(s) == []
  {
    CleanCounts(s);
  }

  /** Stripping twice is stripping once. */
  lemma CleanIdempotent(s: string)
    ensures Clean(Clean(s)) == Clean(s)
  {
  }

  /** The European-format test: there is a comma, and the last comma comes
      after the last dot (a missing dot counts as position -1). */
  predicate EuropeanFormat(s: string): (r: bool)
    ensures r <==> exists i :: 0 <= i < |s| && s[i] == ',' && NoDotAfter(s, i)
  {
    var comma, dot := LastIndexOf(s, ','), LastIndexOf(s, '.');
    assert comma >= 0 ==> (NoDotAfter(s, comma) <==> comma > dot);
    Includes(s, ',') && comma > dot
  }

  /** No dot follows position `i`. */
  predicate NoDotAfter(s: string, i: nat)
  {
    forall j :: i < j < |s| ==> s[j] != '.'
  }

  /** The European-format rewrite: when it applies, every dot (a thousands
      separator) is dropped and the first comma becomes the decimal point;
      otherwise the string is left as it is. */
  function EuroRewrite(s: string): (r: string)
    ensures r != s <==> EuropeanFormat(s)
    ensures EuropeanFormat(s) ==>
      var undotted := RemoveAll(s, '.');
      var k := IndexOf(undotted, ',');
      && 0 <= k && |r| == |undotted| && r[k] == '.'
      && forall j :: 0 <= j < |r| && j != k ==> r[j] == undotted[j]
    ensures NumericText(s) ==> NumericText(r)
  {
    if EuropeanFormat(s) then
      var undotted := RemoveAll(s, '.');
      RemoveAllCounts(s, '.');
      assert multiset(undotted)[','] == multiset(s)[','];
      ReplaceFirstCounts(undotted, ',', '.');
      var r := ReplaceFirst(undotted, ',', '.');
      assert multiset(r)[','] != multiset(s)[','];
      assert NumericText(s) ==> NumericText(r) by {
        if NumericText(s) {
          RewriteKeepsNumeric(s);
        }
      }
      r
    else s
  }

  /** Dropping the dots and turning the first comma into a point keeps
      numeric text numeric. */
  lemma RewriteKeepsNumeric(s: string)
    requires NumericText(s)
    ensures NumericText(ReplaceFirst(RemoveAll(s, '.'), ',', '.'))
  {
    var undotted := RemoveAll(s, '.');
    var r := ReplaceFirst(undotted, ',', '.');
    RemoveAllCounts(s, '.');
    forall i | 0 <= i < |r| ensures NumericChar(r[i]) {
      if r[i] != '.' {
        assert r[i] == undotted[i] && undotted[i] in multiset(undotted);
      }
    }
  }

  /** When the rewrite fires, the result holds exactly one dot and one comma
      fewer than the input; every other character keeps its count. */
  lemma EuroRewriteCounts(s: string)
    requires EuropeanFormat(s)
    ensures multiset(EuroRewrite(s))['.'] == 1
    ensures multiset(EuroRewrite(s))[','] == multiset(s)[','] - 1
    ensures forall x :: x != '.' && x != ',' ==> multiset(EuroRewrite(s))[x] == multiset(s)[x]
  {
    RemoveAllCounts(s, '.');
    assert multiset(RemoveAll(s, '.'))[','] == multiset(s)[','];
    ReplaceFirstCounts(RemoveAll(s, '.'), ',', '.');
  }

  /** The string `Number` is applied to: stripped, then rewritten. */
  function Prepare(s: string): (r: string)
    ensures NumericText(r)
  {
    EuroRewrite(Clean(s))
  }

  /** `toNum`: `null` for a missing or empty price, for text that is not a
      decimal number once prepared, and for the bogus value 0.25; otherwise the
      value the prepared text spells (0 when nothing was kept at all). */
  function ToNum(s: Option<string>): (r: Option<real>)
    ensures s.None? || s.value == [] ==> r.None?
    ensures r != Some(0.25)
    ensures r.Some? ==>
      || (Prepare(s.value) == [] && r.value == 0.0)
      || exists lit: Literal :: lit.Valid() && Spell(lit) == Prepare(s.value) && Value(lit) == r.value
  {
    match s
    case None => None
    case Some(text) =>
      if text == [] then None
      else
        var n := Number(Prepare(text));
        if n.None? || n.value == 0.25 then None else n
  }

  /** A price whose prepared text spells a literal comes back as the
      literal's value, unless that value is 0.25. */
  lemma ToNumOfLiteral(s: string, lit: Literal)
    requires s != [] && lit.Valid() && Prepare(s) == Spell(lit) && Value(lit) != 0.25
    ensures ToNum(Some(s)) == Some(Value(lit))
  {
    NumberSpell(lit);
  }

  /** A price that is a literal in plain decimal notation, once stripped of
      currency signs and other decorations, comes back as its value. */
  lemma ToNumPlain(text: string, lit: Literal)
    requires lit.Valid() && Value(lit) != 0.25
    requires Clean(text) == Spell(lit)
    ensures ToNum(Some(text)) == Some(Value(lit))
  {
    assert Prepare(text) == Prepare(Spell(lit));
    ToNumOfLiteral(text, lit);
  }

  /** The text of a literal written the European way: `grouped` holds the
      whole digits with any dots inserted as thousands separators, and a
      comma stands for the decimal point. */
  function SpellEuropean(negative: bool, grouped: string, fraction: string): string
  {
    (if negative then "-" else "") + grouped + [','] + fraction
  }

  predicate GroupedDigits(s: string)
  {
    forall i :: 0 <= i < |s| ==> IsDigit(s[i]) || s[i] == '.'
  }

  /** European text is recognised as European: its one comma comes after
      every dot. */
  lemma EuropeanTextIsEuropean(negative: bool, grouped: string, fraction: string)
    requires GroupedDigits(grouped) && AllDigits(fraction)
    ensures NumericText(SpellEuropean(negative, grouped, fraction))
    ensures EuropeanFormat(SpellEuropean(negative, grouped, fraction))
  {
    var sign: string := if negative then "-" else "";
    var head := sign + grouped + [','];
    var text := head + fraction;
    var comma := |sign + grouped|;
    assert |head| == comma + 1 && head[comma] == ',';
    forall j | comma <= j < |text| ensures text[j] != '.' {
      if j == comma {
        assert text[j] == head[comma];
      } else {
        assert text[j] == fraction[j - (comma + 1)];
      }
    }
    LastIndexOfOrder(text, '.', ',', comma);
  }

  /** Dropping the dots of European text leaves the sign, the bare digits,
      the comma and the fraction. */
  lemma EuropeanTextUndotted(negative: bool, grouped: string, fraction: string)
    requires AllDigits(fraction)
    ensures RemoveAll(SpellEuropean(negative, grouped, fraction), '.')
         == (if negative then "-" else "") + RemoveAll(grouped, '.') + [','] + fraction
  {
    var sign: string := if negative then "-" else "";
    assert '.' !in sign && '.' !in [','];
    assert '.' !in fraction;
    RemoveAllConcat(sign + grouped + [','], fraction, '.');
    RemoveAllConcat(sign + grouped, [','], '.');
    RemoveAllConcat(sign, grouped, '.');
  }

  /** A price in European notation, with dots grouping the thousands and a
      decimal comma, and with any decorations around it, comes back as the value of the literal with the same
      digits, the dots dropped and the comma read as the decimal point. */
  lemma ToNumEuropean(text: string, lit: Literal, grouped: string)
    requires lit.Valid() && lit.fraction.Some? && Value(lit) != 0.25
    requires GroupedDigits(grouped) && RemoveAll(grouped, '.') == lit.whole
    requires Clean(text) == SpellEuropean(lit.negative, grouped, lit.fraction.value)
    ensures ToNum(Some(text)) == Some(Value(lit))
  {
    var european := SpellEuropean(lit.negative, grouped, lit.fraction.value);
    PrepareEuropean(lit, grouped);
    assert Prepare(text) == Prepare(european);
    ToNumOfLiteral(text, lit);
  }

  /** A European price followed by a currency sign or code strips to the
      European text itself. */
  lemma CleanEuropeanPrice(negative: bool, grouped: string, fraction: string, suffix: string)
    requires GroupedDigits(grouped) && AllDigits(fraction) && NothingKept(suffix)
    ensures Clean(SpellEuropean(negative, grouped, fraction) + suffix) == SpellEuropean(negative, grouped, fraction)
  {
    var european := SpellEuropean(negative, grouped, fraction);
    EuropeanTextIsEuropean(negative, grouped, fraction);
    assert european + suffix == [] + european + suffix;
    CleanDropsDecorations([], european, suffix);
  }

  /** Preparing European text yields the plain text of the same literal. */
  lemma PrepareEuropean(lit: Literal, grouped: string)
    requires lit.Valid() && lit.fraction.Some?
    requires GroupedDigits(grouped) && RemoveAll(grouped, '.') == lit.whole
    ensures Prepare(SpellEuropean(lit.negative, grouped, lit.fraction.value)) == Spell(lit)
  {
    var fraction := lit.fraction.value;
    var text := SpellEuropean(lit.negative, grouped, fraction);
    EuropeanTextIsEuropean(lit.negative, grouped, fraction);
    EuropeanTextUndotted(lit.negative, grouped, fraction);
    assert Clean(text) == text;
    CommaToPoint(lit);
  }

  /** Turning the first comma of `[-]whole,fraction` into a point gives the
      literal's own text. */
  lemma CommaToPoint(lit: Literal)
    requires lit.Valid() && lit.fraction.Some?
    ensures ReplaceFirst((if lit.negative then "-" else "") + lit.whole + [','] + lit.fraction.value, ',', '.')
         == Spell(lit)
  {
    var sign: string := if lit.negative then "-" else "";
    var front := sign + lit.whole;
    var undotted := front + [','] + lit.fraction.value;
    var spelled := front + ['.'] + lit.fraction.value;
    assert Spell(lit) == spelled;
    assert ',' !in front;
    assert IndexOf(undotted, ',') == |front|;
    var r := ReplaceFirst(undotted, ',', '.');
    assert forall j :: 0 <= j < |r| ==> r[j] == spelled[j];
  }

  /** With the dot after the last comma (US grouping such as `"1,234.56"`),
      the comma is kept and the price is `null`. */
  lemma ToNumCommaBeforeDot(s: string)
    requires s != []
    requires ',' in Clean(s) && LastIndexOf(Clean(s), ',') < LastIndexOf(Clean(s), '.')
    ensures ToNum(Some(s)) == None
  {
    assert Prepare(s) == Clean(s);
    NumberRejectsComma(Clean(s));
  }

  /** Digits with commas as thousands separators, US style. */
  predicate CommaGrouped(s: string)
  {
    forall i :: 0 <= i < |s| ==> IsDigit(s[i]) || s[i] == ','
  }

  /** A price in US notation, with commas grouping the thousands and a
      decimal point after them, keeps its commas and comes back as `null`. */
  lemma ToNumUsStyle(text: string, grouped: string, fraction: string)
    requires ',' in grouped && CommaGrouped(grouped) && AllDigits(fraction)
    requires Clean(text) == grouped + ['.'] + fraction
    ensures ToNum(Some(text)) == None
  {
    var head := grouped + ['.'];
    var s := head + fraction;
    var k := |grouped|;
    assert |head| == k + 1 && s[k] == head[k] == '.';
    forall j | k < j < |s| ensures s[j] != ',' {
      assert s[j] == fraction[j - (k + 1)];
    }
    assert !EuropeanFormat(s) by {
      forall m | 0 <= m < |s| && s[m] == ',' ensures !NoDotAfter(s, m) {
        assert m < k && s[k] == '.';
      }
    }
    assert Prepare(text) == s;
    var i :| 0 <= i < |grouped| && grouped[i] == ',';
    assert s[i] == ',';
    NumberRejectsComma(s);
  }

  /** A non-empty price with none of the kept characters strips to the empty
      string, which `Number` reads as 0: the result is 0, not `null`. */
  lemma ToNumNothingKept(s: string)
    requires s != [] && NothingKept(s)
    ensures ToNum(Some(s)) == Some(0.0)
  {
    CleanNothingKept(s);
  }

  /** `"0,73 €"`, the case the source's own comment names, is 0.73. */
  lemma ToNumEuroCents(text: string)
    requires text == "0,73 €"
    ensures ToNum(Some(text)) == Some(0.73)
  {
    var lit := Literal(false, "0", Some("73"));
    assert Value(lit) == 0.73;
    assert text == SpellEuropean(false, "0", "73") + " €";
    CleanEuropeanPrice(false, "0", "73", " €");
    ToNumEuropean(text, lit, "0");
  }

  /** The pieces of `"1.234,56"`: one dot grouping the thousands of 1234. */
  lemma EuroThousandsPieces(text: string)
    requires text == "1.234,56"
    ensures Clean(text) == SpellEuropean(false, "1.234", "56")
  {
    assert NumericText(text);
  }

  /** `"1.234"` is digits grouped by one dot, and without it reads `"1234"`. */
  lemma EuroThousandsGrouping()
    ensures GroupedDigits("1.234") && RemoveAll("1.234", '.') == "1234"
  {
  }

  /** The digits 1234 and 56 around a decimal point are 1234.56. */
  lemma EuroThousandsValue()
    ensures Value(Literal(false, "1234", Some("56"))) == 1234.56
  {
    assert WholeValue(0, "1234") == 1234;
  }

  /** `"1.234,56"`: the dot groups thousands, the comma is the decimal point. */
  lemma ToNumEuroThousands(text: string)
    requires text == "1.234,56"
    ensures ToNum(Some(text)) == Some(1234.56)
  {
    EuroThousandsValue();
    EuroThousandsPieces(text);
    EuroThousandsGrouping();
    ToNumEuropean(text, Literal(false, "1234", Some("56")), "1.234");
  }

  /** `"$1.50 USD"`: currency decorations are stripped, the dot is decimal. */
  lemma ToNumDollars(text: string)
    requires text == "$1.50 USD"
    ensures ToNum(Some(text)) == Some(1.5)
  {
    var lit := Literal(false, "1", Some("50"));
    assert Value(lit) == 1.5;
    assert Clean(text) == Spell(lit) by {
      assert text == "$" + "1.50" + " USD";
      CleanDropsDecorations("$", "1.50", " USD");
    }
    ToNumPlain(text, lit);
  }

  /** `"1,234.56"`: US grouping keeps its comma and is `null`. */
  lemma ToNumUsGrouping(text: string)
    requires text == "1,234.56"
    ensures ToNum(Some(text)) == None
  {
    assert Clean(text) == "1,234" + ['.'] + "56" by {
      assert NumericText(text);
    }
    ToNumUsStyle(text, "1,234", "56");
  }

  /** `"€"` alone strips to nothing and reads as 0, not `null`. */
  lemma ToNumEuroSignOnly(text: string)
    requires text == "€"
    ensures ToNum(Some(text)) == Some(0.0)
  {
    ToNumNothingKept(text);
  }

  /** `"0,25€"` reads as 0.25, which is filtered out as bogus. */
  lemma ToNumQuarterFiltered(text: string)
    requires text == "0,25€"
    ensures ToNum(Some(text)) == None
  {
    var lit := Literal(false, "0", Some("25"));
    assert Value(lit) == 0.25;
    assert text == SpellEuropean(false, "0", "25") + "€";
    CleanEuropeanPrice(false, "0", "25", "€");
    PrepareEuropean(lit, "0");
    assert Prepare(text) == Spell(lit);
    NumberSpell(lit);
  }
}

/** The metric-suffix parser applied to the displacement and load columns. */
module Units {
  import opened Cells
  import opened Decimal

  /** The metric-prefix table: suffix character to scale factor. */
  const UnitConversion: map<char, real> := map[
    'f' := 0.000000000000001,  // femto
    'p' := 0.000000000001,     // pico
    'u' := 0.000001,           // micro
    'n' := 0.000000001,        // nano
    'm' := 0.001               // milli
  ]

  /** A number times a prefix's factor. Kept as a function of its own so that
      equal operands are seen to give equal products without arithmetic. */
  function Scaled(number: real, factor: real): real
  {
    number * factor
  }

  /** convert_unit: a string whose last character is a known prefix becomes the
      number before that character times the prefix's factor; other strings and
      all non-strings are returned as they are. An empty string fails at its
      last character, and a known suffix after a non-number fails in float(). */
  function ConvertUnit(c: Cell, unitMap: map<char, real>): (r: Result<Cell>)
    ensures !c.Str? ==> r == Ok(c)
    ensures c.Str? && c.s == [] ==> r == Err(IndexError)
    ensures c.Str? && c.s != [] && c.s[|c.s| - 1] !in unitMap ==> r == Ok(c)
    ensures c.Str? && c.s != [] && c.s[|c.s| - 1] in unitMap && ParseReal(c.s[..|c.s| - 1]).None? ==>
      r == Err(ValueError)
    ensures c.Str? && c.s != [] && c.s[|c.s| - 1] in unitMap && ParseReal(c.s[..|c.s| - 1]).Some? ==>
      r == Ok(Num(Scaled(ParseReal(c.s[..|c.s| - 1]).value, unitMap[c.s[|c.s| - 1]])))
  {
    if !c.Str? then
      Ok(c)
    else if |c.s| == 0 then
      Err(IndexError)                                  // value[-1] on ''
    else if c.s[|c.s| - 1] !in unitMap then
      Ok(c)
    else if ParseReal(c.s[..|c.s| - 1]).Some? then     // float(value[:-1])
      Ok(Num(Scaled(ParseReal(c.s[..|c.s| - 1]).value, unitMap[c.s[|c.s| - 1]])))
    else
      Err(ValueError)
  }

  /** The per-cell conversion the main loop applies to the unit columns. */
  function UnitCell(c: Cell): Result<Cell>
  {
    ConvertUnit(c, UnitConversion)
  }

  /** The table holds exactly the five prefixes, each a negative power of ten. */
  lemma {:induction false} UnitConversionTable()
    ensures UnitConversion.Keys == {'f', 'p', 'u', 'n', 'm'}
    ensures UnitConversion['f'] * 1000000000000000.0 == 1.0
    ensures UnitConversion['p'] * 1000000000000.0 == 1.0
    ensures UnitConversion['u'] * 1000000.0 == 1.0
    ensures UnitConversion['n'] * 1000000000.0 == 1.0
    ensures UnitConversion['m'] * 1000.0 == 1.0
  {
  }

  /** An unsigned literal, with or without a minus sign, followed by a prefix
      character converts to its signed value times the prefix's factor. */
  lemma {:induction false} ConvertUnitRoundTrip(negative: bool, s: string, v: real, unit: char)
    requires UnsignedLiteral(s, v) && unit in UnitConversion
    ensures UnitCell(Str(Signed(negative, s) + [unit]))
         == Ok(Num(Scaled(if negative then -v else v, UnitConversion[unit])))
  {
    ParseSigned(negative, s, v);
    SuffixedLiteral(Signed(negative, s), if negative then -v else v, unit);
  }

  /** In particular a fixed-point rendering followed by a prefix character
      converts to its value times the prefix's factor. */
  lemma {:induction false} ConvertUnitRendered(whole: nat, frac: nat, k: nat, unit: char)
    requires frac < Pow10(k) && unit in UnitConversion
    ensures UnitCell(Str(RenderFixed(whole, frac, k) + [unit]))
         == Ok(Num(Scaled(FixedValue(whole, frac, k), UnitConversion[unit])))
  {
    ParseRenderFixed(whole, frac, k);
    SuffixedLiteral(RenderFixed(whole, frac, k), FixedValue(whole, frac, k), unit);
  }

  lemma {:induction false} SuffixedLiteral(literal: string, v: real, unit: char)
    requires ParseReal(literal) == Some(v) && unit in UnitConversion
    ensures UnitCell(Str(literal + [unit])) == Ok(Num(Scaled(v, UnitConversion[unit])))
  {
    SuffixedLiteralIn(literal, v, unit, UnitConversion);
  }

  lemma {:induction false} SuffixedLiteralIn(literal: string, v: real, unit: char, unitMap: map<char, real>)
    requires ParseReal(literal) == Some(v) && unit in unitMap
    ensures ConvertUnit(Str(literal + [unit]), unitMap) == Ok(Num(Scaled(v, unitMap[unit])))
  {
    var s := literal + [unit];
    assert s != [] && s[|s| - 1] == unit;
    assert s[..|s| - 1] == literal;
  }

  /** A bare prefix character, or a prefix after text, is a ValueError (for
      example a header cell "nm"), not a pass-through. */
  lemma {:induction false} ConvertUnitBareSuffix(unit: char)
    requires unit in UnitConversion
    ensures UnitCell(Str([unit])) == Err(ValueError)
    ensures UnitCell(Str(['n', unit])) == Err(ValueError)
  {
    assert [unit][..0] == [];
    assert ['n', unit][..1] == ['n'];
    assert Trim([]) == [];
    assert Trim(['n']) == ['n'];
    assert IndexOfExp(['n']) == 1;
    assert IndexOf(['n'], '.') == 1;
    assert !AllDigits(['n']);
  }

  /** A written natural number without a prefix stays a string: "125" is not converted. */
  lemma {:induction false} ConvertUnitNoSuffix(whole: nat)
    ensures UnitCell(Str(NatToDigits(whole))) == Ok(Str(NatToDigits(whole)))
  {
    NatToDigitsValue(whole);
    var s := NatToDigits(whole);
    assert IsDigit(s[|s| - 1]);
  }
}

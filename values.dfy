/** Typed option values and `castToValue` (src/parse.ts:7-24). */
module Values {
  import opened Text
  import opened Options

  /** A typed value. `Num` is the value of an optionally signed decimal integer text;
      `NumText` stands for what JavaScript's floating-point `Number(raw)` makes of any
      other text (fractions, exponents, hexadecimal, `Infinity`, `NaN`), kept unevaluated. */
  datatype Value =
    | Str(s: string)
    | Strs(ss: seq<string>)
    | Bool(b: bool)
    | Num(n: int)
    | NumText(raw: string)

  /** A value fits a declared type name. */
  predicate HasType(v: Value, t: TypeName)
  {
    match t
    case StringType => v.Str?
    case StringArrayType => v.Strs?
    case BooleanType => v.Bool?
    case NumberType => v.Num? || v.NumText?
  }

  /** `Number(str)` for the texts this model evaluates: the empty text is 0, and an
      optional `+` or `-` followed by decimal digits is that integer. */
  function ToNumber(str: string): (r: Value)
    ensures r.Num? || r == NumText(str)
    ensures IsDigits(str) ==> r == Num(DecimalValue(str))
  {
    if IsDigits(str) then Num(DecimalValue(str))
    else if |str| > 1 && str[0] == '-' && IsDigits(str[1..]) then Num(0 - DecimalValue(str[1..]) as int)
    else if |str| > 1 && str[0] == '+' && IsDigits(str[1..]) then Num(DecimalValue(str[1..]))
    else NumText(str)
  }

  /** The decimal text of an integer, with a leading `-` when negative. */
  function IntToString(n: int): string
  {
    if n < 0 then "-" + NatToString(-n) else NatToString(n)
  }

  /** A number written out in decimal reads back as itself. */
  lemma {:induction false} NumberRoundTrip(n: int)
    ensures ToNumber(IntToString(n)) == Num(n)
  {
    if n < 0 {
      DecimalRoundTrip(-n);
      var s := IntToString(n);
      assert s[1..] == NatToString(-n);
      assert !IsDigits(s) by { assert !IsDigit(s[0]); }
    } else {
      DecimalRoundTrip(n);
    }
  }

  /** `castToValue(typeName)(str)`: the result always has the declared type; a `string`
      keeps the text as it is, a `string[]` wraps it in a one-element list, and a
      `boolean` is true exactly for the text `1`. */
  function CastToValue(typeName: TypeName, str: string): (r: Value)
    ensures HasType(r, typeName)
    ensures typeName == StringType ==> r == Str(str)
    ensures typeName == StringArrayType ==> r == Strs([str])
    ensures typeName == BooleanType ==> (r == Bool(true) <==> str == "1")
    ensures typeName == NumberType ==> r == ToNumber(str)
  {
    match typeName
    case StringType => Str(str)
    case StringArrayType => Strs([str])
    case BooleanType => Bool(str == "1")
    case NumberType => ToNumber(str)
  }

  /** The values the tests single out: only `1` is true; empty, `0` and `true` are false. */
  lemma BooleanCastExamples()
    ensures CastToValue(BooleanType, "1") == Bool(true)
    ensures CastToValue(BooleanType, "") == Bool(false)
    ensures CastToValue(BooleanType, "0") == Bool(false)
    ensures CastToValue(BooleanType, "true") == Bool(false)
  {
  }

  /** An empty number text is 0, as JavaScript's `Number("")` is. */
  lemma EmptyNumberIsZero()
    ensures CastToValue(NumberType, "") == Num(0)
  {
  }
}

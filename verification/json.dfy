/**
  The part of Jackson's tree model that the catalog touches: scalar field
  values of a metadata record, their text form (`JsonNode.asText`) and the
  `Long.parseLong` applied to that text by the duplicate check.
 */
module Json {
  import opened Base

  /** A scalar JSON value, as stored under "name", "type" or "size". */
  datatype Value = Str(s: string) | Num(n: int) | Null

  /** One metadata record: a JSON object of scalar fields. */
  type Object = map<string, Value>

  predicate IsDigit(c: char) {
    '0' <= c <= '9'
  }

  predicate AllDigits(t: string) {
    forall i :: 0 <= i < |t| ==> IsDigit(t[i])
  }

  function DigitChar(d: nat): (c: char)
    requires d < 10
    ensures IsDigit(c) && c as int - '0' as int == d
  {
    ('0' as int + d) as char
  }

  /** Decimal text of a natural number, without leading zeros. */
  function NatText(n: nat): (t: string)
    ensures |t| > 0 && AllDigits(t)
    ensures t[0] == '0' ==> n == 0
    decreases n
  {
    if n < 10 then [DigitChar(n)] else NatText(n / 10) + [DigitChar(n % 10)]
  }

  /** Decimal text of a number as `Long.toString` writes it. */
  function IntText(n: int): (t: string)
    ensures |t| > 0
    ensures n < 0 <==> t[0] == '-'
    ensures n >= 0 ==> AllDigits(t)
  {
    if n < 0 then "-" + NatText(-n) else NatText(n)
  }

  /** `JsonNode.asText`: a string as is, a number in decimal, null as "null". */
  function AsText(v: Value): (t: string)
    ensures v.Str? ==> t == v.s
    ensures v.Null? ==> t == "null"
    ensures v.Num? && MinLong <= v.n <= MaxLong ==> ParseLong(t) == Some(v.n)
  {
    match v
    case Str(s) => s
    case Num(n) => if MinLong <= n <= MaxLong then ParseLongOfIntText(n); IntText(n) else IntText(n)
    case Null => "null"
  }

  /** The text form of every field of a record. */
  function TextOf(o: Object): (t: map<string, string>)
    ensures t.Keys == o.Keys
    ensures forall f :: f in t ==> t[f] == AsText(o[f])
  {
    map f | f in o :: AsText(o[f])
  }

  /** Value of a string of decimal digits, most significant first. */
  function DigitsValue(t: string): nat
    requires AllDigits(t)
    decreases |t|
  {
    if |t| == 0 then 0
    else 10 * DigitsValue(t[..|t| - 1]) + (t[|t| - 1] as int - '0' as int)
  }

  /**
    `Long.parseLong`: an optional sign, one or more digits, and a value
    inside the range of a long; anything else raises NumberFormatException,
    here `None`.
   */
  function ParseLong(t: string): (r: Option<int>)
    ensures r.Some? ==> MinLong <= r.value <= MaxLong
    ensures r.Some? ==> |t| > 0 &&
                        var d := if t[0] == '-' || t[0] == '+' then t[1..] else t;
                        |d| > 0 && AllDigits(d)
    ensures |t| > 0 && AllDigits(t) ==>
              r == (if DigitsValue(t) <= MaxLong then Some(DigitsValue(t)) else None)
    ensures |t| > 1 && t[0] == '+' && AllDigits(t[1..]) ==>
              r == (if DigitsValue(t[1..]) <= MaxLong then Some(DigitsValue(t[1..])) else None)
    ensures |t| > 1 && t[0] == '-' && AllDigits(t[1..]) ==>
              r == (if DigitsValue(t[1..]) <= -MinLong then Some(-(DigitsValue(t[1..]) as int)) else None)
  {
    var signed := |t| > 0 && (t[0] == '-' || t[0] == '+');
    var digits := if signed then t[1..] else t;
    if |digits| == 0 || !AllDigits(digits) then None
    else
      var magnitude: int := DigitsValue(digits);
      var v := if signed && t[0] == '-' then -magnitude else magnitude;
      if MinLong <= v <= MaxLong then Some(v) else None
  }

  lemma {:induction false} DigitsValueOfNatText(n: nat)
    ensures DigitsValue(NatText(n)) == n
    decreases n
  {
    if n >= 10 {
      var t := NatText(n);
      assert t[..|t| - 1] == NatText(n / 10);
      DigitsValueOfNatText(n / 10);
    }
  }

  /** The text a number field is read back as parses to the same number. */
  lemma ParseLongOfIntText(n: int)
    requires MinLong <= n <= MaxLong
    ensures ParseLong(IntText(n)) == Some(n)
  {
    var t := IntText(n);
    if n < 0 {
      assert t[1..] == NatText(-n);
      DigitsValueOfNatText(-n);
    } else {
      assert t == NatText(n);
      DigitsValueOfNatText(n);
    }
  }
}

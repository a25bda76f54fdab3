/** JavaScript values as they reach the handlers of the notes service, with the
    two conversions the handlers rely on: truthiness (`!x`, `if (x)`, `x || d`)
    and `Number(s)` applied to a route parameter. */
module Js {

  datatype Option<+T> = None | Some(value: T) {
    function GetOr(default: T): T {
      match this
      case Some(v) => v
      case None => default
    }
  }

  datatype Result<+T, +E> = Ok(value: T) | Err(error: E)

  /** A value of a parsed JSON request body. `Undefined` stands for a property that
      is absent. Numbers are integers here (see README, "Left out"). */
  datatype JsValue =
    | Undefined
    | Null
    | Bool(b: bool)
    | Num(n: int)
    | Str(s: string)
    | Arr(items: seq<JsValue>)
    | Obj(fields: map<string, JsValue>)

  /** JavaScript truthiness: `undefined`, `null`, `false`, `0` and `""` are falsy,
      everything else (including empty arrays and objects) is truthy. */
  predicate Truthy(v: JsValue) {
    match v
    case Undefined => false
    case Null => false
    case Bool(b) => b
    case Num(n) => n != 0
    case Str(s) => s != ""
    case Arr(_) => true
    case Obj(_) => true
  }

  /** `v.length` for a value that is not `null` or `undefined`: a string's or an
      array's length, an object's own `length` property, and `undefined` for a
      boolean or a number. */
  function LengthOf(v: JsValue): JsValue {
    match v
    case Str(s) => Num(|s|)
    case Arr(items) => Num(|items|)
    case Obj(_) => Prop(v, "length")
    case _ => Undefined
  }

  /** Property read `v[key]`: only an object carries the named properties; any
      other value yields `undefined`. */
  function Prop(v: JsValue, key: string): JsValue {
    match v
    case Obj(fields) => if key in fields then fields[key] else Undefined
    case _ => Undefined
  }

  lemma FalsyHasNoProps(v: JsValue, key: string)
    requires !Truthy(v)
    ensures Prop(v, key) == Undefined
  {
  }

  // ---------------------------------------------------------------------------
  // Number(s) for a route parameter

  /** The ASCII white space that `Number` trims. */
  predicate IsSpace(c: char) {
    c == ' ' || c == '\t' || c == '\n' || c == '\r' || c == '\U{B}' || c == '\U{C}'
  }

  predicate IsDigit(c: char) {
    '0' <= c <= '9'
  }

  predicate AllDigits(s: string) {
    forall i :: 0 <= i < |s| ==> IsDigit(s[i])
  }

  function TrimStart(s: string): (t: string)
    ensures |t| <= |s|
  {
    if |s| > 0 && IsSpace(s[0]) then TrimStart(s[1..]) else s
  }

  function TrimEnd(s: string): (t: string)
    ensures |t| <= |s|
  {
    if |s| > 0 && IsSpace(s[|s| - 1]) then TrimEnd(s[..|s| - 1]) else s
  }

  function Trim(s: string): string {
    TrimEnd(TrimStart(s))
  }

  function DigitValue(c: char): nat
    requires IsDigit(c)
  {
    (c as int) - ('0' as int)
  }

  function DigitChar(d: nat): (c: char)
    requires d < 10
    ensures IsDigit(c) && DigitValue(c) == d
  {
    (('0' as int) + d) as char
  }

  /** The value of a string of decimal digits, most significant first. */
  function DigitsValue(s: string): nat
    requires AllDigits(s)
  {
    if |s| == 0 then 0 else 10 * DigitsValue(s[..|s| - 1]) + DigitValue(s[|s| - 1])
  }

  /** The decimal numeral of `n`, as Express hands a route such as `/notes/42`
      to the handler. */
  function DecimalString(n: nat): (s: string)
    ensures |s| >= 1 && AllDigits(s)
  {
    if n < 10 then [DigitChar(n)] else DecimalString(n / 10) + [DigitChar(n % 10)]
  }

  /** `Number(s)` restricted to the integer results the handlers can match:
      white space is trimmed, the empty string is 0, an optional sign may precede
      the digits. `None` stands for `NaN` and for every syntax outside this set. */
  function NumberOf(s: string): Option<int> {
    NumberOfTrimmed(Trim(s))
  }

  /** The fault a conversion can raise on a value parsed from JSON. */
  datatype Throw = TypeError

  /** Whether converting `v` to a primitive throws. JSON carries no functions,
      so an object with an own `toString` field has no callable `toString`, and
      its `valueOf`, own or inherited, yields no primitive either: the
      conversion throws a `TypeError`. An object without that field becomes
      "[object Object]". An array joins its elements, so it throws exactly when
      one of its elements does. */
  predicate ConversionThrows(v: JsValue)
    decreases v
  {
    match v
    case Obj(fields) => "toString" in fields
    case Arr(items) => exists i :: 0 <= i < |items| && ConversionThrows(items[i])
    case _ => false
  }

  /** The number `<` compares a value as when its conversion does not throw:
      `None` is `NaN`, which compares false with everything. An object becomes
      "[object Object]" and an array the comma-joined text of its elements, so
      only an empty array and a one-element array can be numbers. */
  function ToNumber(v: JsValue): Option<int>
    decreases v, 0
  {
    match v
    case Undefined => None
    case Null => Some(0)
    case Bool(b) => Some(if b then 1 else 0)
    case Num(n) => Some(n)
    case Str(s) => NumberOf(s)
    case Obj(_) => None
    case Arr(items) =>
      if |items| == 0 then Some(0)
      else if |items| == 1 then ElementNumber(items[0])
      else None
  }

  /** The number of the text an array element joins as: `null` and `undefined`
      join as "", a boolean as "true" or "false", an object as "[object Object]". */
  function ElementNumber(x: JsValue): Option<int>
    decreases x, 1
  {
    match x
    case Undefined => Some(0)
    case Null => Some(0)
    case Bool(_) => None
    case Num(n) => Some(n)
    case Str(s) => NumberOf(s)
    case Obj(_) => None
    case Arr(_) => ToNumber(x)
  }

  /** `v < n` for a number `n`: the `TypeError` of a conversion that throws,
      otherwise both sides as numbers, where `NaN` is never below. */
  function LessThan(v: JsValue, n: int): Result<bool, Throw> {
    if ConversionThrows(v) then Err(TypeError)
    else Ok(ToNumber(v).Some? && ToNumber(v).value < n)
  }

  /** Only objects and arrays can make a comparison throw; `null`, booleans,
      numbers and strings always compare. */
  lemma ComparisonThrowsIff(v: JsValue, n: int)
    ensures LessThan(v, n).Err? ==> v.Obj? || v.Arr?
    ensures v.Obj? ==> (LessThan(v, n).Err? <==> "toString" in v.fields)
    ensures v.Arr? ==> (LessThan(v, n).Err? <==> exists i :: 0 <= i < |v.items| && ConversionThrows(v.items[i]))
  {
  }

  function NumberOfTrimmed(t: string): Option<int> {
    if t == [] then Some(0)
    else if IsDigit(t[0]) then
      if AllDigits(t) then Some(DigitsValue(t)) else None
    else if (t[0] == '-' || t[0] == '+') && |t| > 1 && AllDigits(t[1..]) then
      var v := DigitsValue(t[1..]);
      if t[0] == '-' then Some(-(v as int)) else Some(v)
    else None
  }

  lemma {:induction false} DigitsValueOfDecimal(n: nat)
    ensures DigitsValue(DecimalString(n)) == n
  {
    var s := DecimalString(n);
    if n >= 10 {
      DigitsValueOfDecimal(n / 10);
      assert s[..|s| - 1] == DecimalString(n / 10);
    }
  }

  /** Parsing the numeral of an id gives the id back: the route `/notes/<id>`
      designates note `id`. */
  lemma NumberOfDecimal(n: nat)
    ensures NumberOf(DecimalString(n)) == Some(n)
  {
    var s := DecimalString(n);
    DigitsAreNotSpaces(s);
    NumberOfDigits(s);
    DigitsValueOfDecimal(n);
  }

  lemma DigitsAreNotSpaces(s: string)
    requires |s| >= 1 && AllDigits(s)
    ensures Trim(s) == s
  {
    assert TrimStart(s) == s;
  }

  lemma NumberOfDigits(s: string)
    requires |s| >= 1 && AllDigits(s)
    ensures NumberOfTrimmed(s) == Some(DigitsValue(s))
  {
  }

  /** A parameter with a character that is neither a digit, a sign nor white space
      is not a number, so it designates no note. */
  lemma NonNumericParam(s: string, i: nat)
    requires i < |s| && !IsDigit(s[i]) && !IsSpace(s[i]) && s[i] != '-' && s[i] != '+'
    ensures NumberOf(s) == None
  {
    var a := TrimStart(s);
    var t := TrimEnd(a);
    TrimStartIsSuffix(s);
    TrimEndIsPrefix(a);
    // s[i] survives trimming, since trimming only drops white space
    assert i >= |s| - |a| by {
      if i < |s| - |a| { TrimStartDropsSpaces(s, i); }
    }
    var k := i - (|s| - |a|);
    assert a[k] == s[i];
    assert k < |t| by {
      if k >= |t| { TrimEndDropsSpaces(a, k); }
    }
    assert t[k] == s[i];
    if k > 0 {
      assert t[1..][k - 1] == t[k];
    }
  }

  lemma {:induction false} TrimStartIsSuffix(s: string)
    ensures TrimStart(s) == s[|s| - |TrimStart(s)|..]
  {
    if |s| > 0 && IsSpace(s[0]) {
      TrimStartIsSuffix(s[1..]);
    }
  }

  lemma {:induction false} TrimEndIsPrefix(s: string)
    ensures TrimEnd(s) == s[..|TrimEnd(s)|]
  {
    if |s| > 0 && IsSpace(s[|s| - 1]) {
      TrimEndIsPrefix(s[..|s| - 1]);
    }
  }

  lemma {:induction false} TrimStartDropsSpaces(s: string, i: nat)
    requires i < |s| - |TrimStart(s)|
    ensures IsSpace(s[i])
  {
    if |s| > 0 && IsSpace(s[0]) && i > 0 {
      TrimStartDropsSpaces(s[1..], i - 1);
    }
  }

  lemma {:induction false} TrimEndDropsSpaces(s: string, i: nat)
    requires |TrimEnd(s)| <= i < |s|
    ensures IsSpace(s[i])
  {
    if |s| > 0 && IsSpace(s[|s| - 1]) && i < |s| - 1 {
      TrimEndDropsSpaces(s[..|s| - 1], i);
    }
  }
}

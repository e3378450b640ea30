/**
 * The values `JSON.parse` produces, plus `undefined`, and the JavaScript
 * property, index and destructuring reads the scraper applies to them.
 * A read that JavaScript rejects at run time yields `Err(TypeError)`.
 */
module JsValue {

  datatype Value =
    | Undefined
    | Null
    | Bool(b: bool)
    | Num(n: real)
    | Str(s: string)
    | Arr(items: seq<Value>)
    | Obj(fields: map<string, Value>)

  /** `SyntaxError` is what `JSON.parse` throws; `TypeError` what a bad read throws. */
  datatype Error = SyntaxError | TypeError

  datatype Result<+T> = Ok(value: T) | Err(error: Error)

  /** Reading any property of `undefined` or `null` throws. */
  predicate IsNullish(v: Value) {
    v.Undefined? || v.Null?
  }

  /** `v.key` for a key that is an own property only of objects. */
  function GetProp(v: Value, key: string): (r: Result<Value>)
    ensures r.Err? <==> IsNullish(v)
    ensures r.Err? ==> r.error == TypeError
    ensures r.Ok? && r.value != Undefined ==> v.Obj? && key in v.fields && r.value == v.fields[key]
    ensures v.Obj? && key in v.fields ==> r == Ok(v.fields[key])
  {
    match v
    case Undefined => Err(TypeError)
    case Null => Err(TypeError)
    case Obj(m) => Ok(if key in m then m[key] else Undefined)
    case _ => Ok(Undefined)
  }

  /** The number a string of decimal digits denotes, most significant digit first. */
  function DecimalValue(digits: string): int {
    if digits == [] then 0
    else 10 * DecimalValue(digits[..|digits| - 1]) + (digits[|digits| - 1] as int - '0' as int)
  }

  /** The decimal property name JavaScript uses for the array index `k`. */
  function IndexKey(k: nat): (r: string)
    ensures |r| >= 1
    ensures DecimalValue(r) == k
    ensures forall i :: 0 <= i < |r| ==> '0' <= r[i] <= '9'
    ensures r[0] == '0' <==> k == 0
    ensures k < 10 <==> |r| == 1
  {
    var digit := ['0' + ((k % 10) as char)];
    if k < 10 then
      assert DecimalValue(digit) == 10 * DecimalValue([]) + k % 10;
      digit
    else
      var r := IndexKey(k / 10) + digit;
      assert r[..|r| - 1] == IndexKey(k / 10);
      r
  }

  /** `v[k]`: an array element, a one-character string, or an object's `"k"` property. */
  function ElementAt(v: Value, k: nat): (r: Result<Value>)
    ensures r.Err? <==> IsNullish(v)
    ensures r.Err? ==> r.error == TypeError
    ensures v.Arr? ==> r == Ok(if k < |v.items| then v.items[k] else Undefined)
    ensures v.Str? ==> r == Ok(if k < |v.s| then Str([v.s[k]]) else Undefined)
    ensures v.Obj? ==> r == Ok(if IndexKey(k) in v.fields then v.fields[IndexKey(k)] else Undefined)
    ensures v.Num? || v.Bool? ==> r == Ok(Undefined)
  {
    match v
    case Undefined => Err(TypeError)
    case Null => Err(TypeError)
    case Arr(xs) => Ok(if k < |xs| then xs[k] else Undefined)
    case Str(s) => Ok(if k < |s| then Str([s[k]]) else Undefined)
    case Obj(m) => Ok(if IndexKey(k) in m then m[IndexKey(k)] else Undefined)
    case _ => Ok(Undefined)
  }

  /**
   * `const [a, b, c] = v`: iterates `v`, padding with `undefined`; only
   * arrays and strings are iterable among parsed values.
   */
  function Destructure3(v: Value): (r: Result<(Value, Value, Value)>)
    ensures r.Ok? <==> v.Arr? || v.Str?
    ensures r.Err? ==> r.error == TypeError
    ensures v.Arr? ==> r == Ok((
      if |v.items| > 0 then v.items[0] else Undefined,
      if |v.items| > 1 then v.items[1] else Undefined,
      if |v.items| > 2 then v.items[2] else Undefined))
    ensures v.Str? ==> r == Ok((
      if |v.s| > 0 then Str([v.s[0]]) else Undefined,
      if |v.s| > 1 then Str([v.s[1]]) else Undefined,
      if |v.s| > 2 then Str([v.s[2]]) else Undefined))
  {
    match v
    case Arr(xs) =>
      Ok((Nth(xs, 0), Nth(xs, 1), Nth(xs, 2)))
    case Str(s) =>
      var cs := seq(|s|, i requires 0 <= i < |s| => Str([s[i]]));
      Ok((Nth(cs, 0), Nth(cs, 1), Nth(cs, 2)))
    case _ => Err(TypeError)
  }

  /** Element `k` of a sequence, `undefined` past its end. */
  function Nth(xs: seq<Value>, k: nat): Value
  {
    if k < |xs| then xs[k] else Undefined
  }
}

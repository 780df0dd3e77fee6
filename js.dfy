/** The JavaScript runtime notions the handlers rely on: the shape of a
    decoded request body or lean document, truthiness, `typeof`, string
    length in UTF-16 code units, the `\s` character class and the decimal
    rendering of integers inside template literals. */
module Js {

  datatype Option<+T> = None | Some(value: T) {
    /** `x ?? d` for a value that is either present or nullish. */
    function GetOr(d: T): T {
      if Some? then value else d
    }
  }

  /** A value as it arrives from a JSON body or from a lean database read.
      `Undefined` stands for a missing property; numbers are the finite
      reals JSON can carry (NaN and the infinities are not modelled). */
  datatype Value =
    | Undefined
    | Null
    | Bool(b: bool)
    | Num(n: real)
    | Str(s: string)
    | Arr(items: seq<Value>)
    | Obj(fields: map<string, Value>)
    | ObjectId(hex: string)
    | Date(iso: string)

  /** Property read `o.k` (and `o?.k`): `undefined` unless `o` is a plain
      object holding the key. */
  function Get(o: Value, k: string): (r: Value)
    ensures r != Undefined ==> o.Obj? && k in o.fields && r == o.fields[k]
  {
    if o.Obj? && k in o.fields then o.fields[k] else Undefined
  }

  /** JavaScript truthiness. */
  predicate Truthy(v: Value) {
    match v
    case Undefined => false
    case Null => false
    case Bool(b) => b
    case Num(n) => n != 0.0
    case Str(s) => s != ""
    case _ => true
  }

  /** `v === undefined || v === null`, the test behind `??` and `?.`. */
  predicate Nullish(v: Value) {
    v.Undefined? || v.Null?
  }

  /** `typeof v === "object"` (for null too, as in JavaScript). */
  predicate TypeofObject(v: Value) {
    v.Null? || v.Arr? || v.Obj? || v.ObjectId? || v.Date?
  }

  /** `Number.isInteger(n)` for a finite number. */
  predicate IsInteger(n: real) {
    n.Floor as real == n
  }

  /** `s.length`: a code point above U+FFFF takes two UTF-16 code units. */
  function JsLength(s: string): (n: nat)
    ensures n >= |s|
    ensures n <= 2 * |s|
  {
    if s == [] then 0
    else (if s[0] as int > 0xFFFF then 2 else 1) + JsLength(s[1..])
  }

  /** The characters `\s` matches and `String.prototype.trim` removes:
      WhiteSpace and LineTerminator of ECMA-262. */
  predicate IsJsSpace(c: char) {
    var n := c as int;
    n == 0x20 || 0x09 <= n <= 0x0D || n == 0xA0 || n == 0x1680
    || 0x2000 <= n <= 0x200A || n == 0x2028 || n == 0x2029 || n == 0x202F
    || n == 0x205F || n == 0x3000 || n == 0xFEFF
  }

  /** `String(v)`: strings and ids render as themselves; `other` renders
      the values whose text the model does not spell out (numbers, arrays,
      objects, dates). */
  function JsString(v: Value, other: Value -> string): (r: string)
    ensures v.Str? ==> r == v.s
    ensures v.ObjectId? ==> r == v.hex
  {
    match v
    case Undefined => "undefined"
    case Null => "null"
    case Bool(b) => if b then "true" else "false"
    case Str(s) => s
    case ObjectId(h) => h
    case _ => other(v)
  }

  predicate IsDigit(c: char) {
    '0' <= c <= '9'
  }

  predicate IsLowerAscii(c: char) {
    'a' <= c <= 'z'
  }

  predicate IsUpperAscii(c: char) {
    'A' <= c <= 'Z'
  }

  /** The class `[a-zA-Z0-9_-]` shared by the public-id and YouTube-id patterns. */
  predicate IsIdChar(c: char) {
    IsLowerAscii(c) || IsUpperAscii(c) || IsDigit(c) || c == '_' || c == '-'
  }

  function DigitChar(d: nat): (c: char)
    requires d < 10
    ensures IsDigit(c)
  {
    ['0', '1', '2', '3', '4', '5', '6', '7', '8', '9'][d]
  }

  /** `${n}` for a natural number. */
  function NatToString(n: nat): (s: string)
    ensures |s| >= 1
    ensures forall i :: 0 <= i < |s| ==> IsDigit(s[i])
    decreases n
  {
    if n < 10 then [DigitChar(n)] else NatToString(n / 10) + [DigitChar(n % 10)]
  }

  /** `${n}` for an integer (in the range where JavaScript prints no exponent). */
  function IntToString(n: int): string {
    if n < 0 then "-" + NatToString(-n) else NatToString(n)
  }

  predicate StartsWith(s: string, prefix: string) {
    |prefix| <= |s| && s[..|prefix|] == prefix
  }

  /** `s` holds `w` at index `k`. */
  predicate OccursAt(s: string, w: string, k: int) {
    0 <= k && k + |w| <= |s| && s[k..k + |w|] == w
  }

  /** The rendering of a number is read back uniquely: two naturals with the
      same decimal form are equal. */
  lemma {:induction false} NatToStringInjective(m: nat, n: nat)
    requires NatToString(m) == NatToString(n)
    ensures m == n
    decreases m
  {
    var s, t := NatToString(m), NatToString(n);
    if m < 10 && n < 10 {
      assert [DigitChar(m)] == [DigitChar(n)];
    } else if 10 <= m && 10 <= n {
      var a, b := NatToString(m / 10), NatToString(n / 10);
      assert a + [DigitChar(m % 10)] == b + [DigitChar(n % 10)];
      assert |a| == |b|;
      assert a == s[..|a|] == t[..|b|] == b;
      assert DigitChar(m % 10) == s[|a|] == t[|b|] == DigitChar(n % 10);
      NatToStringInjective(m / 10, n / 10);
      DigitCharInjective(m % 10, n % 10);
    }
  }

  lemma DigitCharInjective(a: nat, b: nat)
    requires a < 10 && b < 10 && DigitChar(a) == DigitChar(b)
    ensures a == b
  {
  }
}

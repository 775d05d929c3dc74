/** The JavaScript built-ins the analyzer relies on, restricted to what the model needs:
    ASCII case mapping, the ECMAScript white-space set, `trim`, UTF-16 length, truthiness,
    and decimal `Number(s)` / `parseInt(s)` on strings. */
module JsRuntime {

  /** `\s` in a regular expression, and what `String.prototype.trim` removes: the
      WhiteSpace and LineTerminator code points of ECMA-262 (sections 12.2 and 12.3). */
  predicate IsSpace(c: char) {
    var n := c as int;
    n == 0x09 || n == 0x0A || n == 0x0B || n == 0x0C || n == 0x0D || n == 0x20 ||
    n == 0xA0 || n == 0x1680 || (0x2000 <= n <= 0x200A) || n == 0x2028 || n == 0x2029 ||
    n == 0x202F || n == 0x205F || n == 0x3000 || n == 0xFEFF
  }

  predicate IsDigit(c: char) {
    '0' <= c <= '9'
  }

  predicate IsAsciiLetter(c: char) {
    'a' <= c <= 'z' || 'A' <= c <= 'Z'
  }

  /** `toLowerCase` on one character, for ASCII only. */
  function ToLower(c: char): char {
    if 'A' <= c <= 'Z' then (c as int + 32) as char else c
  }

  function LowerString(s: string): string {
    seq(|s|, i requires 0 <= i < |s| => ToLower(s[i]))
  }

  /** Drops the leading white space. */
  function TrimStart(s: string): (r: string)
    ensures |r| <= |s| && r == s[|s| - |r|..]
    ensures r == [] || !IsSpace(r[0])
    ensures forall i :: 0 <= i < |s| - |r| ==> IsSpace(s[i])
    ensures s != [] && IsSpace(s[0]) ==> |r| < |s|
  {
    if s != [] && IsSpace(s[0]) then TrimStart(s[1..]) else s
  }

  /** Drops the trailing white space. */
  function TrimEnd(s: string): (r: string)
    ensures |r| <= |s| && r == s[..|r|]
    ensures r == [] || !IsSpace(r[|r| - 1])
    ensures forall i :: |r| <= i < |s| ==> IsSpace(s[i])
  {
    if s != [] && IsSpace(s[|s| - 1]) then TrimEnd(s[..|s| - 1]) else s
  }

  /** `String.prototype.trim`. */
  function Trim(s: string): string {
    TrimEnd(TrimStart(s))
  }

  /** `s.length`: JavaScript strings count UTF-16 code units, so a code point above
      U+FFFF counts twice. */
  function Utf16Length(s: string): (n: nat)
    ensures |s| <= n <= 2 * |s|
  {
    if s == [] then 0 else (if s[0] as int > 0xFFFF then 2 else 1) + Utf16Length(s[1..])
  }

  /** Lengths of concatenated strings add up. */
  lemma {:induction false} Utf16LengthAppend(a: string, b: string)
    ensures Utf16Length(a + b) == Utf16Length(a) + Utf16Length(b)
  {
    if a != [] {
      Utf16LengthAppend(a[1..], b);
      assert (a + b)[1..] == a[1..] + b;
    } else {
      assert a + b == b;
    }
  }

  lemma Utf16LengthOne(s: string)
    ensures Utf16Length(s) == 1 <==> |s| == 1 && s[0] as int <= 0xFFFF
  {
    if |s| == 1 {
      assert s[1..] == [];
    }
  }

  predicate OccursAt(haystack: string, needle: string, i: int) {
    0 <= i <= |haystack| - |needle| && haystack[i..i + |needle|] == needle
  }

  /** `haystack.includes(needle)`. */
  predicate Includes(haystack: string, needle: string) {
    exists i :: 0 <= i <= |haystack| - |needle| && OccursAt(haystack, needle, i)
  }

  lemma IncludesEmpty(haystack: string)
    ensures Includes(haystack, "")
  {
    assert OccursAt(haystack, "", 0);
  }

  lemma IncludesChar(haystack: string, c: char)
    ensures Includes(haystack, [c]) <==> c in haystack
  {
    if c in haystack {
      var i :| 0 <= i < |haystack| && haystack[i] == c;
      assert OccursAt(haystack, [c], i);
    }
    if Includes(haystack, [c]) {
      var i :| 0 <= i <= |haystack| - 1 && OccursAt(haystack, [c], i);
      assert haystack[i..i + 1] == [c];
      assert haystack[i] == c;
    }
  }

  /** A JavaScript number as far as the model needs one: an integer or NaN. */
  datatype Num = NaN | Int(i: int)

  /** A number is truthy unless it is 0 or NaN. */
  predicate NumTruthy(n: Num) {
    n.Int? && n.i != 0
  }

  /** A JSON request-body value. `Compound` stands for objects and arrays. */
  datatype JsValue = Undefined | Null | Boolean(b: bool) | Number(n: Num) | Text(s: string) | Compound

  /** JavaScript truthiness: `!v` is true for undefined, null, false, 0, NaN and "". */
  predicate Truthy(v: JsValue) {
    match v
    case Undefined => false
    case Null => false
    case Boolean(b) => b
    case Number(n) => NumTruthy(n)
    case Text(s) => s != ""
    case Compound => true
  }

  /** An optional sign followed by at least one decimal digit. */
  predicate IsDecimalLiteral(t: string) {
    var digits := if t != [] && (t[0] == '+' || t[0] == '-') then t[1..] else t;
    digits != [] && forall i :: 0 <= i < |digits| ==> IsDigit(digits[i])
  }

  lemma DecimalLiteralDigit(t: string)
    requires IsDecimalLiteral(t)
    ensures t[0] == '+' || t[0] == '-' ==> |t| >= 2 && IsDigit(t[1])
    ensures t[0] != '+' && t[0] != '-' ==> IsDigit(t[0])
  {
    if t[0] == '+' || t[0] == '-' {
      assert IsDigit(t[1..][0]);
    }
  }

  /** `!isNaN(s)` for a string `s`: `Number(s)` converts the trimmed text, and the empty
      text converts to 0. Only decimal integer literals are modelled as numeric. */
  predicate IsNumeric(s: string) {
    var t := Trim(s);
    t == [] || IsDecimalLiteral(t)
  }

  /** The longest prefix of decimal digits. */
  function DigitPrefix(s: string): (d: string)
    ensures |d| <= |s| && d == s[..|d|]
    ensures forall i :: 0 <= i < |d| ==> IsDigit(d[i])
    ensures |d| == |s| || !IsDigit(s[|d|])
  {
    if s != [] && IsDigit(s[0]) then [s[0]] + DigitPrefix(s[1..]) else []
  }

  function DigitValue(c: char): nat
    requires IsDigit(c)
  {
    c as int - '0' as int
  }

  /** The value of a string of decimal digits. */
  function DigitsValue(d: string): nat
    requires forall i :: 0 <= i < |d| ==> IsDigit(d[i])
  {
    if d == [] then 0 else DigitsValue(d[..|d| - 1]) * 10 + DigitValue(d[|d| - 1])
  }

  /** `parseInt(s)` in base 10: skip leading white space, read an optional sign and the
      digits that follow; NaN when there are none. */
  function ParseInt(s: string): Num {
    var t := TrimStart(s);
    var signed := t != [] && (t[0] == '+' || t[0] == '-');
    var d := DigitPrefix(if signed then t[1..] else t);
    if d == [] then NaN
    else
      var v: int := DigitsValue(d);
      if signed && t[0] == '-' then Int(-v) else Int(v)
  }

  /** The decimal digits of a natural number, most significant first. */
  function NatDigits(n: nat): (d: string)
    ensures d != [] && forall i :: 0 <= i < |d| ==> IsDigit(d[i])
  {
    if n < 10 then [('0' as int + n) as char]
    else NatDigits(n / 10) + [('0' as int + n % 10) as char]
  }

  /** How an integer is written in a query string. */
  function Decimal(n: int): string {
    if n < 0 then "-" + NatDigits(-n) else NatDigits(n)
  }

  lemma {:induction false} DigitsValueOfNatDigits(n: nat)
    ensures DigitsValue(NatDigits(n)) == n
  {
    if n >= 10 {
      DigitsValueOfNatDigits(n / 10);
      var d := NatDigits(n);
      assert d[..|d| - 1] == NatDigits(n / 10);
    }
  }

  lemma {:induction false} DigitPrefixOfDigits(d: string)
    requires forall i :: 0 <= i < |d| ==> IsDigit(d[i])
    ensures DigitPrefix(d) == d
  {
    if d != [] {
      DigitPrefixOfDigits(d[1..]);
      assert d == [d[0]] + d[1..];
    }
  }

  lemma TrimOfUnpadded(s: string)
    requires s != [] && !IsSpace(s[0]) && !IsSpace(s[|s| - 1])
    ensures TrimStart(s) == s && Trim(s) == s
  {
  }

  lemma DigitIsNotSpace(c: char)
    requires IsDigit(c)
    ensures !IsSpace(c)
  {
  }

  lemma DecimalOfNat(n: nat)
    ensures IsNumeric(Decimal(n))
    ensures ParseInt(Decimal(n)) == Int(n)
  {
    var dig := NatDigits(n);
    DigitPrefixOfDigits(dig);
    DigitsValueOfNatDigits(n);
    DigitIsNotSpace(dig[0]);
    DigitIsNotSpace(dig[|dig| - 1]);
    TrimOfUnpadded(dig);
  }

  lemma DecimalOfNegative(n: int)
    requires n < 0
    ensures IsNumeric(Decimal(n))
    ensures ParseInt(Decimal(n)) == Int(n)
  {
    var s := Decimal(n);
    var dig := NatDigits(-n);
    DigitPrefixOfDigits(dig);
    DigitsValueOfNatDigits(-n);
    DigitIsNotSpace(dig[|dig| - 1]);
    assert s == "-" + dig;
    assert s[1..] == dig && s[|s| - 1] == dig[|dig| - 1];
    TrimOfUnpadded(s);
  }

  /** Writing an integer in decimal and reading it back with `isNaN` and `parseInt` gives
      that integer: a decimal query parameter is accepted and filters by its value. */
  lemma ParseIntOfDecimal(n: int)
    ensures IsNumeric(Decimal(n))
    ensures ParseInt(Decimal(n)) == Int(n)
  {
    if n < 0 {
      DecimalOfNegative(n);
    } else {
      DecimalOfNat(n);
    }
  }

  lemma DigitsThenOne(d: string)
    requires forall i :: 0 <= i < |d| ==> IsDigit(d[i])
    ensures forall i :: 0 <= i < |d + "1"| ==> IsDigit((d + "1")[i])
    ensures DigitsValue(d + "1") == DigitsValue(d) * 10 + 1
  {
    assert (d + "1")[..|d|] == d;
  }

  lemma DecimalThenOneOfNat(n: nat)
    ensures IsNumeric(Decimal(n) + "1")
    ensures ParseInt(Decimal(n) + "1") == Int(10 * n + 1)
  {
    var dig := NatDigits(n);
    var s := dig + "1";
    DigitsThenOne(dig);
    DigitPrefixOfDigits(s);
    DigitsValueOfNatDigits(n);
    DigitIsNotSpace(s[0]);
    DigitIsNotSpace(s[|s| - 1]);
    TrimOfUnpadded(s);
  }

  lemma DecimalThenOneOfNegative(n: int)
    requires n < 0
    ensures IsNumeric(Decimal(n) + "1")
    ensures ParseInt(Decimal(n) + "1") == Int(10 * n - 1)
  {
    var dig := NatDigits(-n);
    var body := dig + "1";
    var s := Decimal(n) + "1";
    DigitsThenOne(dig);
    DigitPrefixOfDigits(body);
    DigitsValueOfNatDigits(-n);
    DigitIsNotSpace(body[|body| - 1]);
    assert s == "-" + body;
    assert s[1..] == body && s[|s| - 1] == body[|body| - 1];
    TrimOfUnpadded(s);
  }

  /** Appending the text "1" to an integer written in decimal, as `+` does when its left
      operand is a string, gives the text of `10n + 1`, or `10n - 1` for a negative `n`. */
  lemma DecimalThenOne(n: int)
    ensures IsNumeric(Decimal(n) + "1")
    ensures ParseInt(Decimal(n) + "1") == Int(if n >= 0 then 10 * n + 1 else 10 * n - 1)
  {
    if n < 0 {
      DecimalThenOneOfNegative(n);
    } else {
      DecimalThenOneOfNat(n);
    }
  }

  /** Once `isNaN` has accepted a string, `parseInt` yields NaN exactly for blank text. */
  lemma ParseIntOfNumeric(s: string)
    requires IsNumeric(s)
    ensures ParseInt(s).NaN? <==> Trim(s) == []
  {
    var t := TrimStart(s);
    var u := TrimEnd(t);
    if u != [] {
      assert u == t[..|u|] && u[0] == t[0];
      assert IsDecimalLiteral(u);
      var signed := t[0] == '+' || t[0] == '-';
      var body := if signed then t[1..] else t;
      var ubody := if signed then u[1..] else u;
      DecimalLiteralDigit(u);
    }
  }
}

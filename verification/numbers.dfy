/** ECMAScript's global `parseInt(string)` with no radix, as the generator
    applies it to the `columns` option: leading white space is skipped, an
    optional sign is read, a `0x`/`0X` prefix selects base 16 (base 10
    otherwise), and the longest run of digits that follows is the value.
    `None` stands for `NaN`, which compares false with every number. */
module Numbers {
  import opened Text

  /** The WhiteSpace and LineTerminator code points skipped before the number. */
  predicate IsJsSpace(c: char)
  {
    c == '\U{9}' || c == '\U{B}' || c == '\U{C}' || c == ' ' || c == '\U{A0}' || c == '\U{FEFF}'
    || c == '\U{1680}' || ('\U{2000}' <= c <= '\U{200A}') || c == '\U{202F}' || c == '\U{205F}'
    || c == '\U{3000}' || c == '\n' || c == '\r' || c == '\U{2028}' || c == '\U{2029}'
  }

  /** The text without its leading white space. */
  function TrimStart(s: string): (r: string)
    ensures |r| <= |s| && r == s[|s| - |r|..]
    ensures r == [] || !IsJsSpace(r[0])
    ensures forall i :: 0 <= i < |s| - |r| ==> IsJsSpace(s[i])
  {
    if s != [] && IsJsSpace(s[0]) then TrimStart(s[1..]) else s
  }

  /** The value of a character as a digit in bases up to 36; 36 for a
      character that is no digit at all. */
  function DigitValue(c: char): (v: nat)
    ensures v <= 36
  {
    if '0' <= c <= '9' then c as nat - '0' as nat
    else if 'a' <= c <= 'z' then c as nat - 'a' as nat + 10
    else if 'A' <= c <= 'Z' then c as nat - 'A' as nat + 10
    else 36
  }

  /** The longest prefix of `s` made of digits of base `radix`. */
  function DigitPrefix(s: string, radix: nat): (r: string)
    ensures |r| <= |s| && r == s[..|r|]
    ensures forall i :: 0 <= i < |r| ==> DigitValue(r[i]) < radix
    ensures |r| < |s| ==> DigitValue(s[|r|]) >= radix
  {
    if s != [] && DigitValue(s[0]) < radix then [s[0]] + DigitPrefix(s[1..], radix) else []
  }

  /** The number a string of digits denotes in base `radix`. */
  function DigitsValue(ds: string, radix: nat): nat
  {
    if ds == [] then 0
    else DigitsValue(ds[..|ds| - 1], radix) * radix + DigitValue(ds[|ds| - 1])
  }

  /** `parseInt(s)`; `None` is `NaN`. */
  function ParseInt(s: string): Option<int>
  {
    var t := TrimStart(s);
    var sign: int := if t != [] && t[0] == '-' then -1 else 1;
    match ParseUnsigned(if t != [] && (t[0] == '-' || t[0] == '+') then t[1..] else t)
    case None => None
    case Some(v) => Some(sign * v)
  }

  /** The number after the sign: base 16 after a `0x` or `0X` prefix, base
      10 otherwise; `None` when no digit follows. */
  function ParseUnsigned(u: string): Option<nat>
  {
    var hex := |u| >= 2 && u[0] == '0' && (u[1] == 'x' || u[1] == 'X');
    var radix := if hex then 16 else 10;
    var digits := DigitPrefix(if hex then u[2..] else u, radix);
    if digits == [] then None else Some(DigitsValue(digits, radix))
  }

  /** The decimal numeral of `n`, without leading zeros. */
  function DecimalText(n: nat): (r: string)
    ensures r != [] && (r[0] == '0' ==> n == 0 && |r| == 1)
    ensures forall i :: 0 <= i < |r| ==> '0' <= r[i] <= '9'
  {
    if n < 10 then [(n + '0' as nat) as char]
    else DecimalText(n / 10) + [(n % 10 + '0' as nat) as char]
  }

  lemma {:induction false} DecimalTextValue(n: nat)
    ensures DigitsValue(DecimalText(n), 10) == n
  {
    var r := DecimalText(n);
    if n >= 10 {
      DecimalTextValue(n / 10);
      assert r[..|r| - 1] == DecimalText(n / 10);
    }
  }

  /** Digits end where the first non-digit starts. */
  lemma {:induction false} DigitPrefixOf(ds: string, rest: string, radix: nat)
    requires forall i :: 0 <= i < |ds| ==> DigitValue(ds[i]) < radix
    requires rest == [] || DigitValue(rest[0]) >= radix
    ensures DigitPrefix(ds + rest, radix) == ds
  {
    if ds != [] {
      assert (ds + rest)[1..] == ds[1..] + rest;
      DigitPrefixOf(ds[1..], rest, radix);
    } else {
      assert ds + rest == rest;
    }
  }

  /** `parseInt` reads back a decimal numeral, ignoring whatever follows it
      from the first character that is not a decimal digit (other than an
      `x` or `X` right after the numeral `0`, which would start a
      hexadecimal prefix). */
  lemma ParseIntDecimal(n: nat, rest: string)
    requires rest == [] || (DigitValue(rest[0]) >= 10 && (n == 0 ==> rest[0] != 'x' && rest[0] != 'X'))
    ensures ParseInt(DecimalText(n) + rest) == Some(n)
  {
    var s := DecimalText(n) + rest;
    assert s[0] == DecimalText(n)[0];
    ParseUnsignedDecimal(n, rest);
    ParseIntUnsigned(s, n);
  }

  /** A text starting with a decimal digit has no white space and no sign to skip. */
  lemma ParseIntUnsigned(s: string, v: nat)
    requires s != [] && '0' <= s[0] <= '9' && ParseUnsigned(s) == Some(v)
    ensures ParseInt(s) == Some(v)
  {
    assert !IsJsSpace(s[0]);
    assert TrimStart(s) == s;
  }

  lemma ParseUnsignedDecimal(n: nat, rest: string)
    requires rest == [] || (DigitValue(rest[0]) >= 10 && (n == 0 ==> rest[0] != 'x' && rest[0] != 'X'))
    ensures ParseUnsigned(DecimalText(n) + rest) == Some(n)
  {
    var s := DecimalText(n) + rest;
    if |s| >= 2 && s[0] == '0' {
      assert s[1] == rest[0];
    }
    DigitPrefixOf(DecimalText(n), rest, 10);
    DecimalTextValue(n);
  }

  /** Text with no digit right after its optional sign parses as `NaN`. */
  lemma ParseIntNaN(s: string)
    requires var t := TrimStart(s);
      var u := if t != [] && (t[0] == '-' || t[0] == '+') then t[1..] else t;
      u == [] || DigitValue(u[0]) >= 10
    ensures ParseInt(s) == None
  {
  }
}

/**
 * JavaScript strings as sequences of UTF-16 code units, and the handful of
 * built-ins the tide-calendar code relies on: `Array#join`, `String#split`
 * with a one-unit separator, `String#trim`, `parseInt`, `String(n)` and
 * `Number#toString(radix)` on integers, and `padStart(2, '0')`.
 *
 * A JavaScript string's `length` counts code units, so every length in this
 * project is the length of a `JsString`. Literals are written as Dafny
 * strings (Unicode scalar values) and converted with `Str` when every
 * character fits in one unit, or with `Utf16Char` for a character that
 * takes a surrogate pair.
 */
module JsText {
  import opened Wrappers

  /** One UTF-16 code unit. */
  newtype CodeUnit = x: int | 0 <= x < 0x1_0000

  /** A JavaScript string value. */
  type JsString = seq<CodeUnit>

  const LF: CodeUnit := 10
  const CR: CodeUnit := 13
  const SP: CodeUnit := 32
  const CRLF: JsString := [CR, LF]

  // ---------------------------------------------------------------------
  // UTF-16 encoding of literals

  /** The UTF-16 encoding of one Unicode scalar value: one unit in the BMP, a surrogate pair above it. */
  function Utf16Char(c: char): (r: JsString)
    ensures |r| == (if c as int < 0x1_0000 then 1 else 2)
    ensures c as int < 0x1_0000 ==> r[0] as int == c as int
  {
    var n := c as int;
    if n < 0x1_0000 then [n as CodeUnit]
    else
      var v := n - 0x1_0000;
      [(0xD800 + v / 0x400) as CodeUnit, (0xDC00 + v % 0x400) as CodeUnit]
  }

  /** The UTF-16 encoding of a string: what JavaScript stores for a literal. */
  function Utf16(s: string): (r: JsString)
    ensures |r| >= |s|
  {
    if s == [] then [] else Utf16Char(s[0]) + Utf16(s[1..])
  }

  /** True when every character of `s` lies in the Basic Multilingual Plane, one UTF-16 unit each. */
  predicate IsBmp(s: string) {
    forall i | 0 <= i < |s| :: s[i] as int < 0x1_0000
  }

  /** A literal of Basic Multilingual Plane characters: one code unit per character. */
  function Str(s: string): (r: JsString)
    requires IsBmp(s)
    ensures |r| == |s|
    ensures forall i | 0 <= i < |s| :: r[i] as int == s[i] as int
  {
    seq(|s|, i requires 0 <= i < |s| => s[i] as int as CodeUnit)
  }

  /** On Basic Multilingual Plane text the literal helper is the UTF-16 encoding. */
  lemma {:induction false} StrIsUtf16(s: string)
    requires IsBmp(s)
    ensures Str(s) == Utf16(s)
  {
    if s != [] {
      StrIsUtf16(s[1..]);
      assert Str(s) == Utf16Char(s[0]) + Str(s[1..]);
    }
  }

  /** Encoding distributes over concatenation, so a template literal's length is the sum of its parts. */
  lemma {:induction false} Utf16Append(a: string, b: string)
    ensures Utf16(a + b) == Utf16(a) + Utf16(b)
  {
    if a == [] {
      assert a + b == b;
    } else {
      assert (a + b)[0] == a[0];
      assert (a + b)[1..] == a[1..] + b;
      Utf16Append(a[1..], b);
      calc {
        Utf16(a + b);
        Utf16Char(a[0]) + Utf16(a[1..] + b);
        Utf16Char(a[0]) + (Utf16(a[1..]) + Utf16(b));
        (Utf16Char(a[0]) + Utf16(a[1..])) + Utf16(b);
      }
    }
  }

  // ---------------------------------------------------------------------
  // Array#join and String#split

  /** `parts.join(sep)`. */
  function Join(parts: seq<JsString>, sep: JsString): (r: JsString)
    ensures |parts| == 1 ==> r == parts[0]
  {
    if |parts| == 0 then []
    else if |parts| == 1 then parts[0]
    else parts[0] + sep + Join(parts[1..], sep)
  }

  /** Joining a list that has a first element is that element, the separator and the join of the rest. */
  lemma JoinCons(x: JsString, rest: seq<JsString>, sep: JsString)
    requires rest != []
    ensures Join([x] + rest, sep) == x + sep + Join(rest, sep)
  {
    assert ([x] + rest)[1..] == rest;
  }

  /** Joining two non-empty lists puts one separator between the two joins. */
  lemma {:induction false} JoinAppend(a: seq<JsString>, b: seq<JsString>, sep: JsString)
    requires a != [] && b != []
    ensures Join(a + b, sep) == Join(a, sep) + sep + Join(b, sep)
  {
    if |a| == 1 {
      JoinCons(a[0], b, sep);
      assert a + b == [a[0]] + b;
    } else {
      JoinAppend(a[1..], b, sep);
      assert (a + b)[1..] == a[1..] + b;
      assert a + b == [a[0]] + (a[1..] + b);
    }
  }

  /** `s.slice(start, end)` (also `s.substring(start, end)`) for `start <= end`: bounds past the end are clamped to it. */
  function Slice(s: JsString, start: nat, end: nat): (r: JsString)
    requires start <= end
    ensures |r| == if end <= |s| then end - start else if start <= |s| then |s| - start else 0
    ensures end <= |s| ==> r == s[start..end]
  {
    if end <= |s| then s[start..end] else if start <= |s| then s[start..] else []
  }

  /** `s.slice(start)` (also `s.substring(start)`): everything from `start` on, empty when `start` is past the end. */
  function SliceFrom(s: JsString, start: nat): (r: JsString)
    ensures |r| == if start <= |s| then |s| - start else 0
    ensures start <= |s| ==> r == s[start..]
  {
    if start <= |s| then s[start..] else []
  }

  /** The index of the first occurrence of `u` in `s`. */
  function IndexOf(s: JsString, u: CodeUnit): (i: nat)
    requires u in s
    ensures i < |s| && s[i] == u && u !in s[..i]
  {
    if s[0] == u then 0
    else
      var j := IndexOf(s[1..], u);
      assert s[..j + 1] == [s[0]] + s[1..][..j];
      j + 1
  }

  /** `s.split(sep)` for a one-unit separator: the pieces between occurrences (at least one piece, `[""]` for `""`). */
  function Split(s: JsString, sep: CodeUnit): (r: seq<JsString>)
    ensures |r| >= 1
    decreases |s|
  {
    if sep !in s then [s]
    else
      var i := IndexOf(s, sep);
      [s[..i]] + Split(s[i + 1..], sep)
  }

  /** Splitting is undone by joining with the separator, and no piece contains the separator. */
  lemma {:induction false} SplitJoin(s: JsString, sep: CodeUnit)
    ensures Join(Split(s, sep), [sep]) == s
    ensures forall k | 0 <= k < |Split(s, sep)| :: sep !in Split(s, sep)[k]
    decreases |s|
  {
    if sep in s {
      var i := IndexOf(s, sep);
      var rest := Split(s[i + 1..], sep);
      SplitJoin(s[i + 1..], sep);
      JoinCons(s[..i], rest, [sep]);
      assert s == s[..i] + [sep] + s[i + 1..];
      assert Split(s, sep) == [s[..i]] + rest;
      forall k | 0 <= k < |Split(s, sep)| ensures sep !in Split(s, sep)[k] {
        if k > 0 { assert Split(s, sep)[k] == rest[k - 1]; }
      }
    }
  }

  // ---------------------------------------------------------------------
  // White space and String#trim

  /** ECMAScript LineTerminator. */
  predicate IsLineTerminator(u: CodeUnit) {
    u == 0x0A || u == 0x0D || u == 0x2028 || u == 0x2029
  }

  /** ECMAScript WhiteSpace or LineTerminator: what `trim` and `parseInt` skip. */
  predicate IsJsSpace(u: CodeUnit) {
    || u == 0x09 || u == 0x0B || u == 0x0C || u == 0x20 || u == 0xA0 || u == 0xFEFF
    || u == 0x1680 || (0x2000 <= u <= 0x200A) || u == 0x202F || u == 0x205F || u == 0x3000
    || IsLineTerminator(u)
  }

  /** `s.trimStart()`: the suffix that starts at the first non-space unit. */
  function TrimStart(s: JsString): (r: JsString)
    ensures |r| <= |s| && r == s[|s| - |r|..]
    ensures r != [] ==> !IsJsSpace(r[0])
    ensures forall i | 0 <= i < |s| - |r| :: IsJsSpace(s[i])
  {
    if s != [] && IsJsSpace(s[0]) then
      var r := TrimStart(s[1..]);
      assert s[1..][|s| - 1 - |r|..] == s[|s| - |r|..];
      r
    else s
  }

  /** `s.trimEnd()`: the prefix that ends at the last non-space unit. */
  function TrimEnd(s: JsString): (r: JsString)
    ensures |r| <= |s| && r == s[..|r|]
    ensures r != [] ==> !IsJsSpace(r[|r| - 1])
    ensures forall i | |r| <= i < |s| :: IsJsSpace(s[i])
  {
    if s != [] && IsJsSpace(s[|s| - 1]) then
      var r := TrimEnd(s[..|s| - 1]);
      assert s[..|s| - 1][..|r|] == s[..|r|];
      r
    else s
  }

  /** `s.trim()`. */
  function Trim(s: JsString): (r: JsString)
    ensures r == [] <==> forall i | 0 <= i < |s| :: IsJsSpace(s[i])
    ensures r != [] ==> !IsJsSpace(r[0]) && !IsJsSpace(r[|r| - 1])
  {
    TrimEnd(TrimStart(s))
  }

  // ---------------------------------------------------------------------
  // Digits, Number#toString and parseInt

  /** The lower-case digit for a value below 36, as `Number#toString` writes it. */
  function DigitUnit(d: nat): (u: CodeUnit)
    requires d < 36
    ensures DigitValue(u) == d
  {
    if d < 10 then (48 + d) as CodeUnit else (87 + d) as CodeUnit
  }

  /** The value of a digit in any radix up to 36 (either case); 36 for a unit that is no digit. */
  function DigitValue(u: CodeUnit): (d: nat)
    ensures d <= 36
  {
    if 48 <= u <= 57 then (u - 48) as nat
    else if 97 <= u <= 122 then (u - 87) as nat
    else if 65 <= u <= 90 then (u - 55) as nat
    else 36
  }

  predicate IsDecimalDigit(u: CodeUnit) {
    48 <= u <= 57
  }

  predicate AllDigits(s: JsString, radix: nat) {
    forall i | 0 <= i < |s| :: DigitValue(s[i]) < radix
  }

  /** The value of a digit string in the given radix, most significant digit first. */
  function RadixValue(s: JsString, radix: nat): nat
    requires AllDigits(s, radix)
  {
    if s == [] then 0 else RadixValue(s[..|s| - 1], radix) * radix + DigitValue(s[|s| - 1])
  }

  /** The digits of `n` in the given radix without leading zeros (`n.toString(radix)` for `n >= 0`). */
  function NatToRadix(n: nat, radix: nat): (r: JsString)
    requires 2 <= radix <= 36
    ensures 1 <= |r| && AllDigits(r, radix)
    ensures |r| > 1 ==> r[0] != '0' as CodeUnit
  {
    if n < radix then [DigitUnit(n)]
    else
      DivDecreases(n, radix);
      var p := NatToRadix(n / radix, radix);
      var last := DigitUnit(n % radix);
      assert DigitValue(last) < radix;
      p + [last]
  }

  /** Dividing a positive number by a radix of at least 2 makes it smaller. */
  lemma DivDecreases(n: nat, radix: nat)
    requires radix >= 2 && n >= 1
    ensures n / radix < n
  {
    var q := n / radix;
    assert q * radix <= n;
    assert q * radix >= q * 2;
  }

  lemma DivMod(n: nat, radix: nat)
    requires radix >= 1
    ensures (n / radix) * radix + n % radix == n
  {}

  /** Reading back the digits written by `NatToRadix` gives the number. */
  lemma {:induction false} RadixRoundTrip(n: nat, radix: nat)
    requires 2 <= radix <= 36
    ensures RadixValue(NatToRadix(n, radix), radix) == n
    decreases n
  {
    if n >= radix {
      var p := NatToRadix(n / radix, radix);
      var s := p + [DigitUnit(n % radix)];
      DivDecreases(n, radix);
      RadixRoundTrip(n / radix, radix);
      assert s[..|s| - 1] == p;
      assert DigitValue(s[|s| - 1]) == n % radix;
      var q, d := n / radix, n % radix;
      assert RadixValue(s, radix) == RadixValue(p, radix) * radix + d;
      assert RadixValue(p, radix) == q;
      DivMod(n, radix);
    }
  }

  /** Decimal digits of a natural number: `String(n)`. */
  function NatToString(n: nat): (r: JsString)
    ensures 1 <= |r| && forall i | 0 <= i < |r| :: IsDecimalDigit(r[i])
  {
    var r := NatToRadix(n, 10);
    assert forall i | 0 <= i < |r| :: DigitValue(r[i]) < 10;
    r
  }

  /** `String(i)` for an integer value: a minus sign, then the decimal digits. */
  function IntToString(i: int): (r: JsString)
    ensures r != []
  {
    if i < 0 then ['-' as CodeUnit] + NatToString(-i) else NatToString(i)
  }

  /** `i.toString(radix)` for an integer value. */
  function IntToRadix(i: int, radix: nat): (r: JsString)
    requires 2 <= radix <= 36
    ensures r != []
  {
    if i < 0 then ['-' as CodeUnit] + NatToRadix(-i, radix) else NatToRadix(i, radix)
  }

  /** `s.padStart(2, '0')`. */
  function PadStart2(s: JsString): (r: JsString)
    ensures |r| == if |s| >= 2 then |s| else 2
    ensures r[|r| - |s|..] == s
    ensures forall i | 0 <= i < |r| - |s| :: r[i] == '0' as CodeUnit
  {
    if |s| >= 2 then s
    else if |s| == 1 then ['0' as CodeUnit] + s
    else ['0' as CodeUnit, '0' as CodeUnit]
  }

  /** The number of leading units of `s` that are digits in the given radix. */
  function DigitPrefixLength(s: JsString, radix: nat): (n: nat)
    ensures n <= |s| && AllDigits(s[..n], radix)
    ensures n < |s| ==> DigitValue(s[n]) >= radix
  {
    if s == [] || DigitValue(s[0]) >= radix then 0
    else
      var n := DigitPrefixLength(s[1..], radix);
      assert s[..n + 1] == [s[0]] + s[1..][..n];
      n + 1
  }

  /**
   * `parseInt(s, 10)` (`radix == 10`) or `parseInt(s)` (`radix == 0`, where a
   * `0x` prefix switches to hexadecimal); None stands for NaN. Leading white
   * space and one sign are skipped, then the longest run of digits is read.
   */
  function ParseInt(s: JsString, radix: nat): (r: Option<int>)
    requires radix == 0 || radix == 10
  {
    ParseTrimmed(TrimStart(s), radix)
  }

  /** What `parseInt` makes of a string that starts with no white space: an optional sign, then the magnitude. */
  function ParseTrimmed(t: JsString, radix: nat): Option<int>
    requires radix == 0 || radix == 10
  {
    var negative := |t| > 0 && t[0] == '-' as CodeUnit;
    var u := if |t| > 0 && (t[0] == '-' as CodeUnit || t[0] == '+' as CodeUnit) then t[1..] else t;
    var m := ParseMagnitude(u, radix);
    if m.None? then None else Some(if negative then -(m.value as int) else m.value as int)
  }

  /** The magnitude after the sign: hexadecimal after `0x` when no radix is given, decimal otherwise. */
  function ParseMagnitude(u: JsString, radix: nat): Option<nat>
    requires radix == 0 || radix == 10
  {
    if radix == 0 && |u| >= 2 && u[0] == '0' as CodeUnit && (u[1] == 'x' as CodeUnit || u[1] == 'X' as CodeUnit)
    then DigitRun(u[2..], 16)
    else DigitRun(u, 10)
  }

  /** The value of the longest run of leading digits; None when there is none. */
  function DigitRun(body: JsString, base: nat): Option<nat> {
    var n := DigitPrefixLength(body, base);
    if n == 0 then None else Some(RadixValue(body[..n], base))
  }

  /** A non-empty run of decimal digits parses, with or without an explicit radix, to its decimal value. */
  lemma ParseDigits(s: JsString, radix: nat)
    requires radix == 0 || radix == 10
    requires s != [] && AllDigits(s, 10)
    ensures ParseInt(s, radix) == Some(RadixValue(s, 10))
  {
    assert !IsJsSpace(s[0]) && s[0] != '-' as CodeUnit && s[0] != '+' as CodeUnit;
    assert TrimStart(s) == s;
    assert |s| >= 2 ==> s[1] != 'x' as CodeUnit && s[1] != 'X' as CodeUnit;
    DigitRunAll(s, 10);
  }

  /** A non-empty digit string is its own digit run. */
  lemma DigitRunAll(s: JsString, base: nat)
    requires s != [] && AllDigits(s, base)
    ensures DigitRun(s, base) == Some(RadixValue(s, base))
  {
    DigitPrefixAll(s, base);
    assert s[..|s|] == s;
  }

  /** A string made only of digits is its own digit prefix. */
  lemma {:induction false} DigitPrefixAll(s: JsString, radix: nat)
    requires AllDigits(s, radix)
    ensures DigitPrefixLength(s, radix) == |s|
  {
    if s != [] {
      DigitPrefixAll(s[1..], radix);
    }
  }

  /** `parseInt(String(n))` is `n`: decimal formatting and parsing are inverse. */
  lemma ParseNatToString(n: nat, radix: nat)
    requires radix == 0 || radix == 10
    ensures ParseInt(NatToString(n), radix) == Some(n)
  {
    ParseDigits(NatToString(n), radix);
    RadixRoundTrip(n, 10);
  }

  /** A zero-padded two-digit field parses back to its value. */
  lemma ParsePadded(n: nat, radix: nat)
    requires n < 100 && (radix == 0 || radix == 10)
    ensures ParseInt(PadStart2(NatToString(n)), radix) == Some(n)
  {
    if n < 10 {
      PaddedDigit(n);
      ParseDigits(PadStart2(NatToString(n)), radix);
    } else {
      NatToStringLength(n);
      ParseNatToString(n, radix);
    }
  }

  /** A single digit padded to two units is `0` and the digit, worth the digit. */
  lemma PaddedDigit(n: nat)
    requires n < 10
    ensures var p := PadStart2(NatToString(n));
      p == ['0' as CodeUnit, DigitUnit(n)] && AllDigits(p, 10) && RadixValue(p, 10) == n
  {
    assert NatToString(n) == [DigitUnit(n)];
    var p := PadStart2(NatToString(n));
    assert p == ['0' as CodeUnit, DigitUnit(n)];
    assert p[..1] == ['0' as CodeUnit] && p[..1][..0] == [];
    assert RadixValue(p[..1], 10) == 0;
    assert DigitValue(p[1]) == n;
  }

  /** `String(n)` has one digit below 10, two below 100, three below 1000 and four below 10000. */
  lemma NatToStringLength(n: nat)
    ensures n < 10 ==> |NatToString(n)| == 1
    ensures 10 <= n < 100 ==> |NatToString(n)| == 2
    ensures 100 <= n < 1000 ==> |NatToString(n)| == 3
    ensures 1000 <= n < 10000 ==> |NatToString(n)| == 4
  {
    if n >= 10 {
      OneMoreDigit(n);
      if n >= 100 {
        OneMoreDigit(n / 10);
        if n >= 1000 {
          OneMoreDigit(n / 100);
          assert n / 100 / 10 == n / 1000;
        }
        assert n / 10 / 10 == n / 100;
      }
    }
  }

  /** A number of at least 10 has one decimal digit more than its tenth. */
  lemma OneMoreDigit(n: nat)
    requires n >= 10
    ensures |NatToRadix(n, 10)| == |NatToRadix(n / 10, 10)| + 1
  {
  }

  /** The digits run of a digit string followed by a non-digit is the digit string. */
  lemma {:induction false} DigitPrefixBefore(a: JsString, rest: JsString, radix: nat)
    requires AllDigits(a, radix)
    requires rest == [] || DigitValue(rest[0]) >= radix
    ensures DigitPrefixLength(a + rest, radix) == |a|
    decreases |a|
  {
    if a == [] {
      assert a + rest == rest;
    } else {
      DigitPrefixBefore(a[1..], rest, radix);
      assert (a + rest)[1..] == a[1..] + rest;
    }
  }

  /** `parseInt(String(i) + rest, 10)` is `i` when `rest` does not start with a digit. */
  lemma ParseIntToString(i: int, rest: JsString)
    requires rest == [] || DigitValue(rest[0]) >= 10
    ensures ParseInt(IntToString(i) + rest, 10) == Some(i)
  {
    var t := IntToString(i) + rest;
    assert !IsJsSpace(t[0]);
    assert TrimStart(t) == t;
    ParseSignedDigits(i, rest);
  }

  /** A sign-free start: the sign and digits of `String(i)` read back as `i`. */
  lemma ParseSignedDigits(i: int, rest: JsString)
    requires rest == [] || DigitValue(rest[0]) >= 10
    ensures ParseTrimmed(IntToString(i) + rest, 10) == Some(i)
  {
    var n: nat := if i < 0 then -i else i;
    RadixRoundTrip(n, 10);
    if i < 0 {
      NegativeRead(NatToString(n), rest);
    } else {
      UnsignedRead(NatToString(n), rest);
    }
  }

  /** Digits, then no digit: read as their value. */
  lemma UnsignedRead(d: JsString, rest: JsString)
    requires d != [] && AllDigits(d, 10) && DigitValue(d[0]) < 10
    requires rest == [] || DigitValue(rest[0]) >= 10
    ensures ParseTrimmed(d + rest, 10) == Some(RadixValue(d, 10) as int)
  {
    DigitRunBefore(d, rest);
    var t := d + rest;
    assert t[0] == d[0];
    UnsignedStart(t);
  }

  /** Text that starts with neither sign is read as its magnitude. */
  lemma UnsignedStart(t: JsString)
    requires t != [] && DigitValue(t[0]) < 10
    ensures var m := ParseMagnitude(t, 10);
      ParseTrimmed(t, 10) == if m.None? then None else Some(m.value as int)
  {
    assert t[0] != '-' as CodeUnit && t[0] != '+' as CodeUnit;
  }

  /** A minus sign, digits, then no digit: read as the negated value. */
  lemma NegativeRead(d: JsString, rest: JsString)
    requires d != [] && AllDigits(d, 10)
    requires rest == [] || DigitValue(rest[0]) >= 10
    ensures ParseTrimmed(['-' as CodeUnit] + d + rest, 10) == Some(-(RadixValue(d, 10) as int))
  {
    DigitRunBefore(d, rest);
    MinusThen(d + rest);
    SignThen('-' as CodeUnit, d, rest);
  }

  /** A sign before two pieces is the sign before their concatenation. */
  lemma SignThen(sign: CodeUnit, d: JsString, rest: JsString)
    ensures [sign] + d + rest == [sign] + (d + rest)
  {}

  /** After a minus sign, the magnitude is read and negated. */
  lemma MinusThen(u: JsString)
    ensures var m := ParseMagnitude(u, 10);
      ParseTrimmed(['-' as CodeUnit] + u, 10) == if m.None? then None else Some(-(m.value as int))
  {
    var t := ['-' as CodeUnit] + u;
    assert t[1..] == u;
  }

  /** The digit run of a decimal string followed by a non-digit is the string's value. */
  lemma DigitRunBefore(d: JsString, rest: JsString)
    requires d != [] && AllDigits(d, 10)
    requires rest == [] || DigitValue(rest[0]) >= 10
    ensures ParseMagnitude(d + rest, 10) == Some(RadixValue(d, 10))
  {
    DigitPrefixBefore(d, rest, 10);
    assert (d + rest)[..|d|] == d;
  }

  /** `String(i)` is a minus sign and digits. */
  lemma IntToStringUnits(i: int)
    ensures forall k | 0 <= k < |IntToString(i)| :: IntToString(i)[k] == '-' as CodeUnit || IsDecimalDigit(IntToString(i)[k])
  {}

  /** The first occurrence of a unit is right after a prefix that lacks it. */
  lemma {:induction false} IndexAfter(x: JsString, sep: CodeUnit, y: JsString)
    requires sep !in x
    ensures sep in x + [sep] + y && IndexOf(x + [sep] + y, sep) == |x|
    decreases |x|
  {
    var s := x + [sep] + y;
    assert s[|x|] == sep;
    if x != [] {
      IndexAfter(x[1..], sep, y);
      assert s[1..] == x[1..] + [sep] + y;
    }
  }

  /** Splitting at the only occurrence of a separator gives the two sides. */
  lemma SplitTwo(x: JsString, sep: CodeUnit, y: JsString)
    requires sep !in x && sep !in y
    ensures Split(x + [sep] + y, sep) == [x, y]
  {
    var s := x + [sep] + y;
    IndexAfter(x, sep, y);
    assert s[..|x|] == x && s[|x| + 1..] == y;
  }

  /** Splitting at the first occurrence of a separator peels off the part before it. */
  lemma SplitCons(x: JsString, sep: CodeUnit, rest: JsString)
    requires sep !in x
    ensures Split(x + [sep] + rest, sep) == [x] + Split(rest, sep)
  {
    var s := x + [sep] + rest;
    IndexAfter(x, sep, rest);
    assert s[..|x|] == x && s[|x| + 1..] == rest;
  }

  /** `parseInt` reads only what follows the leading white space. */
  lemma ParseIntSameTrim(a: JsString, b: JsString)
    requires TrimStart(a) == TrimStart(b)
    ensures ParseInt(a, 10) == ParseInt(b, 10)
  {
  }
}

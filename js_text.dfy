/** The fragments of JavaScript's string and number semantics that the timer code relies on:
    `Number.parseInt`, `Number(...)`, `String(...)`, `padStart(2, "0")`, `split` and `replace`. */
module JsText {

  import opened Wrappers

  /** A JavaScript number as far as this model needs one: NaN, or an integer. */
  datatype Num = NaN | Int(value: int)

  /** `x - 1` on a number: NaN stays NaN. */
  function Dec(n: Num): Num {
    match n
    case NaN => NaN
    case Int(v) => Int(v - 1)
  }

  /** `x || 0` on a number: NaN (and zero) become 0. */
  function OrZero(n: Num): int {
    match n
    case NaN => 0
    case Int(v) => v
  }

  /** `Math.max(lo, Math.min(hi, x))`. */
  function Clamp(x: int, lo: int, hi: int): (r: int)
    requires lo <= hi
    ensures lo <= r <= hi
    ensures lo <= x <= hi ==> r == x
    ensures x < lo ==> r == lo
    ensures hi < x ==> r == hi
  {
    if x < lo then lo else if hi < x then hi else x
  }

  // ---------------------------------------------------------------- digits

  predicate IsDigit(c: char) { '0' <= c <= '9' }

  predicate AllDigits(s: string) { forall i :: 0 <= i < |s| ==> IsDigit(s[i]) }

  function DigitValue(c: char): nat
    requires IsDigit(c)
  {
    (c as int) - ('0' as int)
  }

  function DigitChar(d: nat): (c: char)
    requires d < 10
    ensures IsDigit(c) && DigitValue(c) == d
  {
    (('0' as int) + d) as char
  }

  /** The value of a run of decimal digits, most significant first. */
  function DigitsValue(s: string): nat
    requires AllDigits(s)
  {
    if s == [] then 0 else DigitsValue(s[..|s| - 1]) * 10 + DigitValue(s[|s| - 1])
  }

  predicate IsHexDigit(c: char) { IsDigit(c) || 'a' <= c <= 'f' || 'A' <= c <= 'F' }

  predicate AllHexDigits(s: string) { forall i :: 0 <= i < |s| ==> IsHexDigit(s[i]) }

  function HexDigitValue(c: char): nat
    requires IsHexDigit(c)
  {
    if IsDigit(c) then DigitValue(c)
    else if 'a' <= c <= 'f' then (c as int) - ('a' as int) + 10
    else (c as int) - ('A' as int) + 10
  }

  function HexValue(s: string): nat
    requires AllHexDigits(s)
  {
    if s == [] then 0 else HexValue(s[..|s| - 1]) * 16 + HexDigitValue(s[|s| - 1])
  }

  // ---------------------------------------------------------------- printing

  /** `String(n)` for a non-negative integer: its decimal digits, without leading zeros. */
  function NatToString(n: nat): (r: string)
    ensures 1 <= |r| && AllDigits(r)
    ensures (|r| == 1) == (n < 10)
  {
    if n < 10 then [DigitChar(n)] else NatToString(n / 10) + [DigitChar(n % 10)]
  }

  /** `String(n)` for an integer. */
  function IntToString(n: int): string {
    if n < 0 then "-" + NatToString(-n) else NatToString(n)
  }

  /** `String(x)` for a number. */
  function NumToString(n: Num): string {
    match n
    case NaN => "NaN"
    case Int(v) => IntToString(v)
  }

  /** `s.padStart(2, "0")`. */
  function PadStart2(s: string): string {
    if |s| == 0 then "00" else if |s| == 1 then "0" + s else s
  }

  /** `String(n).padStart(2, "0")`, the way every clock field in the source is printed. */
  function Pad2(n: int): string {
    PadStart2(IntToString(n))
  }

  // ---------------------------------------------------------------- parsing

  /** The characters `trim` and `parseInt` skip: ECMAScript WhiteSpace and LineTerminator. */
  predicate IsJsSpace(c: char) {
    || c == '\t' || c == '\n' || c == '\U{B}' || c == '\U{C}' || c == '\r' || c == ' '
    || c == '\U{A0}' || c == '\U{1680}' || ('\U{2000}' <= c <= '\U{200A}')
    || c == '\U{2028}' || c == '\U{2029}' || c == '\U{202F}' || c == '\U{205F}'
    || c == '\U{3000}' || c == '\U{FEFF}'
  }

  function TrimStart(s: string): string {
    if s != [] && IsJsSpace(s[0]) then TrimStart(s[1..]) else s
  }

  function TrimEnd(s: string): string {
    if s != [] && IsJsSpace(s[|s| - 1]) then TrimEnd(s[..|s| - 1]) else s
  }

  /** The longest prefix of `s` made of decimal digits. */
  function LeadingDigits(s: string): (r: string)
    ensures AllDigits(r)
  {
    if s != [] && IsDigit(s[0]) then [s[0]] + LeadingDigits(s[1..]) else []
  }

  /** The longest prefix of `s` made of hexadecimal digits. */
  function LeadingHexDigits(s: string): (r: string)
    ensures AllHexDigits(r)
  {
    if s != [] && IsHexDigit(s[0]) then [s[0]] + LeadingHexDigits(s[1..]) else []
  }

  /** An optional leading sign: whether it is `-`, and what follows it. */
  function SplitSign(s: string): (bool, string) {
    if s != [] && (s[0] == '-' || s[0] == '+') then (s[0] == '-', s[1..]) else (false, s)
  }

  function Signed(negative: bool, v: int): int {
    if negative then -v else v
  }

  /** What `parseInt` makes of the text after the sign, in base 10. */
  function DecimalPrefix(negative: bool, body: string): Num {
    var digits := LeadingDigits(body);
    if digits == [] then NaN else Int(Signed(negative, DigitsValue(digits)))
  }

  /** `Number.parseInt(s, 10)`: leading white space is skipped, then an optional sign, then the
      longest run of decimal digits; anything after it is ignored, and no digits at all is NaN. */
  function ParseInt10(s: string): Num {
    var (negative, body) := SplitSign(TrimStart(s));
    DecimalPrefix(negative, body)
  }

  /** `Number.parseInt(s)` with no radix: as in base 10, except that `0x` or `0X` after the sign
      selects base 16. */
  function ParseIntAuto(s: string): Num {
    var (negative, body) := SplitSign(TrimStart(s));
    if |body| >= 2 && body[0] == '0' && (body[1] == 'x' || body[1] == 'X') then
      var hex := LeadingHexDigits(body[2..]);
      if hex == [] then NaN else Int(Signed(negative, HexValue(hex)))
    else
      DecimalPrefix(negative, body)
  }

  /** `Number(s)` on a string, for the forms clock strings take: surrounding white space is
      ignored, the empty string is 0, and an optionally signed run of decimal digits is its value.
      Every other form is NaN in this model. */
  function JsNumber(s: string): Num {
    var t := TrimEnd(TrimStart(s));
    if t == [] then Int(0)
    else
      var (negative, body) := SplitSign(t);
      if body != [] && AllDigits(body) then Int(Signed(negative, DigitsValue(body))) else NaN
  }

  // ---------------------------------------------------------------- split and replace

  /** `s.split(sep)` for a one-character separator: the pieces between the separators, in order. */
  function Split(s: string, sep: char): (r: seq<string>)
    ensures |r| >= 1
  {
    if s == [] then [""]
    else
      var rest := Split(s[1..], sep);
      if s[0] == sep then [""] + rest else [[s[0]] + rest[0]] + rest[1..]
  }

  /** The piece `k` of `s.split(sep)`, or None where JavaScript reads `undefined`. */
  function SplitField(s: string, sep: char, k: nat): Option<string> {
    var parts := Split(s, sep);
    if k < |parts| then Some(parts[k]) else None
  }

  predicate OccursAt(s: string, pattern: string, i: nat) {
    i + |pattern| <= |s| && s[i..i + |pattern|] == pattern
  }

  /** `s.replace(pattern, replacement)` with a string pattern. */
  function ReplaceFirst(s: string, pattern: string, replacement: string): string
    decreases |s|
  {
    if OccursAt(s, pattern, 0) then replacement + s[|pattern|..]
    else if s == [] then s
    else [s[0]] + ReplaceFirst(s[1..], pattern, replacement)
  }

  // ---------------------------------------------------------------- lemmas

  /** `trimStart` removes the run of white space at the front, and no more. */
  lemma {:induction false} TrimStartSpec(s: string)
    ensures |TrimStart(s)| <= |s| && TrimStart(s) == s[|s| - |TrimStart(s)|..]
    ensures TrimStart(s) == [] || !IsJsSpace(TrimStart(s)[0])
    ensures forall i :: 0 <= i < |s| - |TrimStart(s)| ==> IsJsSpace(s[i])
  {
    if s != [] && IsJsSpace(s[0]) {
      var t := s[1..];
      TrimStartSpec(t);
      assert t[|t| - |TrimStart(s)|..] == s[|s| - |TrimStart(s)|..];
      forall i | 0 < i < |s| - |TrimStart(s)| ensures IsJsSpace(s[i]) {
        assert s[i] == t[i - 1];
      }
    }
  }

  /** `trimEnd` removes the run of white space at the back, and no more. */
  lemma {:induction false} TrimEndSpec(s: string)
    ensures TrimEnd(s) <= s
    ensures TrimEnd(s) == [] || !IsJsSpace(TrimEnd(s)[|TrimEnd(s)| - 1])
    ensures forall i :: |TrimEnd(s)| <= i < |s| ==> IsJsSpace(s[i])
  {
    if s != [] && IsJsSpace(s[|s| - 1]) {
      var t := s[..|s| - 1];
      TrimEndSpec(t);
      forall i | |TrimEnd(s)| <= i < |s| - 1 ensures IsJsSpace(s[i]) {
        assert s[i] == t[i];
      }
    }
  }

  /** `LeadingDigits` is the longest digit prefix. */
  lemma {:induction false} LeadingDigitsSpec(s: string)
    ensures LeadingDigits(s) <= s
    ensures |LeadingDigits(s)| < |s| ==> !IsDigit(s[|LeadingDigits(s)|])
  {
    if s != [] && IsDigit(s[0]) {
      LeadingDigitsSpec(s[1..]);
    }
  }

  /** `pieces.join(sep)`: the pieces with the separator between each two. */
  function Join(pieces: seq<string>, sep: char): string {
    if pieces == [] then ""
    else if |pieces| == 1 then pieces[0]
    else pieces[0] + [sep] + Join(pieces[1..], sep)
  }

  /** No piece of `s.split(sep)` contains the separator, and joining the pieces with it gives `s`. */
  lemma {:induction false} SplitSpec(s: string, sep: char)
    ensures forall k :: 0 <= k < |Split(s, sep)| ==> sep !in Split(s, sep)[k]
    ensures Join(Split(s, sep), sep) == s
  {
    if s != [] {
      SplitSpec(s[1..], sep);
      var rest := Split(s[1..], sep);
      if s[0] != sep {
        assert sep !in rest[0];
        assert sep !in [s[0]] + rest[0];
        forall k | 0 <= k < |Split(s, sep)| ensures sep !in Split(s, sep)[k] {
          if k > 0 { assert Split(s, sep)[k] == rest[k]; }
        }
        JoinFirst(rest, s[0], sep);
        assert [s[0]] + s[1..] == s;
      } else {
        forall k | 0 <= k < |Split(s, sep)| ensures sep !in Split(s, sep)[k] {
          if k > 0 { assert Split(s, sep)[k] == rest[k - 1]; }
        }
        assert ([""] + rest)[1..] == rest;
        assert "" + [sep] + s[1..] == s;
      }
    }
  }

  /** Putting a character in front of the first piece puts it in front of the joined text. */
  lemma JoinFirst(pieces: seq<string>, c: char, sep: char)
    requires |pieces| >= 1
    ensures Join([[c] + pieces[0]] + pieces[1..], sep) == [c] + Join(pieces, sep)
  {
    var q := [[c] + pieces[0]] + pieces[1..];
    assert q[0] == [c] + pieces[0] && q[1..] == pieces[1..];
  }

  /** Printing and reading back a natural number gives it back. */
  lemma {:induction false} NatToStringValue(n: nat)
    ensures DigitsValue(NatToString(n)) == n
  {
    if n >= 10 {
      NatToStringValue(n / 10);
      var s := NatToString(n / 10) + [DigitChar(n % 10)];
      assert s[..|s| - 1] == NatToString(n / 10);
    }
  }

  /** A leading zero does not change the value of a digit run. */
  lemma {:induction false} LeadingZeroValue(s: string)
    requires AllDigits(s)
    ensures AllDigits("0" + s) && DigitsValue("0" + s) == DigitsValue(s)
  {
    var t := "0" + s;
    if s != [] {
      assert t[..|t| - 1] == "0" + s[..|s| - 1];
      LeadingZeroValue(s[..|s| - 1]);
    } else {
      assert t[..|t| - 1] == [];
    }
  }

  /** `Pad2(n)` for a non-negative `n` is a digit run of value `n`, exactly two digits long when `n < 100`. */
  lemma Pad2Digits(n: nat)
    ensures AllDigits(Pad2(n)) && DigitsValue(Pad2(n)) == n
    ensures |Pad2(n)| >= 2 && (n < 100 <==> |Pad2(n)| == 2)
  {
    NatToStringValue(n);
    if n < 10 {
      LeadingZeroValue(NatToString(n));
    } else {
      assert NatToString(n) == NatToString(n / 10) + [DigitChar(n % 10)];
      if n >= 100 {
        assert |NatToString(n / 10)| >= 2;
      }
    }
  }

  /** Two different minute or second values never print alike. */
  lemma Pad2Injective(a: nat, b: nat)
    requires Pad2(a) == Pad2(b)
    ensures a == b
  {
    Pad2Digits(a);
    Pad2Digits(b);
  }

  lemma {:induction false} LeadingDigitsOf(d: string, rest: string)
    requires AllDigits(d) && (rest == [] || !IsDigit(rest[0]))
    ensures LeadingDigits(d + rest) == d
  {
    if d != [] {
      assert (d + rest)[1..] == d[1..] + rest;
      LeadingDigitsOf(d[1..], rest);
    }
  }

  /** `parseInt` reads a run of digits, whatever non-digit text follows it. */
  lemma ParseDigitsThen(d: string, rest: string)
    requires d != [] && AllDigits(d) && (rest == [] || !IsDigit(rest[0]))
    ensures ParseInt10(d + rest) == Int(DigitsValue(d))
  {
    var s := d + rest;
    assert s[0] == d[0] && !IsJsSpace(s[0]);
    assert TrimStart(s) == s;
    assert SplitSign(s) == (false, s);
    LeadingDigitsOf(d, rest);
  }

  /** `parseInt` reads a minus sign and a run of digits, whatever non-digit text follows them. */
  lemma ParseNegativeDigitsThen(d: string, rest: string)
    requires d != [] && AllDigits(d) && (rest == [] || !IsDigit(rest[0]))
    ensures ParseInt10("-" + d + rest) == Int(-(DigitsValue(d) as int))
  {
    var s := "-" + d + rest;
    assert s[0] == '-' && !IsJsSpace(s[0]);
    assert TrimStart(s) == s;
    assert s[1..] == d + rest;
    assert SplitSign(s) == (true, d + rest);
    LeadingDigitsOf(d, rest);
    assert DecimalPrefix(true, d + rest) == Int(-(DigitsValue(d) as int));
  }

  /** `parseInt` reads back every integer printed by `Pad2`, whatever non-digit text follows it. */
  lemma ParsePad2(n: int, rest: string)
    requires rest == [] || !IsDigit(rest[0])
    ensures ParseInt10(Pad2(n) + rest) == Int(n)
  {
    if n < 0 {
      ParsePad2Negative(n, rest);
    } else {
      Pad2Digits(n);
      ParseDigitsThen(Pad2(n), rest);
    }
  }

  /** The negative half of `ParsePad2`: `Pad2` leaves a sign and two or more characters alone. */
  lemma ParsePad2Negative(n: int, rest: string)
    requires n < 0 && (rest == [] || !IsDigit(rest[0]))
    ensures ParseInt10(Pad2(n) + rest) == Int(n)
  {
    var d := NatToString(-n);
    NatToStringValue(-n);
    assert Pad2(n) == "-" + d by {
      assert |"-" + d| >= 2;
    }
    ParseNegativeDigitsThen(d, rest);
  }

  /** `Number` reads an optionally negated run of digits as its value. */
  lemma NumberOfDigits(negative: bool, d: string)
    requires d != [] && AllDigits(d)
    ensures JsNumber((if negative then "-" else "") + d) == Int(Signed(negative, DigitsValue(d)))
  {
    var s := (if negative then "-" else "") + d;
    assert s[0] == '-' || IsDigit(s[0]);
    assert TrimStart(s) == s;
    assert s[|s| - 1] == d[|d| - 1];
    assert TrimEnd(s) == s;
    if negative {
      assert s[0] == '-' && s[1..] == d;
    } else {
      assert s == d && IsDigit(s[0]);
    }
    assert SplitSign(s) == (negative, d);
  }

  /** `Number` reads back every integer printed by `Pad2`. */
  lemma NumberOfPad2(n: int)
    ensures JsNumber(Pad2(n)) == Int(n)
  {
    if n < 0 {
      NumberOfNegativePad2(n);
    } else {
      NumberOfNaturalPad2(n);
    }
  }

  lemma NumberOfNegativePad2(n: int)
    requires n < 0
    ensures JsNumber(Pad2(n)) == Int(n)
  {
    var d := NatToString(-n);
    NatToStringValue(-n);
    assert Pad2(n) == "-" + d by {
      assert |"-" + d| >= 2;
    }
    NumberOfDigits(true, d);
  }

  lemma NumberOfNaturalPad2(n: nat)
    ensures JsNumber(Pad2(n)) == Int(n)
  {
    Pad2Digits(n);
    NumberOfDigits(false, Pad2(n));
    assert "" + Pad2(n) == Pad2(n);
  }

  /** `parseInt` without a radix reads back every printed natural number: a printed number never
      starts with `0x`. */
  lemma ParseIntAutoOfNat(n: nat)
    ensures ParseIntAuto(NatToString(n)) == Int(n)
  {
    var d := NatToString(n);
    NatToStringValue(n);
    assert !IsJsSpace(d[0]) && TrimStart(d) == d;
    assert SplitSign(d) == (false, d);
    assert |d| >= 2 ==> IsDigit(d[1]);
    LeadingDigitsOf(d, []);
    assert d + [] == d;
  }

  /** A one-digit number is printed as `0` followed by its digit. */
  lemma Pad2OneDigit(d: int)
    requires 0 <= d < 10
    ensures Pad2(d) == ['0', DigitChar(d)]
  {
  }

  /** A number below a hundred is printed as its two decimal digits. */
  lemma Pad2TwoDigits(n: nat)
    requires n < 100
    ensures Pad2(n) == [DigitChar(n / 10), DigitChar(n % 10)]
  {
    if n >= 10 {
      assert NatToString(n) == NatToString(n / 10) + [DigitChar(n % 10)];
    }
  }

  /** No printed integer contains a colon. */
  lemma Pad2NoColon(n: int)
    ensures ':' !in Pad2(n)
  {
    var m: nat := if n < 0 then -n else n;
    assert AllDigits(NatToString(m));
    if n < 0 {
      assert Pad2(n) == "-" + NatToString(m);
    } else {
      Pad2Digits(m);
    }
  }

  lemma {:induction false} SplitWithout(s: string, sep: char)
    requires sep !in s
    ensures Split(s, sep) == [s]
  {
    if s != [] {
      assert s[0] != sep && sep !in s[1..];
      SplitWithout(s[1..], sep);
      assert [s[0]] + s[1..] == s;
    }
  }

  /** Splitting two separator-free pieces joined by the separator gives the two pieces back. */
  lemma {:induction false} SplitPair(a: string, b: string, sep: char)
    requires sep !in a && sep !in b
    ensures Split(a + [sep] + b, sep) == [a, b]
  {
    var s := a + [sep] + b;
    if a == [] {
      assert s[1..] == b;
      SplitWithout(b, sep);
    } else {
      assert s[1..] == a[1..] + [sep] + b;
      SplitPair(a[1..], b, sep);
      assert [a[0]] + a[1..] == a;
    }
  }

  /** The pattern occurs at `j` in the text without its first character exactly when it occurs
      one position further on in the whole text. */
  lemma OccursInTail(s: string, pattern: string, j: nat)
    requires s != []
    ensures OccursAt(s[1..], pattern, j) <==> OccursAt(s, pattern, j + 1)
  {
    if j + |pattern| + 1 <= |s| {
      var a, b := s[1..][j..j + |pattern|], s[j + 1..j + 1 + |pattern|];
      assert |a| == |b|;
      forall k | 0 <= k < |a|
        ensures a[k] == b[k]
      {
        assert a[k] == s[j + 1 + k];
      }
    }
  }

  /** With no occurrence of the pattern, `replace` changes nothing. */
  lemma {:induction false} ReplaceFirstAbsent(s: string, pattern: string, replacement: string)
    requires forall i: nat :: !OccursAt(s, pattern, i)
    ensures ReplaceFirst(s, pattern, replacement) == s
  {
    if s != [] {
      forall i: nat ensures !OccursAt(s[1..], pattern, i) {
        OccursInTail(s, pattern, i);
      }
      ReplaceFirstAbsent(s[1..], pattern, replacement);
    }
  }

  /** `replace` substitutes the first occurrence of the pattern and leaves the rest of the text,
      later occurrences included, as it was. */
  lemma {:induction false} ReplaceFirstAt(s: string, pattern: string, replacement: string, i: nat)
    requires OccursAt(s, pattern, i)
    requires forall j: nat :: j < i ==> !OccursAt(s, pattern, j)
    ensures ReplaceFirst(s, pattern, replacement) == s[..i] + replacement + s[i + |pattern|..]
  {
    if i > 0 {
      assert !OccursAt(s, pattern, 0);
      var t := s[1..];
      OccursInTail(s, pattern, i - 1);
      forall j: nat | j < i - 1 ensures !OccursAt(t, pattern, j) {
        OccursInTail(s, pattern, j);
      }
      ReplaceFirstAt(t, pattern, replacement, i - 1);
      assert ReplaceFirst(s, pattern, replacement) == [s[0]] + ReplaceFirst(t, pattern, replacement);
      assert s[..i] == [s[0]] + t[..i - 1];
      assert s[i + |pattern|..] == t[i - 1 + |pattern|..];
    }
  }

  /** A pattern placed after a text that does not contain its first character is replaced there. */
  lemma ReplaceAfterPrefix(prefix: string, pattern: string, replacement: string)
    requires pattern != [] && pattern[0] !in prefix
    ensures ReplaceFirst(prefix + pattern, pattern, replacement) == prefix + replacement
  {
    var s := prefix + pattern;
    var i := |prefix|;
    assert s[i..i + |pattern|] == pattern;
    forall j: nat | j < i ensures !OccursAt(s, pattern, j) {
      if j + |pattern| <= |s| {
        assert s[j..j + |pattern|][0] == s[j] == prefix[j];
      }
    }
    ReplaceFirstAt(s, pattern, replacement, i);
    assert s[..i] == prefix;
  }
}

/** The pieces of Go's strings, strconv, unicode and fmt packages that the
    calendar server relies on, over strings of runes. */
module GoStrings {

  predicate IsDigit(c: char) {
    '0' <= c <= '9'
  }

  function DigitValue(c: char): (v: int)
    requires IsDigit(c)
    ensures 0 <= v < 10
  {
    c as int - '0' as int
  }

  function DigitChar(v: int): (c: char)
    requires 0 <= v < 10
    ensures IsDigit(c) && DigitValue(c) == v
  {
    ('0' as int + v) as char
  }

  predicate AllDigits(s: string) {
    forall i :: 0 <= i < |s| ==> IsDigit(s[i])
  }

  /** strings.IndexByte: the first index of c in s, or -1. */
  function IndexOf(s: string, c: char): (i: int)
    ensures -1 <= i < |s|
    ensures i == -1 <==> c !in s
    ensures 0 <= i ==> s[i] == c && c !in s[..i]
  {
    if |s| == 0 then -1
    else if s[0] == c then 0
    else
      var k := IndexOf(s[1..], c);
      assert s[1..][..if k < 0 then 0 else k] == s[1..if k < 0 then 1 else k + 1];
      if k < 0 then -1 else k + 1
  }

  /** strings.IndexAny: the first index of s holding any of the chars, or -1. */
  function IndexAny(s: string, chars: string): (i: int)
    ensures -1 <= i < |s|
    ensures i == -1 <==> forall j :: 0 <= j < |s| ==> s[j] !in chars
    ensures 0 <= i ==> s[i] in chars && forall j :: 0 <= j < i ==> s[j] !in chars
  {
    if |s| == 0 then -1
    else if s[0] in chars then 0
    else
      var k := IndexAny(s[1..], chars);
      assert forall j :: 1 <= j < |s| ==> s[j] == s[1..][j - 1];
      if k < 0 then -1 else k + 1
  }

  /** strings.LastIndexByte: the last index of c in s, or -1. */
  function LastIndexOf(s: string, c: char): (i: int)
    ensures -1 <= i < |s|
    ensures i == -1 <==> c !in s
    ensures 0 <= i ==> s[i] == c && c !in s[i + 1..]
  {
    if |s| == 0 then -1
    else if s[|s| - 1] == c then |s| - 1
    else
      assert s == s[..|s| - 1] + [s[|s| - 1]];
      LastIndexOf(s[..|s| - 1], c)
  }

  /** strings.Split with a one-rune separator: never empty, and no part
      holds the separator. */
  function Split(s: string, sep: char): (parts: seq<string>)
    ensures |parts| >= 1
    decreases |s|
  {
    var i := IndexOf(s, sep);
    if i < 0 then [s] else [s[..i]] + Split(s[i + 1..], sep)
  }

  lemma {:induction false} SplitPartsFree(s: string, sep: char)
    ensures forall i :: 0 <= i < |Split(s, sep)| ==> sep !in Split(s, sep)[i]
    decreases |s|
  {
    var i := IndexOf(s, sep);
    if i >= 0 {
      SplitPartsFree(s[i + 1..], sep);
    }
  }

  /** strings.Join with a one-rune separator. */
  function Join(parts: seq<string>, sep: char): string {
    if |parts| == 0 then ""
    else if |parts| == 1 then parts[0]
    else parts[0] + [sep] + Join(parts[1..], sep)
  }

  lemma {:induction false} IndexOfAt(a: string, c: char, b: string)
    requires c !in a
    ensures IndexOf(a + [c] + b, c) == |a|
  {
    if a != [] {
      IndexOfAt(a[1..], c, b);
      assert (a + [c] + b)[1..] == a[1..] + [c] + b;
    }
  }

  lemma SplitAt(a: string, sep: char, b: string)
    requires sep !in a
    ensures Split(a + [sep] + b, sep) == [a] + Split(b, sep)
  {
    var s := a + [sep] + b;
    IndexOfAt(a, sep, b);
    assert s[..|a|] == a;
    assert s[|a| + 1..] == b;
  }

  /** Joining the parts of a split gives back the string. */
  lemma {:induction false} JoinSplit(s: string, sep: char)
    ensures Join(Split(s, sep), sep) == s
    decreases |s|
  {
    var i := IndexOf(s, sep);
    if i >= 0 {
      var rest := Split(s[i + 1..], sep);
      JoinSplit(s[i + 1..], sep);
      var parts := [s[..i]] + rest;
      assert Split(s, sep) == parts;
      assert parts[1..] == rest;
      assert Join(parts, sep) == s[..i] + [sep] + Join(rest, sep);
      assert s == s[..i] + [sep] + s[i + 1..];
    }
  }

  /** Splitting a join of separator-free parts gives back the parts. */
  lemma {:induction false} SplitJoin(parts: seq<string>, sep: char)
    requires |parts| >= 1
    requires forall i :: 0 <= i < |parts| ==> sep !in parts[i]
    ensures Split(Join(parts, sep), sep) == parts
  {
    if |parts| > 1 {
      SplitJoin(parts[1..], sep);
      SplitAt(parts[0], sep, Join(parts[1..], sep));
    }
  }

  /** unicode.IsSpace: the Unicode White_Space property. */
  predicate IsSpace(c: char) {
    var n := c as int;
    (9 <= n <= 13) || n == 32 || n == 0x85 || n == 0xA0 || n == 0x1680
    || (0x2000 <= n <= 0x200A) || n == 0x2028 || n == 0x2029 || n == 0x202F
    || n == 0x205F || n == 0x3000
  }

  function TrimLeft(s: string): (r: string)
    ensures r == [] || !IsSpace(r[0])
    ensures |r| <= |s| && r == s[|s| - |r|..]
    ensures forall i :: 0 <= i < |s| - |r| ==> IsSpace(s[i])
  {
    if s != [] && IsSpace(s[0]) then
      var r := TrimLeft(s[1..]);
      assert forall i :: 1 <= i < |s| - |r| ==> s[i] == s[1..][i - 1];
      r
    else s
  }

  function TrimRight(s: string): (r: string)
    ensures r == [] || !IsSpace(r[|r| - 1])
    ensures |r| <= |s| && r == s[..|r|]
    ensures forall i :: |r| <= i < |s| ==> IsSpace(s[i])
  {
    if s != [] && IsSpace(s[|s| - 1]) then TrimRight(s[..|s| - 1]) else s
  }

  /** strings.TrimSpace: drops leading and trailing white space and keeps
      the middle untouched. */
  function TrimSpace(s: string): (r: string)
    ensures r == [] || (!IsSpace(r[0]) && !IsSpace(r[|r| - 1]))
    ensures var k := |s| - |TrimLeft(s)|;
            k + |r| <= |s| && r == s[k..k + |r|]
            && (forall i :: 0 <= i < k ==> IsSpace(s[i]))
            && (forall i :: k + |r| <= i < |s| ==> IsSpace(s[i]))
  {
    var l := TrimLeft(s);
    var r := TrimRight(l);
    TrimSpaceShape(s, l, r);
    r
  }

  lemma TrimSpaceShape(s: string, l: string, r: string)
    requires |l| <= |s| && l == s[|s| - |l|..]
    requires |r| <= |l| && r == l[..|r|]
    requires forall j :: |r| <= j < |l| ==> IsSpace(l[j])
    ensures var k := |s| - |l|;
            k + |r| <= |s| && r == s[k..k + |r|]
            && (forall i :: k + |r| <= i < |s| ==> IsSpace(s[i]))
  {
    var k := |s| - |l|;
    forall i | k + |r| <= i < |s|
      ensures IsSpace(s[i])
    {
      assert s[i] == l[i - k];
    }
  }

  lemma TrimSpaceKeeps(s: string)
    requires s == [] || (!IsSpace(s[0]) && !IsSpace(s[|s| - 1]))
    ensures TrimSpace(s) == s
  {
  }

  /** strings.ToLower restricted to ASCII letters (other runes kept). */
  function ToLower(s: string): (r: string)
    ensures |r| == |s|
    ensures forall i :: 0 <= i < |s| ==>
              r[i] == if 'A' <= s[i] <= 'Z' then (s[i] as int + 32) as char else s[i]
  {
    if s == [] then []
    else [if 'A' <= s[0] <= 'Z' then (s[0] as int + 32) as char else s[0]] + ToLower(s[1..])
  }

  /** Decimal digits of n without leading zeros (strconv.Itoa for n >= 0). */
  function NatDigits(n: nat): (s: string)
    ensures |s| >= 1 && AllDigits(s)
    ensures |s| > 1 ==> s[0] != '0'
  {
    if n < 10 then [DigitChar(n)] else NatDigits(n / 10) + [DigitChar(n % 10)]
  }

  /** The outcome of strconv.ParseUint's digit loop. */
  datatype Scan = Digits(n: nat) | SyntaxError | RangeError

  /** strconv.ParseUint's loop, base 10, as a fold over the prefix: the
      first non-digit is a syntax error and the first digit that takes the
      value beyond maxVal is a range error, whichever comes first. */
  function ScanDigits(s: string, maxVal: nat): (r: Scan)
    ensures r.Digits? ==> r.n <= maxVal && AllDigits(s)
  {
    if s == [] then Digits(0)
    else
      match ScanDigits(s[..|s| - 1], maxVal)
      case Digits(n) =>
        var c := s[|s| - 1];
        if !IsDigit(c) then SyntaxError
        else if n * 10 + DigitValue(c) > maxVal then RangeError
        else Digits(n * 10 + DigitValue(c))
      case e => e
  }

  /** strconv.ParseUint(s, 10, ·): the empty string is a syntax error. */
  function ParseUint(s: string, maxVal: nat): Scan {
    if s == "" then SyntaxError else ScanDigits(s, maxVal)
  }

  /** 1 << (bits - 1) for the two sizes the server uses. */
  function Cutoff(bits: nat): (c: int)
    requires bits == 32 || bits == 64
    ensures c > 0
  {
    if bits == 32 then 0x8000_0000 else 0x8000_0000_0000_0000
  }

  /** The value strconv.ParseInt(s, 10, bits) returns with its error
      ignored: 0 on a syntax error, the clamped extreme on a range error. */
  function ParseInt(s: string, bits: nat): (r: int)
    requires bits == 32 || bits == 64
    ensures -Cutoff(bits) <= r < Cutoff(bits)
  {
    if s == "" then 0
    else
      var neg := s[0] == '-';
      var body := if s[0] == '+' || s[0] == '-' then s[1..] else s;
      var cutoff := Cutoff(bits);
      match ParseUint(body, 2 * cutoff - 1)
      case SyntaxError => 0
      case RangeError => if neg then -cutoff else cutoff - 1
      case Digits(un) =>
        if !neg && un >= cutoff then cutoff - 1
        else if neg && un > cutoff then -cutoff
        else if neg then -(un as int)
        else un
  }

  /** strconv.Atoi on a 64-bit platform gives the same value as ParseInt(s, 10, 64). */
  function Atoi(s: string): (r: int)
    ensures -Cutoff(64) <= r < Cutoff(64)
  {
    ParseInt(s, 64)
  }

  const TwoTo64 := 0x1_0000_0000_0000_0000

  /** x reduced to a signed 64-bit integer, as Go's int arithmetic wraps:
      the one value of -2^63 .. 2^63-1 that differs from x by a multiple
      of 2^64. */
  function WrapInt64(x: int): (r: int)
    ensures -Cutoff(64) <= r < Cutoff(64)
    ensures (x - r) % TwoTo64 == 0
    ensures -Cutoff(64) <= x < Cutoff(64) ==> r == x
  {
    (x + Cutoff(64)) % TwoTo64 - Cutoff(64)
  }

  lemma {:induction false} ScanNatDigits(n: nat, maxVal: nat)
    requires n <= maxVal
    ensures ScanDigits(NatDigits(n), maxVal) == Digits(n)
  {
    if n >= 10 {
      ScanNatDigits(n / 10, maxVal);
      var s := NatDigits(n);
      assert s[..|s| - 1] == NatDigits(n / 10);
    }
  }

  /** A string that does not start with a digit is a syntax error to the
      digit scan, whatever follows. */
  lemma {:induction false} NoDigitsScan(s: string, maxVal: nat)
    requires s != [] && !IsDigit(s[0])
    ensures ScanDigits(s, maxVal) == SyntaxError
    decreases |s|
  {
    if |s| > 1 {
      NoDigitsScan(s[..|s| - 1], maxVal);
    }
  }

  /** A field with no digit at all reads as 0: strconv reports a syntax
      error and the value is dropped. */
  lemma ParseIntNoDigits(f: string, bits: nat)
    requires bits == 32 || bits == 64
    requires forall i :: 0 <= i < |f| ==> !IsDigit(f[i])
    ensures ParseInt(f, bits) == 0
  {
    if f != [] {
      var body := if f[0] == '+' || f[0] == '-' then f[1..] else f;
      if body != [] {
        assert !IsDigit(body[0]);
        NoDigitsScan(body, 2 * Cutoff(bits) - 1);
      }
    }
  }

  /** Decimal printing and strconv.ParseInt are inverse on the values that fit. */
  lemma ParseIntNatDigits(n: nat, bits: nat)
    requires bits == 32 || bits == 64
    ensures n < Cutoff(bits) ==> ParseInt(NatDigits(n), bits) == n
    ensures n <= Cutoff(bits) ==> ParseInt("-" + NatDigits(n), bits) == -(n as int)
  {
    if n < 2 * Cutoff(bits) {
      ScanNatDigits(n, 2 * Cutoff(bits) - 1);
      assert ("-" + NatDigits(n))[1..] == NatDigits(n);
    }
  }

  /** On a string of digits the scan reads its value, or reports a range
      error when the value exceeds maxVal. */
  lemma {:induction false} ScanAllDigits(s: string, maxVal: nat)
    requires AllDigits(s)
    ensures ScanDigits(s, maxVal) == if DigitsValue(s) <= maxVal then Digits(DigitsValue(s)) else RangeError
    decreases |s|
  {
    if s != [] {
      var init := s[..|s| - 1];
      assert AllDigits(init) by {
        forall i | 0 <= i < |init| ensures IsDigit(init[i]) { assert init[i] == s[i]; }
      }
      ScanAllDigits(init, maxVal);
    }
  }

  /** Once the scan has stopped on an error, what follows is not read. */
  lemma {:induction false} ScanErrorExtends(a: string, b: string, maxVal: nat)
    requires !ScanDigits(a, maxVal).Digits?
    ensures ScanDigits(a + b, maxVal) == ScanDigits(a, maxVal)
    decreases |b|
  {
    if b == [] {
      assert a + b == a;
    } else {
      var ab := a + b;
      assert ab[..|ab| - 1] == a + b[..|b| - 1];
      ScanErrorExtends(a, b[..|b| - 1], maxVal);
    }
  }

  /** The body ParseInt hands to the digit scan: the text after a sign. */
  lemma SignedBody(sign: string, t: string)
    requires sign == "" || sign == "+" || sign == "-"
    requires t != [] && (sign == "" ==> t[0] != '+' && t[0] != '-')
    ensures var s := sign + t;
            s != [] && (s[0] == '-' <==> sign == "-")
            && (if s[0] == '+' || s[0] == '-' then s[1..] else s) == t
  {
    var s := sign + t;
    if sign != "" {
      assert s[0] == sign[0] && s[1..] == t;
    } else {
      assert s == t;
    }
  }

  /** A field that is an optional sign, some digits and then a character
      that is not a digit reads as 0, whatever follows: strconv stops on a
      syntax error there, provided the digits before it did not already
      overflow (a range error comes first and clamps instead). */
  lemma ParseIntSyntaxError(sign: string, pre: string, c: char, rest: string, bits: nat)
    requires bits == 32 || bits == 64
    requires sign == "" || sign == "+" || sign == "-"
    requires AllDigits(pre) && !IsDigit(c)
    requires DigitsValue(pre) < 2 * Cutoff(bits)
    requires sign == "" && pre == [] ==> c != '+' && c != '-'
    ensures ParseInt(sign + pre + [c] + rest, bits) == 0
  {
    var maxVal := 2 * Cutoff(bits) - 1;
    var t := pre + [c] + rest;
    assert sign + pre + [c] + rest == sign + t;
    assert t[0] == if pre == [] then c else pre[0];
    SignedBody(sign, t);
    ScanAllDigits(pre, maxVal);
    var pc := pre + [c];
    assert pc[..|pc| - 1] == pre && pc[|pc| - 1] == c;
    assert ScanDigits(pc, maxVal) == SyntaxError;
    ScanErrorExtends(pc, rest, maxVal);
  }

  /** A field that is an optional sign and one or more digits reads as its
      value, clamped to the range of the bit size. */
  lemma ParseIntDigits(sign: string, pre: string, bits: nat)
    requires bits == 32 || bits == 64
    requires sign == "" || sign == "+" || sign == "-"
    requires AllDigits(pre) && pre != []
    ensures var v := if sign == "-" then -(DigitsValue(pre) as int) else DigitsValue(pre);
            ParseInt(sign + pre, bits)
            == if v >= Cutoff(bits) then Cutoff(bits) - 1 else if v < -Cutoff(bits) then -Cutoff(bits) else v
  {
    SignedBody(sign, pre);
    ScanAllDigits(pre, 2 * Cutoff(bits) - 1);
  }

  /** "12a", "1 " and "1.5" read as 0. */
  lemma ParseIntSyntaxExamples()
    ensures ParseInt("12a", 32) == 0 && ParseInt("1 ", 32) == 0 && ParseInt("1.5", 32) == 0
  {
    assert DigitsValue("12") == 12 && DigitsValue("1") == 1;
    assert "" + "12" + ['a'] + "" == "12a" && "" + "1" + [' '] + "" == "1 " && "" + "1" + ['.'] + "5" == "1.5";
    ParseIntSyntaxError("", "12", 'a', "", 32);
    ParseIntSyntaxError("", "1", ' ', "", 32);
    ParseIntSyntaxError("", "1", '.', "5", 32);
  }

  /** "99999999999a" overflows 32 bits before its letter: the range error
      comes first and the field reads as the largest value, not 0. */
  lemma ParseIntOverflowFirst()
    ensures ParseInt("99999999999a", 32) == Cutoff(32) - 1
  {
    var nines := "99999999999";
    NinesValue();
    ScanAllDigits(nines, 2 * Cutoff(32) - 1);
    ScanErrorExtends(nines, "a", 2 * Cutoff(32) - 1);
    assert nines + "a" == "99999999999a";
  }

  lemma NinesValue()
    ensures AllDigits("99999999999") && DigitsValue("99999999999") == 99999999999
  {
    assert AllDigits("99999999999") by {
      forall i | 0 <= i < 11 ensures IsDigit("99999999999"[i]) { assert "99999999999"[i] == '9'; }
    }
    SixNines();
    assert "9999999"[..6] == "999999" && DigitsValue("9999999") == 9999999;
    assert "99999999"[..7] == "9999999" && DigitsValue("99999999") == 99999999;
    assert "999999999"[..8] == "99999999" && DigitsValue("999999999") == 999999999;
    assert "9999999999"[..9] == "999999999" && DigitsValue("9999999999") == 9999999999;
    assert "99999999999"[..10] == "9999999999" && DigitsValue("99999999999") == 99999999999;
  }

  lemma SixNines()
    ensures DigitsValue("999999") == 999999
  {
    assert DigitsValue("9") == 9;
    assert "99"[..1] == "9" && DigitsValue("99") == 99;
    assert "999"[..2] == "99" && DigitsValue("999") == 999;
    assert "9999"[..3] == "999" && DigitsValue("9999") == 9999;
    assert "99999"[..4] == "9999" && DigitsValue("99999") == 99999;
    assert "999999"[..5] == "99999" && DigitsValue("999999") == 999999;
  }

  function Repeat(c: char, k: int): (s: string)
    ensures |s| == if k < 0 then 0 else k
    ensures forall i :: 0 <= i < |s| ==> s[i] == c
  {
    if k <= 0 then "" else [c] + Repeat(c, k - 1)
  }

  /** fmt's %<width>d (zero = false) and %0<width>d (zero = true): the sign,
      then the digits of |n|, padded on the left with spaces to the width,
      or with zeros between the sign and the digits. */
  function FormatInt(n: int, width: nat, zero: bool): (s: string)
    ensures |s| >= width
  {
    var digits := NatDigits(if n < 0 then -n else n);
    var sign := if n < 0 then "-" else "";
    if zero then sign + Repeat('0', width - |sign| - |digits|) + digits
    else Repeat(' ', width - |sign| - |digits|) + sign + digits
  }

  /** The value of a string of decimal digits, leading zeros allowed. */
  function DigitsValue(s: string): (v: nat)
    requires AllDigits(s)
  {
    if s == [] then 0 else DigitsValue(s[..|s| - 1]) * 10 + DigitValue(s[|s| - 1])
  }

  function Pow10(k: nat): (p: nat)
    ensures p >= 1
  {
    if k == 0 then 1 else 10 * Pow10(k - 1)
  }

  /** The k lowest decimal digits of n, zeros in front. */
  function FixedDigits(n: nat, k: nat): (s: string)
    ensures |s| == k && AllDigits(s)
  {
    if k == 0 then "" else FixedDigits(n / 10, k - 1) + [DigitChar(n % 10)]
  }

  lemma {:induction false} FixedDigitsValue(n: nat, k: nat)
    requires n < Pow10(k)
    ensures DigitsValue(FixedDigits(n, k)) == n
  {
    if k > 0 {
      FixedDigitsValue(n / 10, k - 1);
      var s := FixedDigits(n, k);
      assert s[..|s| - 1] == FixedDigits(n / 10, k - 1);
    }
  }

  lemma {:induction false} FixedDigitsOfZero(k: nat)
    ensures FixedDigits(0, k) == Repeat('0', k)
  {
    if k > 0 {
      FixedDigitsOfZero(k - 1);
      assert Repeat('0', k) == Repeat('0', k - 1) + ['0'];
    }
  }

  /** Zero padding to k places writes exactly the k low digits. */
  lemma {:induction false} FormatIntZeroPadded(n: nat, k: nat)
    requires k >= 1 && n < Pow10(k)
    ensures FormatInt(n, k, true) == FixedDigits(n, k)
    decreases k
  {
    var digits := NatDigits(n);
    assert FormatInt(n, k, true) == Repeat('0', k - |digits|) + digits;
    if n < 10 {
      FixedDigitsOfZero(k - 1);
    } else {
      FormatIntZeroPadded(n / 10, k - 1);
      assert FormatInt(n / 10, k - 1, true) == Repeat('0', k - 1 - |NatDigits(n / 10)|) + NatDigits(n / 10);
    }
  }
}

/** Integers as text: the integer conversion of the formatter (`external/uacpi/source/stdlib.c`),
    `uacpi_string_to_integer` (`utilities.c`) and the AML conversions built on them
    (`interpreter.c`). */
module IntStrings {
  import opened Machine
  import opened Words

  const MAX_U64: nat := TWO_64 - 1

  // ----- digits -----

  function HexDigit(upper: bool, d: nat): char
    requires d < 16
  {
    if d < 10 then '0' + d as char else (if upper then 'A' else 'a') + (d - 10) as char
  }

  /** The character the formatter uses for one digit. */
  function DigitChar(base: nat, upper: bool, d: nat): char
    requires 0 < base && d < base
  {
    if base == 16 then HexDigit(upper, d)
    else if base == 8 || base == 10 then '0' + d as char
    else '?'
  }

  /** The digits of `n`, most significant first, none for zero. */
  function Digits(n: nat, base: nat, upper: bool): string
    requires base >= 2
    decreases n
  {
    if n == 0 then "" else Digits(n / base, base, upper) + [DigitChar(base, upper, n % base)]
  }

  /** What a character counts for, in the parser's switch. */
  function DigitOf(c: char, base: nat): Option<nat> {
    if '0' <= c <= '9' then
      if base == 8 && c > '7' then None else Some(c as nat - '0' as nat)
    else if base != 16 then None
    else if 'a' <= c <= 'f' then Some(10 + (c as nat - 'a' as nat))
    else if 'A' <= c <= 'F' then Some(10 + (c as nat - 'A' as nat))
    else None
  }

  predicate AllDigits(s: string, base: nat) {
    forall k :: 0 <= k < |s| ==> DigitOf(s[k], base).Some?
  }

  /** The number a string of digits denotes, of any size. */
  function Num(s: string, base: nat): nat
    requires AllDigits(s, base)
  {
    if s == "" then 0
    else Num(s[..|s| - 1], base) * base + DigitOf(s[|s| - 1], base).value
  }

  /** How many digits the string starts with. */
  function DigitRun(s: string, base: nat): (k: nat)
    ensures k <= |s| && AllDigits(s[..k], base)
    ensures k < |s| ==> DigitOf(s[k], base).None?
  {
    if s == "" || DigitOf(s[0], base).None? then 0
    else
      var k := DigitRun(s[1..], base);
      assert s[..k + 1] == [s[0]] + s[1..][..k];
      k + 1
  }

  lemma DigitRunIs(s: string, base: nat, k: nat)
    requires k <= |s| && AllDigits(s[..k], base) && (k < |s| ==> DigitOf(s[k], base).None?)
    ensures DigitRun(s, base) == k
  {
    var r := DigitRun(s, base);
    assert forall j :: 0 <= j < k ==> s[..k][j] == s[j];
    assert forall j :: 0 <= j < r ==> s[..r][j] == s[j];
  }

  lemma Prefix(s: string, base: nat, i: nat, j: nat)
    requires i <= j <= |s| && AllDigits(s[..j], base)
    ensures AllDigits(s[..i], base)
  {
    assert forall k :: 0 <= k < i ==> s[..i][k] == s[..j][k];
  }

  lemma NumStep(s: string, base: nat)
    requires s != "" && AllDigits(s, base)
    ensures AllDigits(s[..|s| - 1], base) && DigitOf(s[|s| - 1], base).Some?
    ensures Num(s, base) == Num(s[..|s| - 1], base) * base + DigitOf(s[|s| - 1], base).value
  {}

  lemma {:induction false} NumGrows(s: string, base: nat, i: nat, j: nat)
    requires 0 < base && i <= j <= |s| && AllDigits(s[..j], base)
    ensures AllDigits(s[..i], base) && Num(s[..i], base) <= Num(s[..j], base)
    decreases j
  {
    hide DigitOf, AllDigits;
    Prefix(s, base, i, j);
    if i < j {
      Prefix(s, base, j - 1, j);
      NumGrows(s, base, i, j - 1);
      NumStep(s[..j], base);
      assert s[..j][..j - 1] == s[..j - 1];
      Times(Num(s[..j - 1], base), 1, base);
    }
  }

  lemma Times(a: nat, b: nat, c: nat)
    requires b <= c
    ensures a * b <= a * c && b * a <= c * a
  {}

  predicate TextBase(base: nat) { base == 8 || base == 10 || base == 16 }

  lemma DigitOfChar(base: nat, upper: bool, d: nat)
    requires TextBase(base) && d < base
    ensures DigitOf(DigitChar(base, upper, d), base) == Some(d)
    ensures DigitChar(base, upper, d) == '0' <==> d == 0
  {}

  lemma NumAppend(s: string, c: char, base: nat)
    requires AllDigits(s, base) && DigitOf(c, base).Some?
    ensures AllDigits(s + [c], base) && Num(s + [c], base) == Num(s, base) * base + DigitOf(c, base).value
  {
    assert (s + [c])[..|s|] == s;
  }

  lemma EmptyNum(base: nat)
    ensures AllDigits("", base) && Num("", base) == 0
  {}

  /** Parsing undoes printing, digit by digit. */
  lemma {:induction false} NumOfDigits(n: nat, base: nat, upper: bool)
    requires TextBase(base)
    ensures AllDigits(Digits(n, base, upper), base) && Num(Digits(n, base, upper), base) == n
    ensures n > 0 ==> Digits(n, base, upper) != "" && Digits(n, base, upper)[0] != '0'
    decreases n
  {
    hide DigitOf, DigitChar, AllDigits, Num;
    if n > 0 {
      var q := n / base;
      NumOfDigits(q, base, upper);
      DigitOfChar(base, upper, n % base);
      NumAppend(Digits(q, base, upper), DigitChar(base, upper, n % base), base);
      assert n == q * base + n % base;
    } else {
      EmptyNum(base);
    }
  }

  function Pow(base: nat, k: nat): nat {
    if k == 0 then 1 else base * Pow(base, k - 1)
  }

  lemma {:induction false} DigitsFit(n: nat, base: nat, upper: bool, k: nat)
    requires base >= 2 && n < Pow(base, k)
    ensures |Digits(n, base, upper)| <= k
    decreases k
  {
    hide Pow;
    if n > 0 {
      OneDigitLess(n, base, k);
      DigitsFit(n / base, base, upper, k - 1);
    }
  }

  lemma OneDigitLess(n: nat, base: nat, k: nat)
    requires base >= 2 && 0 < n < Pow(base, k)
    ensures k > 0 && n / base < Pow(base, k - 1)
  {
    DivBelow(n, base, Pow(base, k - 1));
  }

  lemma DivBelow(n: nat, base: nat, m: nat)
    requires base > 0 && n < base * m
    ensures n / base < m
  {
    var q := n / base;
    assert base * q <= n;
    if q >= m {
      Times(base, m, q);
      assert false;
    }
  }

  lemma {:induction false} PowGrows(a: nat, b: nat, k: nat)
    requires a <= b
    ensures Pow(a, k) <= Pow(b, k)
  {
    if k > 0 {
      PowGrows(a, b, k - 1);
      Times(Pow(a, k - 1), a, b);
      Times(b, Pow(a, k - 1), Pow(b, k - 1));
    }
  }

  lemma {:induction false} PowSum(base: nat, j: nat, k: nat)
    ensures Pow(base, j + k) == Pow(base, j) * Pow(base, k)
  {
    if j > 0 {
      PowSum(base, j - 1, k);
      TimesAssociative(base, Pow(base, j - 1), Pow(base, k));
    }
  }

  lemma TimesAssociative(a: nat, b: nat, c: nat)
    ensures a * (b * c) == (a * b) * c
  {}

  lemma WordPowers()
    ensures Pow(8, 22) == 0x4_0000_0000_0000_0000 && Pow(10, 20) == 100_000_000_000_000_000_000
    ensures Pow(16, 16) == TWO_64
  {
    assert Pow(8, 5) == 8 * (8 * (8 * (8 * (8 * Pow(8, 0)))));
    assert Pow(8, 11) == 8 * Pow(8, 5 + 5) by { assert 11 == 1 + (5 + 5); }
    PowSum(8, 5, 5);
    PowSum(8, 11, 11);
    assert Pow(10, 5) == 10 * (10 * (10 * (10 * (10 * Pow(10, 0)))));
    PowSum(10, 5, 5);
    PowSum(10, 10, 10);
    assert Pow(16, 4) == 16 * (16 * (16 * (16 * Pow(16, 0))));
    PowSum(16, 4, 4);
    PowSum(16, 8, 8);
  }

  /** 64 bits take at most 20 decimal, 16 hexadecimal and, in any base from 8 on,
      22 digits. */
  lemma WordDigits(n: nat, base: nat, upper: bool)
    requires n < TWO_64 && base >= 8
    ensures |Digits(n, base, upper)| <= 22
    ensures base == 10 ==> |Digits(n, base, upper)| <= 20
    ensures base == 16 ==> |Digits(n, base, upper)| <= 16
  {
    hide Pow, Digits;
    WordPowers();
    PowGrows(8, base, 22);
    DigitsFit(n, base, upper, 22);
    if base == 10 {
      DigitsFit(n, base, upper, 20);
    } else if base == 16 {
      DigitsFit(n, base, upper, 16);
    }
  }

  // ----- uacpi_string_to_integer -----

  datatype Base = Auto | Oct | Dec | Hex

  /** The status (OK or INVALID_ARGUMENT) and the integer stored. */
  datatype Parsed = Parsed(ok: bool, value: nat)

  /** `is_char(c, CHAR_TYPE_SPACE)`. */
  predicate IsSpace(c: char) { c == ' ' || 9 <= c as int <= 13 }

  function ToLower(c: char): char { if 'A' <= c <= 'Z' then c + ('a' - 'A') else c }

  function SkipSpaces(s: string): string {
    if s != "" && IsSpace(s[0]) then SkipSpaces(s[1..]) else s
  }

  /** What the digits at the front denote: the exact number below 2^64 and the largest
      word from there on.  The status is OK when the scan ended at the last character
      or at a NUL. */
  function Magnitude(body: string, base: nat): (p: Parsed)
    ensures p.value < TWO_64
  {
    var k := DigitRun(body, base);
    var v := Num(body[..k], base);
    if v < TWO_64 then Parsed(k == |body| || k + 1 == |body| || body[k] == '\0', v)
    else
      Prefix(body, base, k - 1, k);
      Parsed(k == |body| && Num(body[..k - 1], base) < TWO_64, MAX_U64)
  }

  /** The base the prefix asks for, and what follows it. */
  function Prefixed(s: string, base: Base): (nat, string) {
    match base
    case Oct => (8, s)
    case Dec => (10, s)
    case Hex => (16, s)
    case Auto =>
      if s == "" || s[0] != '0' then (10, s)
      else if |s| > 1 && ToLower(s[1]) == 'x' then (16, s[2..])
      else (8, s[1..])
  }

  function Negated(negative: bool, value: nat): nat
    requires value < TWO_64
  {
    if negative then (TWO_64 - value) % TWO_64 else value
  }

  /** What a string means as an integer. */
  function Parse(s: string, base: Base): Parsed {
    var t := SkipSpaces(s);
    var negative := t != "" && t[0] == '-';
    var signed := negative || (t != "" && t[0] == '+');
    ParseUnsigned(negative, Prefixed(if signed then t[1..] else t, base))
  }

  function ParseUnsigned(negative: bool, prefixed: (nat, string)): Parsed {
    var p := Magnitude(prefixed.1, prefixed.0);
    Parsed(p.ok, Negated(negative, p.value))
  }

  /** Space, tab, line feed, vertical tab, form feed and carriage return in front do not
      matter. */
  lemma {:induction false} WhitespaceSkipped(s: string, t: string, base: Base)
    requires forall k :: 0 <= k < |s| ==> s[k] as int in {32, 9, 10, 11, 12, 13}
    ensures Parse(s + t, base) == Parse(t, base)
  {
    if s == "" {
      assert s + t == t;
    } else {
      assert (s + t)[1..] == s[1..] + t;
      WhitespaceSkipped(s[1..], t, base);
    }
  }

  /** Nothing else is skipped: any other character in front that is no sign and no digit
      makes the value 0. */
  lemma NothingElseSkipped(t: string, base: Base)
    requires t != "" && t[0] as int !in {32, 9, 10, 11, 12, 13} && t[0] != '-' && t[0] != '+'
    requires !('0' <= t[0] <= '9') && !('a' <= t[0] <= 'f') && !('A' <= t[0] <= 'F')
    ensures Parse(t, base).value == 0
  {
    var b := Prefixed(t, base).0;
    assert DigitOf(t[0], b).None?;
    assert DigitRun(t, b) == 0;
  }

  /** A 64-bit numeral up to the end of the text or to a NUL. */
  ghost predicate FitsWord(body: string, base: nat) {
    exists k :: 0 <= k <= |body| && AllDigits(body[..k], base) && Num(body[..k], base) < TWO_64
      && (k == |body| || body[k] == '\0')
  }

  /** The status is OK for numerals, and for any text that is one but for its last
      character: a character of no use there, and an overflow there, go unnoticed. */
  lemma AcceptsExactly(body: string, base: nat)
    requires TextBase(base)
    ensures Magnitude(body, base).ok <==>
      FitsWord(body, base) ||
      (body != "" && AllDigits(body[..|body| - 1], base) && Num(body[..|body| - 1], base) < TWO_64)
  {
    if FitsWord(body, base) {
      var j :| 0 <= j <= |body| && AllDigits(body[..j], base) && Num(body[..j], base) < TWO_64
        && (j == |body| || body[j] == '\0');
      DigitRunIs(body, base, j);
    } else if body != "" && AllDigits(body[..|body| - 1], base) && Num(body[..|body| - 1], base) < TWO_64 {
      LastGoesUnnoticed(body, base);
    } else if Magnitude(body, base).ok {
      RefusesTheRest(body, base);
      assert false;
    }
  }

  lemma LastGoesUnnoticed(body: string, base: nat)
    requires body != "" && AllDigits(body[..|body| - 1], base) && Num(body[..|body| - 1], base) < TWO_64
    ensures Magnitude(body, base).ok
  {
    hide Num;
    var n := |body| - 1;
    if DigitOf(body[n], base).None? {
      DigitRunIs(body, base, n);
    } else {
      NumAppend(body[..n], body[n], base);
      assert body[..n] + [body[n]] == body[..n + 1];
      DigitRunIs(body, base, n + 1);
    }
  }

  lemma RefusesTheRest(body: string, base: nat)
    requires Magnitude(body, base).ok
    ensures FitsWord(body, base) ||
      (body != "" && AllDigits(body[..|body| - 1], base) && Num(body[..|body| - 1], base) < TWO_64)
  {
    hide Num;
    var k := DigitRun(body, base);
    if Num(body[..k], base) >= TWO_64 {
      EmptyNum(base);
      Prefix(body, base, k - 1, k);
    } else if k + 1 != |body| {
      assert AllDigits(body[..k], base) && Num(body[..k], base) < TWO_64;
    }
  }

  /** A stray character goes unnoticed as the last one of the text, and not before it. */
  lemma AcceptsBadLast()
    ensures Parse("1z", Dec) == Parsed(true, 1) && Parse("1z\0", Dec) == Parsed(false, 1)
  {
    OneZ("1z");
    OneZ("1z\0");
  }

  lemma OneZ(s: string)
    requires s == "1z" || s == "1z\0"
    ensures SkipSpaces(s) == s && DigitRun(s, 10) == 1 && Num(s[..1], 10) == 1
  {
    assert s[..1] == "1";
    EmptyNum(10);
    NumAppend("", '1', 10);
    assert "" + "1" == "1";
    DigitRunIs(s, 10, 1);
  }

  /** The wrap-around test `next / base != value` detects overflow exactly. */
  lemma OverflowTest(value: nat, base: nat, d: nat)
    requires value < TWO_64 && d < base < TWO_64
    ensures ((value * base + d) % TWO_64) / base == value <==> value * base + d < TWO_64
  {
    var x := value * base + d;
    if x < TWO_64 {
      Quotient(x, base, value, d);
    } else {
      var w := x % TWO_64;
      assert w <= x - TWO_64 < value * base;
      DivBelow(w, base, value);
    }
  }

  lemma Quotient(x: nat, base: nat, q: nat, d: nat)
    requires d < base && x == q * base + d
    ensures x / base == q
  {
    var p := x / base;
    if p < q {
      Times(base, p + 1, q);
      assert false;
    } else if q < p {
      Times(base, q + 1, p);
      assert false;
    }
  }

  lemma NextDigit(body: string, base: nat, i: nat)
    requires i < |body| && AllDigits(body[..i], base) && DigitOf(body[i], base).Some?
    ensures AllDigits(body[..i + 1], base)
    ensures Num(body[..i + 1], base) == Num(body[..i], base) * base + DigitOf(body[i], base).value
  {
    NumAppend(body[..i], body[i], base);
    assert body[..i + 1] == body[..i] + [body[i]];
  }

  lemma DigitInBase(c: char, base: nat)
    requires TextBase(base) && DigitOf(c, base).Some?
    ensures DigitOf(c, base).value < base && c != '\0'
  {}

  /** The scan stops at the end or at a character that is no digit. */
  lemma StopsAt(body: string, base: nat, i: nat)
    requires i <= |body| && AllDigits(body[..i], base) && Num(body[..i], base) < TWO_64
    requires i < |body| ==> DigitOf(body[i], base).None?
    ensures Magnitude(body, base) ==
      Parsed(i == |body| || i + 1 == |body| || body[i] == '\0', Num(body[..i], base))
  {
    DigitRunIs(body, base, i);
  }

  /** The scan stops at the first digit that does not fit. */
  lemma Saturates(body: string, base: nat, i: nat)
    requires 0 < base && i < |body| && AllDigits(body[..i + 1], base) && AllDigits(body[..i], base)
    requires Num(body[..i], base) < TWO_64 <= Num(body[..i + 1], base)
    ensures Magnitude(body, base) == Parsed(i + 1 == |body|, MAX_U64)
  {
    hide Num, DigitOf;
    var k := DigitRun(body, base);
    assert i + 1 <= k by {
      assert forall j :: 0 <= j < i + 1 ==> body[..i + 1][j] == body[j];
    }
    NumGrows(body, base, i + 1, k);
    Prefix(body, base, k - 1, k);
    if i + 1 < k {
      NumGrows(body, base, i + 1, k - 1);
    }
  }

  /** A string being consumed from the front: `str` and `max_chars`. */
  class Cursor {
    const text: string
    var at: nat

    ghost predicate Valid()
      reads this
    {
      at <= |text|
    }

    ghost function Rest(): string
      reads this
      requires Valid()
    {
      text[at..]
    }

    constructor (text: string)
      ensures Valid() && Rest() == text && this.text == text
    {
      this.text := text;
      at := 0;
    }

    method Remaining() returns (n: nat)
      requires Valid()
      ensures n == |Rest()|
    {
      n := |text| - at;
    }

    method ConsumeOne() returns (c: Option<char>)
      requires Valid()
      modifies this
      ensures Valid()
      ensures
        if old(Rest()) == "" then c == None && Rest() == ""
        else c == Some(old(Rest())[0]) && Rest() == old(Rest())[1..]
    {
      if at == |text| {
        return None;
      }
      c := Some(text[at]);
      at := at + 1;
    }

    /** `consume_if` for spaces. */
    method ConsumeSpace() returns (taken: bool)
      requires Valid()
      modifies this
      ensures Valid()
      ensures taken <==> old(Rest()) != "" && IsSpace(old(Rest())[0])
      ensures Rest() == if taken then old(Rest())[1..] else old(Rest())
    {
      taken := at < |text| && IsSpace(text[at]);
      if taken {
        at := at + 1;
      }
    }

    method ConsumeIfEquals(c: char) returns (taken: bool)
      requires Valid()
      modifies this
      ensures Valid()
      ensures taken <==> old(Rest()) != "" && ToLower(old(Rest())[0]) == c
      ensures Rest() == if taken then old(Rest())[1..] else old(Rest())
    {
      taken := at < |text| && ToLower(text[at]) == c;
      if taken {
        at := at + 1;
      }
    }

    method SkipAllSpaces()
      requires Valid()
      modifies this
      ensures Valid() && Rest() == SkipSpaces(old(Rest()))
    {
      var more := true;
      while more
        invariant Valid() && SkipSpaces(Rest()) == SkipSpaces(old(Rest()))
        invariant !more ==> Rest() == "" || !IsSpace(Rest()[0])
        decreases more, |text| - at
      {
        more := ConsumeSpace();
      }
    }

    /** The sign and, with automatic base, the prefix. */
    method ReadPrefix(base: Base) returns (negative: bool, radix: nat)
      requires Valid()
      modifies this
      ensures Valid()
      ensures
        var t := old(Rest());
        var signed := t != "" && (t[0] == '-' || t[0] == '+');
        && TextBase(radix) && negative == (t != "" && t[0] == '-')
        && (radix, Rest()) == Prefixed(if signed then t[1..] else t, base)
    {
      negative := ConsumeIfEquals('-');
      if !negative {
        var plus := ConsumeIfEquals('+');
      }
      match base
      case Oct => radix := 8;
      case Dec => radix := 10;
      case Hex => radix := 16;
      case Auto =>
        radix := 10;
        var zero := ConsumeIfEquals('0');
        if zero {
          radix := 8;
          var x := ConsumeIfEquals('x');
          if x {
            radix := 16;
          }
        }
    }

    /** The digit loop. */
    method ReadDigits(base: nat) returns (ok: bool, value: nat)
      requires Valid() && TextBase(base)
      modifies this
      ensures Parsed(ok, value) == Magnitude(old(Rest()), base)
    {
      hide Num, AllDigits, DigitOf, Magnitude;
      ghost var body := Rest();
      ghost var i: nat := 0;
      value := 0;
      var c := '\0';
      assert body[..0] == "" && body[0..] == body;
      EmptyNum(base);
      while true
        invariant Valid() && i <= |body| && Rest() == body[i..]
        invariant AllDigits(body[..i], base) && value == Num(body[..i], base) < TWO_64
        decreases |text| - at
      {
        var one := ConsumeOne();
        if one.None? {
          StopsAt(body, base, i);
          break;
        }
        c := one.value;
        assert c == body[i] && Rest() == body[i + 1..];
        var digit := DigitOf(c, base);
        if digit.None? {
          StopsAt(body, base, i);
          break;
        }
        NextDigit(body, base, i);
        DigitInBase(c, base);
        OverflowTest(value, base, digit.value);
        var next := (value * base + digit.value) % TWO_64;
        if next / base != value {
          value := MAX_U64;
          Saturates(body, base, i);
          break;
        }
        value := next;
        i := i + 1;
      }
      var left := Remaining();
      ok := left == 0 || c == '\0';
    }
  }

  method StringToInteger(text: string, base: Base) returns (ok: bool, value: nat)
    ensures Parsed(ok, value) == Parse(text, base)
  {
    hide Magnitude, Prefixed, SkipSpaces, Num, AllDigits, DigitRun, IsSpace, ToLower;
    var cursor := new Cursor(text);
    cursor.SkipAllSpaces();
    var negative, radix := cursor.ReadPrefix(base);
    ok, value := cursor.ReadDigits(radix);
    if negative {
      value := (TWO_64 - value) % TWO_64;
    }
  }

  // ----- the formatter -----

  /** `struct fmt_spec`, without the precision, which integers ignore. */
  datatype Spec = Spec(isSigned: bool, prepend: bool, uppercase: bool, leftJustify: bool,
    alternateForm: bool, padChar: char, prependChar: char, minWidth: nat, base: nat)

  predicate IsNegative(fm: Spec, value: nat) {
    fm.isSigned && value >= TWO_64 / 2
  }

  function AbsoluteValue(fm: Spec, value: nat): nat
    requires value < TWO_64
  {
    if IsNegative(fm, value) then TWO_64 - value else value
  }

  function Sign(fm: Spec, value: nat): string {
    if IsNegative(fm, value) then "-" else if fm.prepend then [fm.prependChar] else ""
  }

  function Numeral(n: nat, base: nat, upper: bool): string
    requires base >= 2
  {
    if n == 0 then "0" else Digits(n, base, upper)
  }

  function BasePrefix(fm: Spec): string {
    if !fm.alternateForm then ""
    else if fm.base == 16 then (if fm.uppercase then "0X" else "0x")
    else if fm.base == 8 then "0"
    else ""
  }

  function Padding(fm: Spec, size: nat): string {
    if fm.minWidth <= size then ""
    else seq(fm.minWidth - size, _ => if fm.leftJustify then ' ' else fm.padChar)
  }

  /** The text one integer conversion produces. */
  function Formatted(fm: Spec, value: nat): string
    requires value < TWO_64 && fm.base >= 2
  {
    var repr := BasePrefix(fm) + Numeral(AbsoluteValue(fm, value), fm.base, fm.uppercase);
    Sign(fm, value) + (if fm.leftJustify then repr + Padding(fm, |repr|) else Padding(fm, |repr|) + repr)
  }

  lemma NumeralSize(n: nat, base: nat, upper: bool)
    requires n < TWO_64 && base >= 8
    ensures |Numeral(n, base, upper)| == if n == 0 then 1 else |Digits(n, base, upper)|
    ensures |Numeral(n, base, upper)| <= 22
    ensures base == 10 ==> |Numeral(n, base, upper)| <= 20
    ensures base == 16 ==> |Numeral(n, base, upper)| <= 16
  {
    hide Digits;
    WordDigits(n, base, upper);
  }

  /** `fmt_buf_state`: `out` is everything produced, of which the buffer keeps as much
      as fits. */
  class Output {
    const buffer: array<char>
    var bytesWritten: nat
    ghost var out: string

    ghost predicate Valid()
      reads this, buffer
    {
      && bytesWritten == |out|
      && forall k :: 0 <= k < |out| && k < buffer.Length ==> buffer[k] == out[k]
    }

    constructor (buffer: array<char>)
      ensures Valid() && this.buffer == buffer && out == ""
    {
      this.buffer := buffer;
      bytesWritten := 0;
      out := "";
    }

    method WriteOne(c: char)
      requires Valid()
      modifies this, buffer
      ensures Valid() && out == old(out) + [c]
    {
      if bytesWritten < buffer.Length {
        buffer[bytesWritten] := c;
      }
      bytesWritten := bytesWritten + 1;
      out := out + [c];
    }

    /** `write_many`: as many characters as fit are copied, all are counted. */
    method WriteMany(text: array<char>, from: nat, count: nat)
      requires Valid() && text != buffer && from + count <= text.Length
      modifies this, buffer
      ensures Valid() && out == old(out) + text[from..from + count]
    {
      if bytesWritten < buffer.Length {
        var room := buffer.Length - bytesWritten;
        var countToWrite := if count < room then count else room;
        for i := 0 to countToWrite
          invariant bytesWritten == old(bytesWritten) && out == old(out)
          invariant forall k :: 0 <= k < bytesWritten ==> buffer[k] == old(buffer[k])
          invariant forall k :: bytesWritten <= k < bytesWritten + i ==>
            buffer[k] == text[from..from + count][k - bytesWritten]
        {
          buffer[bytesWritten + i] := text[from + i];
        }
      }
      bytesWritten := bytesWritten + count;
      out := out + text[from..from + count];
    }

    method WritePadding(fm: Spec, size: nat)
      requires Valid()
      modifies this, buffer
      ensures Valid() && out == old(out) + Padding(fm, size)
    {
      if fm.minWidth <= size {
        return;
      }
      var mw := fm.minWidth - size;
      var c := if fm.leftJustify then ' ' else fm.padChar;
      for i := 0 to mw
        invariant Valid() && out == old(out) + seq(i, _ => c)
      {
        WriteOne(c);
      }
    }

    /** `write_integer`: the digits are produced backwards at the end of a 32-byte
        buffer. */
    method WriteInteger(fm: Spec, value: nat)
      requires Valid() && value < TWO_64 && fm.base >= 8
      modifies this, buffer
      ensures Valid() && out == old(out) + Formatted(fm, value)
    {
      hide Digits, DigitChar, Num, AllDigits, DigitOf, Padding, Numeral, BasePrefix;
      var magnitude, negative := value, false;
      if fm.isSigned && value >= TWO_64 / 2 {
        magnitude := TWO_64 - value;
        negative := true;
      }
      if fm.prepend || negative {
        WriteOne(if negative then '-' else fm.prependChar);
      }
      assert out == old(out) + Sign(fm, value);
      var repr := new char[32];
      var index := WriteNumeral(repr, magnitude, fm);
      WritePadded(fm, repr, index, repr[index..]);
    }

    /** The numeral, with the padding on the side it belongs. */
    method WritePadded(fm: Spec, repr: array<char>, index: nat, ghost text: string)
      requires Valid() && repr != buffer && index <= repr.Length == 32 && text == repr[index..]
      modifies this, buffer
      ensures Valid() && out == old(out) + (if fm.leftJustify then text + Padding(fm, |text|)
                                            else Padding(fm, |text|) + text)
    {
      hide Padding;
      if fm.leftJustify {
        WriteMany(repr, index, 32 - index);
        WritePadding(fm, 32 - index);
      } else {
        WritePadding(fm, 32 - index);
        WriteMany(repr, index, 32 - index);
      }
      assert repr[index..32] == text;
    }
  }

  /** Digits, a lone zero, and the prefix of the alternate form, from the end of the
      buffer backwards. */
  method WriteNumeral(repr: array<char>, magnitude: nat, fm: Spec) returns (index: nat)
    requires repr.Length == 32 && magnitude < TWO_64 && fm.base >= 8
    modifies repr
    ensures index <= 32
    ensures repr[index..] == BasePrefix(fm) + Numeral(magnitude, fm.base, fm.uppercase)
  {
    var base, upper := fm.base, fm.uppercase;
    index := WriteDigits(repr, magnitude, base, upper);
    WordDigits(magnitude, base, upper);
    if index == 32 {
      index := Prepend(repr, index, '0');
    }
    index := WritePrefix(repr, index, fm);
  }

  method WritePrefix(repr: array<char>, end: nat, fm: Spec) returns (index: nat)
    requires 2 <= end <= repr.Length
    modifies repr
    ensures index <= end && repr[index..] == BasePrefix(fm) + old(repr[end..])
  {
    index := end;
    ghost var digits := repr[end..];
    if fm.alternateForm {
      if fm.base == 16 {
        var x := if fm.uppercase then 'X' else 'x';
        index := Prepend(repr, index, x);
        index := Prepend(repr, index, '0');
        TwoInFront('0', x, digits);
      } else if fm.base == 8 {
        index := Prepend(repr, index, '0');
      }
    }
  }

  lemma TwoInFront(a: char, b: char, s: string)
    ensures [a] + ([b] + s) == [a, b] + s
  {}

  /** `repr[--index] = c`. */
  method Prepend(repr: array<char>, end: nat, c: char) returns (index: nat)
    requires 0 < end <= repr.Length
    modifies repr
    ensures index == end - 1 && repr[index..] == [c] + old(repr[end..])
  {
    index := end - 1;
    repr[index] := c;
  }

  lemma DigitBefore(digits: string, value: nat, base: nat, upper: bool, done: string)
    requires base >= 2 && value > 0 && digits == Digits(value, base, upper) + done
    ensures |done| < |digits|
    ensures digits == Digits(value / base, base, upper) + ([DigitChar(base, upper, value % base)] + done)
  {
    hide DigitChar;
    var front, digit := Digits(value / base, base, upper), DigitChar(base, upper, value % base);
    assert Digits(value, base, upper) == front + [digit];
    assert (front + [digit]) + done == front + ([digit] + done);
  }

  lemma NoDigits(base: nat, upper: bool)
    requires base >= 2
    ensures Digits(0, base, upper) == ""
  {}

  lemma DivSmaller(value: nat, base: nat)
    requires base >= 2 && value > 0
    ensures 0 <= value / base < value
  {
    Times(value, 2, base);
    DivBelow(value, base, value);
  }

  method WriteDigits(repr: array<char>, magnitude: nat, base: nat, upper: bool) returns (index: nat)
    requires repr.Length == 32 && magnitude < TWO_64 && base >= 8
    modifies repr
    ensures index <= 32 && repr[index..] == Digits(magnitude, base, upper)
    ensures index == 32 <==> magnitude == 0
  {
    hide Digits, DigitChar;
    index := 32;
    var value: int := magnitude;
    ghost var digits := Digits(magnitude, base, upper);
    WordDigits(magnitude, base, upper);
    assert repr[32..] == "";
    NoDigits(base, upper);
    while value != 0
      invariant value >= 0
      invariant index <= 32 && (index == 32 <==> value == magnitude) && |digits| <= 22
      invariant digits == Digits(value, base, upper) + repr[index..]
    {
      ghost var done := repr[index..];
      DigitBefore(digits, value, base, upper, done);
      DivSmaller(value, base);
      var digit := DigitChar(base, upper, value % base);
      value := value / base;
      index := index - 1;
      repr[index] := digit;
      assert repr[index..] == [digit] + done;
    }
  }

  /** `uacpi_snprintf` with one integer conversion and nothing else: the text and a NUL,
      cut to what fits. */
  method FormatOne(buffer: array<char>, fm: Spec, value: nat) returns (written: nat)
    requires value < TWO_64 && fm.base >= 8
    modifies buffer
    ensures written == |Formatted(fm, value)|
    ensures var text := Formatted(fm, value);
      0 < buffer.Length ==>
        var kept := if |text| < buffer.Length then |text| else buffer.Length - 1;
        buffer[..kept + 1] == text[..kept] + ['\0']
  {
    hide Formatted;
    var state := new Output(buffer);
    state.WriteInteger(fm, value);
    ghost var text := Formatted(fm, value);
    assert state.out == "" + text == text;
    written := state.bytesWritten;
    if buffer.Length > 0 {
      var last := if written < buffer.Length - 1 then written else buffer.Length - 1;
      assert buffer[..last] == text[..last];
      buffer[last] := '\0';
    }
  }

  /** The conversions `%llu` and `%llX`. */
  const DECIMAL := Spec(false, false, false, false, false, ' ', '\0', 0, 10)
  const HEXADECIMAL := Spec(false, false, true, false, false, ' ', '\0', 0, 16)

  /** The text of an integer, as AML's conversion operators give it. */
  function IntegerText(n: nat, isHex: bool): string {
    if isHex then "0x" + Numeral(n, 16, true) else Numeral(n, 10, false)
  }

  lemma FormattedNumeral(n: nat, isHex: bool)
    requires n < TWO_64
    ensures var fm := if isHex then HEXADECIMAL else DECIMAL;
      Formatted(fm, n) == Numeral(n, fm.base, fm.uppercase)
  {
    hide Numeral;
    var fm := if isHex then HEXADECIMAL else DECIMAL;
    var r := Numeral(n, fm.base, fm.uppercase);
    assert BasePrefix(fm) + r == r && "" + r == r && Padding(fm, |r|) == "";
  }

  /** `integer_to_string`: an exactly sized NUL-terminated string, null only without
      memory; the 21-character buffer in between always suffices. */
  method IntegerToString(n: nat, isHex: bool, memory: bool) returns (text: array?<char>)
    requires n < TWO_64
    ensures text != null <==> memory
    ensures text != null ==> fresh(text) && text[..] == IntegerText(n, isHex) + ['\0']
  {
    hide Numeral, Formatted;
    var intBuf := new char[21];
    var fm := if isHex then HEXADECIMAL else DECIMAL;
    FormattedNumeral(n, isHex);
    NumeralSize(n, fm.base, fm.uppercase);
    ghost var numeral := Numeral(n, fm.base, fm.uppercase);
    var length := FormatOne(intBuf, fm, n);
    assert intBuf[..length + 1] == numeral + ['\0'] by {
      assert numeral[..length] == numeral;
    }
    var prefix: nat := if isHex then 2 else 0;
    if !memory {
      return null;
    }
    var buffer := new char[prefix + length + 1];
    if isHex {
      buffer[0] := '0';
      buffer[1] := 'x';
    }
    assert buffer[..prefix] == if isHex then "0x" else "";
    CopyText(buffer, prefix, intBuf, length + 1);
    text := buffer;
    assert text[..] == buffer[..prefix] + buffer[prefix..];
    assert buffer[prefix..] == buffer[prefix..prefix + (length + 1)];
  }

  method CopyText(dst: array<char>, at: nat, src: array<char>, count: nat)
    requires dst != src && at + count <= dst.Length && count <= src.Length
    modifies dst
    ensures dst[..at] == old(dst[..at]) && dst[at..at + count] == src[..count]
  {
    for i := 0 to count
      invariant dst[..at] == old(dst[..at]) && dst[at..at + i] == src[..i]
    {
      dst[at + i] := src[i];
    }
  }

  // ----- round trips -----

  lemma NumeralParses(n: nat, base: nat, upper: bool)
    requires TextBase(base) && n < TWO_64
    ensures Magnitude(Numeral(n, base, upper) + "\0", base) == Parsed(true, n)
    ensures var s := Numeral(n, base, upper);
      |s| > 0 && (n > 0 ==> s[0] != '0') && !IsSpace(s[0]) && s[0] != '-' && s[0] != '+'
  {
    hide Magnitude;
    var s := Numeral(n, base, upper);
    NumOfDigits(n, base, upper);
    if n == 0 {
      EmptyNum(base);
      assert s == "" + ['0'];
      NumAppend("", '0', base);
    }
    assert AllDigits(s, base) && Num(s, base) == n && s != "";
    assert (s + "\0")[..|s|] == s;
    StopsAt(s + "\0", base, |s|);
    DigitNotSign(s[0], base);
  }

  lemma DigitNotSign(c: char, base: nat)
    requires DigitOf(c, base).Some?
    ensures !IsSpace(c) && c != '-' && c != '+'
  {}

  /** A prefix that announces the base: none for decimal, which the parser takes for
      octal when the number is zero. */
  predicate Announces(prefix: string, base: nat) {
    || (prefix == "" && base == 10)
    || ((prefix == "0x" || prefix == "0X") && base == 16)
    || (prefix == "0" && base == 8)
  }

  /** Text with an announced base denotes its number under automatic base, with no space
      or sign at its front. */
  lemma AnnouncedParses(prefix: string, n: nat, base: nat, upper: bool)
    requires Announces(prefix, base) && n < TWO_64
    ensures var t := prefix + (Numeral(n, base, upper) + "\0");
      var p := Prefixed(t, Auto);
      && Magnitude(p.1, p.0) == Parsed(true, n)
      && !IsSpace(t[0]) && t[0] != '-' && t[0] != '+'
  {
    hide Magnitude, Digits, Numeral;
    NumeralParses(n, base, upper);
    var s := Numeral(n, base, upper) + "\0";
    if base == 10 && n == 0 {
      ZeroParses();
      assert prefix + s == "0\0";
    } else {
      NotHex(n, upper);
      PrefixReads(prefix, s, base);
    }
  }

  lemma NotHex(n: nat, upper: bool)
    ensures ToLower(Numeral(n, 8, upper)[0]) != 'x'
  {
    NumOfDigits(n, 8, upper);
    var s := Numeral(n, 8, upper);
    assert n > 0 ==> DigitOf(s[0], 8).Some?;
  }

  lemma ZeroParses()
    ensures Magnitude("0\0"[1..], 8) == Parsed(true, 0) && forall upper :: Numeral(0, 10, upper) == "0"
  {
    var b := "0\0"[1..];
    EmptyNum(8);
    assert b == "\0" && b[..0] == "";
    DigitRunIs(b, 8, 0);
  }

  /** Converting any 64-bit integer to a decimal or `0x` string and back, with automatic
      base, gives the integer. */
  lemma IntegerStringRoundTrip(n: nat, isHex: bool)
    requires n < TWO_64
    ensures Parse(IntegerText(n, isHex) + ['\0'], Auto) == Parsed(true, n)
  {
    hide Magnitude, Numeral, Prefixed;
    var base := if isHex then 16 else 10;
    var prefix := if isHex then "0x" else "";
    AnnouncedParses(prefix, n, base, isHex);
    var s := Numeral(n, base, isHex);
    assert prefix + (s + "\0") == IntegerText(n, isHex) + ['\0'];
  }

  predicate Plain(t: string) {
    t != "" && !IsSpace(t[0]) && t[0] != '-' && t[0] != '+'
  }

  lemma SignParses(sign: string, t: string)
    requires Plain(t) && sign in ["", " ", "+", "-"]
    ensures Parse(sign + t, Auto) == ParseUnsigned(sign == "-", Prefixed(t, Auto))
  {
    hide Prefixed, ParseUnsigned;
    var whole := sign + t;
    if sign == "" {
      assert whole == t;
    } else {
      assert whole[1..] == t;
      assert sign == " " ==> SkipSpaces(whole) == SkipSpaces(t) == t;
    }
  }

  // ----- padded conversions -----

  function Repr(fm: Spec, value: nat): string
    requires value < TWO_64 && fm.base >= 2
  {
    BasePrefix(fm) + Numeral(AbsoluteValue(fm, value), fm.base, fm.uppercase)
  }

  /** Padding the parser reads over: none; spaces in front with no visible sign before
      them; zeros in front of an octal numeral, or of a decimal digit that is octal too. */
  predicate PaddingParses(fm: Spec, value: nat)
    requires value < TWO_64 && fm.base >= 2
  {
    || fm.minWidth <= |Repr(fm, value)|
    || (&& !fm.leftJustify
        && if fm.padChar == ' ' then Sign(fm, value) in ["", " "]
           else fm.base == 8 || (fm.base == 10 && AbsoluteValue(fm, value) < 8))
  }

  /** The same for every conversion whose text announces its base: it comes back, signed
      ones as the same 64-bit pattern, exactly when the padding is of that kind. */
  lemma FormatRoundTrip(fm: Spec, value: nat)
    requires value < TWO_64 && fm.base >= 2 && Announces(BasePrefix(fm), fm.base)
    requires fm.prepend ==> fm.prependChar == '+' || fm.prependChar == ' '
    requires fm.padChar == ' ' || fm.padChar == '0'
    ensures Parse(Formatted(fm, value) + "\0", Auto) == Parsed(true, value) <==> PaddingParses(fm, value)
  {
    hide Magnitude, Numeral, Prefixed, BasePrefix, Announces, Parse, Sign;
    var repr, sign := Repr(fm, value), Sign(fm, value);
    var n := |repr|;
    SignIs(fm, value);
    if fm.minWidth <= n {
      Unpadded(fm, value);
      assert Formatted(fm, value) + "\0" == sign + (repr + "\0");
    } else {
      var pad := fm.minWidth - n;
      var c := if fm.leftJustify then ' ' else fm.padChar;
      assert Padding(fm, n) == Fill(c, pad);
      if fm.leftJustify {
        SpacesBehind(fm, value, pad);
        assert Formatted(fm, value) + "\0" == sign + ((repr + Fill(c, pad)) + "\0");
      } else {
        assert Formatted(fm, value) + "\0" == sign + ((Fill(c, pad) + repr) + "\0");
        if c == ' ' {
          SpacesInFront(fm, value, pad);
        } else {
          ZerosInFront(fm, value, pad);
        }
      }
    }
  }

  function Fill(c: char, n: nat): string { seq(n, _ => c) }

  lemma AbsoluteFits(fm: Spec, value: nat)
    requires value < TWO_64
    ensures AbsoluteValue(fm, value) < TWO_64
    ensures forall v: nat, negative: bool ::
      v < TWO_64 && Negated(negative, v) == Negated(negative, AbsoluteValue(fm, value)) ==>
        v == AbsoluteValue(fm, value)
  {}

  lemma SignIs(fm: Spec, value: nat)
    requires value < TWO_64 && (fm.prepend ==> fm.prependChar == '+' || fm.prependChar == ' ')
    ensures Sign(fm, value) in ["", " ", "+", "-"]
    ensures Negated(Sign(fm, value) == "-", AbsoluteValue(fm, value)) == value
  {}

  lemma Unpadded(fm: Spec, value: nat)
    requires value < TWO_64 && fm.base >= 2 && Announces(BasePrefix(fm), fm.base)
    requires fm.prepend ==> fm.prependChar == '+' || fm.prependChar == ' '
    ensures Parse(Sign(fm, value) + (Repr(fm, value) + "\0"), Auto) == Parsed(true, value)
    ensures Plain(Repr(fm, value) + "\0")
    ensures var p := Prefixed(Repr(fm, value) + "\0", Auto);
      ParseUnsigned(false, p) == Parsed(true, AbsoluteValue(fm, value))
  {
    hide Magnitude, Numeral, Prefixed, BasePrefix, Announces, Parse, Sign;
    SignIs(fm, value);
    var m := AbsoluteValue(fm, value);
    AnnouncedParses(BasePrefix(fm), m, fm.base, fm.uppercase);
    var s := Numeral(m, fm.base, fm.uppercase);
    var t := BasePrefix(fm) + (s + "\0");
    SignParses(Sign(fm, value), t);
    assert Repr(fm, value) + "\0" == t;
  }

  /** With a character in it that is no digit, and no NUL, the text before the NUL is refused. */
  lemma Refused(t: string, base: nat, k: nat)
    requires TextBase(base) && '\0' !in t && k < |t| && DigitOf(t[k], base).None?
    ensures !Magnitude(t + "\0", base).ok
  {
    var body := t + "\0";
    AcceptsExactly(body, base);
    hide Magnitude, Num;
    assert body[..|body| - 1] == t;
    if FitsWord(body, base) {
      var j :| 0 <= j <= |body| && AllDigits(body[..j], base) && Num(body[..j], base) < TWO_64
        && (j == |body| || body[j] == '\0');
      StopsThere(t, base, k, j);
      assert false;
    }
  }

  lemma StopsThere(t: string, base: nat, k: nat, j: nat)
    requires '\0' !in t && k < |t| && DigitOf(t[k], base).None? && j <= |t| + 1 && AllDigits((t + "\0")[..j], base)
    ensures j <= k && (t + "\0")[j] != '\0'
  {
    var body := t + "\0";
    assert forall i :: 0 <= i < j ==> body[..j][i] == body[i];
    assert forall i :: 0 <= i < |t| ==> body[i] == t[i] && t[i] in t;
  }

  /** A numeral and what the parser makes of it and a tail. */
  lemma ReprReads(fm: Spec, value: nat, tail: string)
    requires value < TWO_64 && fm.base >= 2 && Announces(BasePrefix(fm), fm.base)
    requires tail != "" && tail[0] != 'x' && tail[0] != 'X'
    ensures '\0' !in Repr(fm, value) && Repr(fm, value) != "" && Plain(Repr(fm, value) + tail)
    ensures var p := Prefixed(Repr(fm, value) + tail, Auto);
      var s := Numeral(AbsoluteValue(fm, value), fm.base, fm.uppercase);
      p == (fm.base, s + tail) || (fm.base == 10 && s == "0" && p == (8, tail))
  {
    var m := AbsoluteValue(fm, value);
    NumeralDigits(m, fm.base, fm.uppercase);
    NotHex(m, fm.uppercase);
    var s := Numeral(m, fm.base, fm.uppercase);
    hide Numeral, DigitOf;
    DigitNotSign(s[0], fm.base);
    assert (s + tail)[0] == s[0];
    assert Repr(fm, value) + tail == BasePrefix(fm) + (s + tail);
    assert forall k :: 0 <= k < |s| ==> s[k] != '\0' by {
      forall k | 0 <= k < |s|
        ensures s[k] != '\0'
      {
        DigitInBase(s[k], fm.base);
      }
    }
    if fm.base == 10 && m == 0 {
      assert s == "0" && (s + tail)[1..] == tail;
    } else {
      PrefixReads(BasePrefix(fm), s + tail, fm.base);
    }
  }

  lemma NumeralDigits(n: nat, base: nat, upper: bool)
    requires TextBase(base)
    ensures var s := Numeral(n, base, upper);
      AllDigits(s, base) && Num(s, base) == n && s != "" && (n > 0 ==> s[0] != '0') && (n == 0 ==> s == "0")
  {
    NumOfDigits(n, base, upper);
    if n == 0 {
      EmptyNum(base);
      NumAppend("", '0', base);
      assert "" + ['0'] == "0";
    }
  }

  /** Spaces behind the numeral: it is read, but the status is an error. */
  lemma SpacesBehind(fm: Spec, value: nat, pad: nat)
    requires value < TWO_64 && fm.base >= 2 && Announces(BasePrefix(fm), fm.base) && pad > 0
    requires fm.prepend ==> fm.prependChar == '+' || fm.prependChar == ' '
    ensures !Parse(Sign(fm, value) + ((Repr(fm, value) + Fill(' ', pad)) + "\0"), Auto).ok
  {
    hide Magnitude, Numeral, Prefixed, BasePrefix, Announces, Parse, Sign, DigitOf;
    var repr, spaces := Repr(fm, value), Fill(' ', pad);
    var s := Numeral(AbsoluteValue(fm, value), fm.base, fm.uppercase);
    SignIs(fm, value);
    ReprReads(fm, value, spaces + "\0");
    SignParses(Sign(fm, value), repr + (spaces + "\0"));
    assert (repr + spaces) + "\0" == repr + (spaces + "\0");
    SpaceIsNoDigit();
    AnnouncedBase(fm);
    NumeralHasNoNul(fm, value);
    assert s + (spaces + "\0") == (s + spaces) + "\0" && (s + spaces)[|s|] == spaces[0];
    Refused(s + spaces, fm.base, |s|);
    Refused(spaces, 8, 0);
  }

  lemma NumeralHasNoNul(fm: Spec, value: nat)
    requires value < TWO_64 && TextBase(fm.base)
    ensures '\0' !in Numeral(AbsoluteValue(fm, value), fm.base, fm.uppercase)
  {
    var s := Numeral(AbsoluteValue(fm, value), fm.base, fm.uppercase);
    NumeralDigits(AbsoluteValue(fm, value), fm.base, fm.uppercase);
    hide Numeral;
    forall k | 0 <= k < |s|
      ensures s[k] != '\0'
    {
      DigitInBase(s[k], fm.base);
    }
  }

  lemma AnnouncedBase(fm: Spec)
    requires Announces(BasePrefix(fm), fm.base)
    ensures TextBase(fm.base)
  {}

  lemma XIsNoDigit(c: char)
    requires c == 'x' || c == 'X'
    ensures DigitOf(c, 8).None?
  {}

  lemma SpaceIsNoDigit()
    ensures forall base :: TextBase(base) ==> DigitOf(' ', base).None?
  {}

  /** Spaces in front are skipped, but not behind a sign. */
  lemma SpacesInFront(fm: Spec, value: nat, pad: nat)
    requires value < TWO_64 && fm.base >= 2 && Announces(BasePrefix(fm), fm.base) && pad > 0
    requires fm.prepend ==> fm.prependChar == '+' || fm.prependChar == ' '
    ensures Parse(Sign(fm, value) + ((Fill(' ', pad) + Repr(fm, value)) + "\0"), Auto) == Parsed(true, value) <==>
      Sign(fm, value) in ["", " "]
  {
    hide Numeral, BasePrefix, Announces, Sign, DigitOf, Repr, Magnitude;
    var repr, spaces, sign := Repr(fm, value), Fill(' ', pad), Sign(fm, value);
    SignIs(fm, value);
    Unpadded(fm, value);
    SignParses("", repr + "\0");
    var t := (spaces + repr) + "\0";
    assert t == spaces + (repr + "\0");
    SkipFill(pad, repr + "\0");
    assert t[0] == ' ';
    if sign == "" || sign == " " {
      assert sign == "" ==> sign + t == t;
      assert sign == " " ==> (sign + t)[1..] == t;
      assert SkipSpaces(sign + t) == repr + "\0";
      assert "" + (repr + "\0") == repr + "\0";
    } else {
      assert (sign + t)[1..] == t && (sign + t)[0] == sign[0];
      assert SkipSpaces(sign + t) == sign + t;
      SpaceIsNoDigit();
      assert '\0' !in spaces + repr by {
        ReprReads(fm, value, "\0");
      }
      Refused(spaces + repr, 10, 0);
    }
  }

  lemma {:induction false} SkipFill(n: nat, t: string)
    requires Plain(t)
    ensures SkipSpaces(Fill(' ', n) + t) == t
  {
    if n == 0 {
      assert Fill(' ', n) + t == t;
    } else {
      assert (Fill(' ', n) + t)[1..] == Fill(' ', n - 1) + t;
      SkipFill(n - 1, t);
    }
  }

  /** Zeros in front make the parser read octal. */
  lemma ZerosInFront(fm: Spec, value: nat, pad: nat)
    requires value < TWO_64 && fm.base >= 2 && Announces(BasePrefix(fm), fm.base) && pad > 0
    requires fm.prepend ==> fm.prependChar == '+' || fm.prependChar == ' '
    ensures Parse(Sign(fm, value) + ((Fill('0', pad) + Repr(fm, value)) + "\0"), Auto) == Parsed(true, value) <==>
      fm.base == 8 || (fm.base == 10 && AbsoluteValue(fm, value) < 8)
  {
    hide Announces, BasePrefix, Sign, Repr, Fill, Magnitude, Prefixed, AbsoluteValue, Parse;
    var m, sign := AbsoluteValue(fm, value), Sign(fm, value);
    SignIs(fm, value);
    AbsoluteFits(fm, value);
    ZerosPrefixed(fm, value, pad);
    SignParses(sign, (Fill('0', pad) + Repr(fm, value)) + "\0");
    OctalReading(fm, value, pad);
  }

  lemma ZerosPrefixed(fm: Spec, value: nat, pad: nat)
    requires value < TWO_64 && fm.base >= 2 && Announces(BasePrefix(fm), fm.base) && pad > 0
    ensures var t := (Fill('0', pad) + Repr(fm, value)) + "\0";
      Plain(t) && Prefixed(t, Auto) == (8, (Fill('0', pad - 1) + Repr(fm, value)) + "\0")
  {
    ReprReads(fm, value, "\0");
    var t := (Fill('0', pad) + Repr(fm, value)) + "\0";
    assert t[0] == '0' && t[1..] == (Fill('0', pad - 1) + Repr(fm, value)) + "\0";
    NumeralDigits(AbsoluteValue(fm, value), fm.base, fm.uppercase);
    assert t[1] == if pad > 1 then '0' else Repr(fm, value)[0];
  }

  lemma OctalReading(fm: Spec, value: nat, pad: nat)
    requires value < TWO_64 && fm.base >= 2 && Announces(BasePrefix(fm), fm.base) && pad > 0
    ensures Magnitude((Fill('0', pad - 1) + Repr(fm, value)) + "\0", 8) == Parsed(true, AbsoluteValue(fm, value)) <==>
      fm.base == 8 || (fm.base == 10 && AbsoluteValue(fm, value) < 8)
  {
    var m, repr, zeros := AbsoluteValue(fm, value), Repr(fm, value), Fill('0', pad - 1);
    hide Numeral, Magnitude, DigitOf, Repr, Fill, Announces, BasePrefix;
    ReprCases(fm, value);
    if fm.base == 8 {
      FillMore(pad - 1, Numeral(m, 8, fm.uppercase));
      ZerosThenOctal(pad, m, fm.uppercase);
    } else if fm.base == 16 {
      ReprReads(fm, value, "\0");
      NoNulInZeros(pad - 1, repr);
      XIsNoDigit((zeros + repr)[pad]);
      Refused(zeros + repr, 8, pad);
    } else {
      if m < 8 {
        SameDigit(m, fm.uppercase);
        ZerosThenOctal(pad - 1, m, fm.uppercase);
      } else {
        DecimalReadAsOctal(pad - 1, m, fm.uppercase);
      }
    }
  }

  lemma ReprCases(fm: Spec, value: nat)
    requires value < TWO_64 && fm.base >= 2 && Announces(BasePrefix(fm), fm.base)
    ensures var s, repr := Numeral(AbsoluteValue(fm, value), fm.base, fm.uppercase), Repr(fm, value);
      || (fm.base == 8 && repr == ['0'] + s) || (fm.base == 10 && repr == s)
      || (fm.base == 16 && |repr| > 1 && (repr[1] == 'x' || repr[1] == 'X'))
  {}

  lemma FillMore(n: nat, s: string)
    ensures Fill('0', n) + (['0'] + s) == Fill('0', n + 1) + s
  {}

  lemma NoNulInZeros(n: nat, t: string)
    requires '\0' !in t
    ensures '\0' !in Fill('0', n) + t && |Fill('0', n)| == n
    ensures |t| > 1 ==> (Fill('0', n) + t)[n + 1] == t[1]
  {}

  lemma SameDigit(m: nat, upper: bool)
    requires m < 8
    ensures Numeral(m, 10, upper) == Numeral(m, 8, upper)
  {
    if m > 0 {
      assert Digits(m, 10, upper) == Digits(0, 10, upper) + [DigitChar(10, upper, m)];
      assert Digits(m, 8, upper) == Digits(0, 8, upper) + [DigitChar(8, upper, m)];
    }
  }

  /** Leading zeros change no number. */
  lemma {:induction false} NumOfZeros(n: nat, s: string, base: nat)
    requires TextBase(base) && AllDigits(s, base)
    ensures AllDigits(Fill('0', n) + s, base) && Num(Fill('0', n) + s, base) == Num(s, base)
  {
    if s != "" {
      var front := s[..|s| - 1];
      NumOfZeros(n, front, base);
      NumAppend(Fill('0', n) + front, s[|s| - 1], base);
      assert (Fill('0', n) + front) + [s[|s| - 1]] == Fill('0', n) + s;
    } else if n > 0 {
      NumOfZeros(n - 1, "", base);
      NumAppend(Fill('0', n - 1) + "", '0', base);
      assert (Fill('0', n - 1) + "") + ['0'] == Fill('0', n) + "";
    } else {
      assert Fill('0', 0) + "" == "";
    }
    assert DigitOf('0', base) == Some(0);
  }

  lemma ZerosThenOctal(n: nat, m: nat, upper: bool)
    requires m < TWO_64
    ensures Magnitude((Fill('0', n) + Numeral(m, 8, upper)) + "\0", 8) == Parsed(true, m)
  {
    var s := Numeral(m, 8, upper);
    NumeralDigits(m, 8, upper);
    hide Numeral;
    NumOfZeros(n, s, 8);
    var t := Fill('0', n) + s;
    assert (t + "\0")[..|t|] == t;
    StopsAt(t + "\0", 8, |t|);
  }

  /** A decimal numeral of 8 or more is no octal one, or denotes less. */
  lemma DecimalReadAsOctal(n: nat, m: nat, upper: bool)
    requires 8 <= m < TWO_64
    ensures Magnitude((Fill('0', n) + Numeral(m, 10, upper)) + "\0", 8) != Parsed(true, m)
  {
    var s := Numeral(m, 10, upper);
    NumeralDigits(m, 10, upper);
    hide Numeral;
    var t := Fill('0', n) + s;
    if AllDigits(s, 8) {
      OctalBelow(s);
      NumOfZeros(n, s, 8);
      assert (t + "\0")[..|t|] == t;
      StopsAt(t + "\0", 8, |t|);
    } else {
      var k :| 0 <= k < |s| && DigitOf(s[k], 8).None?;
      assert t[n + k] == s[k];
      assert '\0' !in s by {
        forall j | 0 <= j < |s|
          ensures s[j] != '\0'
        {
          DigitInBase(s[j], 10);
        }
      }
      Refused(t, 8, n + k);
    }
  }

  lemma {:induction false} OctalBelow(s: string)
    requires s != "" && AllDigits(s, 8) && AllDigits(s, 10) && s[0] != '0'
    ensures 0 < Num(s, 8) <= Num(s, 10)
    ensures Num(s, 10) >= 8 ==> Num(s, 8) < Num(s, 10)
  {
    var front, last := s[..|s| - 1], s[|s| - 1];
    NumStep(s, 8);
    NumStep(s, 10);
    assert DigitOf(last, 8) == DigitOf(last, 10) && DigitOf(last, 8).value < 8;
    if |s| > 1 {
      OctalBelow(front);
    } else {
      EmptyNum(8);
      EmptyNum(10);
      assert front == "";
    }
  }

  /** Digit strings of more than 64 bits give the largest word, in every announced base;
      with a minus sign in front that wraps to one. */
  lemma LongDigitsSaturate(prefix: string, s: string, base: nat)
    requires Announces(prefix, base) && s != "" && AllDigits(s, base) && Num(s, base) >= TWO_64
    requires base == 10 ==> s[0] != '0'
    ensures var t := prefix + (s + "\0");
      Parse(t, Auto) == Parsed(false, MAX_U64) && Parse("-" + t, Auto) == Parsed(false, 1)
  {
    hide Num, Parse, Magnitude, Prefixed, Plain, IsSpace, DigitOf, AllDigits;
    var b := s + "\0";
    var t := prefix + b;
    LongMagnitude(s, base);
    FirstDigit(s, base);
    assert b[0] == s[0];
    PrefixReads(prefix, b, base);
    SignParses("", t);
    SignParses("-", t);
    assert "" + t == t;
  }

  /** The parser takes an announced base and what follows it. */
  lemma PrefixReads(prefix: string, b: string, base: nat)
    requires Announces(prefix, base) && b != "" && (prefix == "" ==> b[0] != '0')
    requires prefix == "0" ==> ToLower(b[0]) != 'x'
    ensures Prefixed(prefix + b, Auto) == (base, b)
    ensures prefix + b != "" && (prefix == "" ==> prefix + b == b) && (prefix != "" ==> (prefix + b)[0] == '0')
    ensures (prefix != "" || Plain(b)) ==> Plain(prefix + b)
  {
    var t := prefix + b;
    if base == 16 {
      assert t[2..] == b;
    } else if base == 8 {
      assert t[1..] == b && t[1] == b[0];
    } else {
      assert t == b;
    }
  }

  lemma FirstDigit(s: string, base: nat)
    requires s != "" && AllDigits(s, base)
    ensures Plain(s) && Plain(s + "\0") && (base == 8 ==> ToLower(s[0]) != 'x')
  {
    assert DigitOf(s[0], base).Some?;
  }

  lemma LongMagnitude(s: string, base: nat)
    requires AllDigits(s, base) && Num(s, base) >= TWO_64
    ensures Magnitude(s + "\0", base) == Parsed(false, MAX_U64)
  {
    hide Num;
    var t := s + "\0";
    assert t[..|s|] == s;
    DigitRunIs(t, base, |s|);
  }

  // ----- object_to_integer -----

  datatype Object = Integer(value: nat) | Buffer(bytes: seq<byte>) | Text(text: string) | Other

  function IntegerOf(obj: Object, maxBufferBytes: nat): nat {
    match obj
    case Integer(value) => value
    case Buffer(bytes) =>
      var n := if maxBufferBytes < |bytes| then maxBufferBytes else |bytes|;
      FromBytes(bytes[..if n < 8 then n else 8])
    case Text(text) => Parse(text, Auto).value
    case Other => 0
  }

  /** Byte `k` of what is looked at, and 0 beyond it. */
  ghost function ByteAt(bytes: seq<byte>, size: nat, k: nat): int {
    if k < size && k < |bytes| then bytes[k] else 0
  }

  /** Eight bytes as a word, the first one the least significant. */
  ghost function LowFirst(bytes: seq<byte>, size: nat): int {
    ByteAt(bytes, size, 0) + 0x100 * ByteAt(bytes, size, 1)
    + 0x1_0000 * ByteAt(bytes, size, 2) + 0x100_0000 * ByteAt(bytes, size, 3)
    + 0x1_0000_0000 * (ByteAt(bytes, size, 4) + 0x100 * ByteAt(bytes, size, 5)
                       + 0x1_0000 * ByteAt(bytes, size, 6) + 0x100_0000 * ByteAt(bytes, size, 7))
  }

  lemma {:induction false} TrailingZeros(s: seq<byte>, k: nat)
    requires k <= |s| && forall j :: k <= j < |s| ==> s[j] == 0
    ensures FromBytes(s) == FromBytes(s[..k])
  {
    if k > 0 {
      TrailingZeros(s[1..], k - 1);
      assert s[..k][1..] == s[1..][..k - 1];
    } else if s != [] {
      TrailingZeros(s[1..], 0);
      assert s[1..][..0] == [];
    }
  }

  /** `object_to_integer`: at most eight bytes of a buffer, the first one the least
      significant; a string through the parser, its status ignored. */
  method ObjectToInteger(obj: Object, maxBufferBytes: nat) returns (dst: nat)
    ensures dst == IntegerOf(obj, maxBufferBytes)
    ensures obj.Buffer? ==> dst == LowFirst(obj.bytes, maxBufferBytes)
  {
    match obj
    case Integer(value) =>
      dst := value;
    case Buffer(bytes) =>
      dst := BufferToInteger(bytes, maxBufferBytes);
    case Text(text) =>
      var ok;
      ok, dst := StringToInteger(text, Auto);
    case Other =>
      dst := 0;
  }

  method BufferToInteger(data: seq<byte>, maxBufferBytes: nat) returns (dst: nat)
    ensures dst == IntegerOf(Buffer(data), maxBufferBytes)
    ensures dst == LowFirst(data, maxBufferBytes)
  {
    hide FromBytes;
    var word := FirstEight(data, maxBufferBytes);
    var n := if maxBufferBytes < |data| then maxBufferBytes else |data|;
    n := if n < 8 then n else 8;
    TrailingZeros(word[..], n);
    assert word[..][..n] == data[..n];
    EightBytes(word[..]);
    dst := FromBytes(word[..]);
  }

  method FirstEight(data: seq<byte>, maxBufferBytes: nat) returns (word: array<byte>)
    ensures word.Length == 8
    ensures forall k :: 0 <= k < 8 ==> word[k] == ByteAt(data, maxBufferBytes, k)
  {
    var bytes := if maxBufferBytes < |data| then maxBufferBytes else |data|;
    var src := new byte[|data|](i requires 0 <= i < |data| => data[i]);
    word := new byte[8];
    MemcpyZerout(word, 0, 8, src, bytes, 0);
  }

  /** An integer survives the conversion to a string object and back. */
  lemma StringObjectKeepsInteger(n: nat, isHex: bool, size: nat)
    requires n < TWO_64
    ensures IntegerOf(Text(IntegerText(n, isHex) + ['\0']), size) == n
  {
    IntegerStringRoundTrip(n, isHex);
  }
}

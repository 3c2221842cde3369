// syscalls.c: printnum, the signed decimal path of vprintfmt, and atol, which reads back what they
// print -- and exactly when it does.

module Printing {
  import opened DivMod

  const DIGITS_SIZE: nat := 64 // sizeof(num) * CHAR_BIT
  const UNSIGNED_LIMIT: nat := 0x1_0000_0000_0000_0000
  const SIGNED_LIMIT: int := 0x8000_0000_0000_0000

  // ---------------------------------------------------------------------
  // Digits
  // ---------------------------------------------------------------------

  type Digit = d: nat | d < 16

  /** digs[pos] + (digs[pos] >= 10 ? 'a' - 10 : '0') */
  function DigitChar(d: Digit): char {
    (d + if d >= 10 then 'a' as int - 10 else '0' as int) as char
  }

  /** The digits of a number, the most significant first. */
  function Digits(num: nat, base: nat): string
    requires 2 <= base <= 16
  {
    if num < base then [DigitChar(num)] else
      Shrinks(num, base);
      Digits(num / base, base) + [DigitChar(num % base)]
  }

  lemma Shrinks(num: nat, base: nat)
    requires num >= base >= 2
    ensures 0 < num / base < num
  {
    var q := num / base;
    assert num == q * base + num % base;
    MulMonotone(2, base, q);
  }

  lemma DigitRead(d: Digit)
    ensures DigitOf(DigitChar(d)) == d && (DigitChar(d) == '0' <==> d == 0)
  {
  }

  /** The sixteen digits. */
  lemma DigitIs(d: Digit)
    ensures DigitChar(d) == "0123456789abcdef"[d]
  {
  }

  lemma SmallRemainder(n: nat, base: nat)
    requires n < base
    ensures n % base == n
  {
  }

  function DigitOf(c: char): int {
    if c >= 'a' then c as int - 'a' as int + 10 else c as int - '0' as int
  }

  /** The number a string of digits stands for. */
  function Value(s: string, base: nat): int {
    if s == "" then 0 else Value(s[..|s| - 1], base) * base + DigitOf(s[|s| - 1])
  }

  function Power(base: nat, k: nat): nat {
    if k == 0 then 1 else Power(base, k - 1) * base
  }

  /** The digits are canonical: they stand for the number, each is below the base, and none leads in vain. */
  lemma {:induction false} DigitsCanonical(num: nat, base: nat)
    requires 2 <= base <= 16
    ensures var s := Digits(num, base);
            && s != "" && Value(s, base) == num && (s[0] == '0' ==> num == 0)
            && forall k :: 0 <= k < |s| ==> 0 <= DigitOf(s[k]) < base
  {
    hide DigitChar, DigitOf;
    var s := Digits(num, base);
    if num < base {
      assert s[..0] == "" && s[0] == DigitChar(num);
      DigitRead(num);
      assert Value(s, base) == Value("", base) * base + num;
    } else {
      DigitRead(num % base);
      Shrinks(num, base);
      DigitsCanonical(num / base, base);
      var front := Digits(num / base, base);
      assert s[..|s| - 1] == front && s[|s| - 1] == DigitChar(num % base);
      assert num == (num / base) * base + num % base;
    }
  }

  /** A number below base^k has at most k digits. */
  lemma {:induction false} FewDigits(num: nat, base: nat, k: nat)
    requires 2 <= base <= 16 && k >= 1 && num < Power(base, k)
    ensures |Digits(num, base)| <= k
    decreases k
  {
    assert Power(base, 1) == Power(base, 0) * base == base;
    if num >= base {
      Shrinks(num, base);
      QuotientBelow(num, base, Power(base, k - 1));
      FewDigits(num / base, base, k - 1);
    }
  }

  lemma QuotientBelow(num: nat, base: nat, p: nat)
    requires base > 0 && num < p * base
    ensures num / base < p
  {
    var q := num / base;
    assert num == q * base + num % base;
    if q >= p {
      MulMonotone(p, q, base);
    }
  }

  lemma {:induction false} PowerGrows(a: nat, b: nat, k: nat)
    requires 1 <= a <= b
    ensures 1 <= Power(a, k) <= Power(b, k)
    decreases k
  {
    if k > 0 {
      PowerGrows(a, b, k - 1);
      MulMonotone(Power(a, k - 1), Power(b, k - 1), a);
      assert Power(b, k - 1) * a <= Power(b, k - 1) * b;
      MulMonotone(1, Power(a, k - 1), a);
    }
  }

  lemma {:induction false} PowerSum(base: nat, j: nat, k: nat)
    ensures Power(base, j + k) == Power(base, j) * Power(base, k)
    decreases k
  {
    if k > 0 {
      PowerSum(base, j, k - 1);
      assert Power(base, j + k) == Power(base, j + (k - 1)) * base;
      MulAssociates(Power(base, j), Power(base, k - 1), base);
    }
  }

  lemma PowerOfTwo64()
    ensures Power(2, 64) == UNSIGNED_LIMIT
  {
    assert Power(2, 4) == 16;
    PowerSum(2, 4, 4);
    PowerSum(2, 8, 8);
    PowerSum(2, 16, 16);
    PowerSum(2, 32, 32);
  }

  /** The buffer of printnum never overflows. */
  lemma DigitsFit(num: nat, base: nat)
    requires 2 <= base <= 16 && num < UNSIGNED_LIMIT
    ensures |Digits(num, base)| <= DIGITS_SIZE
  {
    PowerOfTwo64();
    PowerGrows(2, base, 64);
    FewDigits(num, base, 64);
  }

  // ---------------------------------------------------------------------
  // printnum
  // ---------------------------------------------------------------------

  function Repeat(c: char, n: nat): string {
    if n == 0 then "" else Repeat(c, n - 1) + [c]
  }

  /** How many characters of padding a field of some width needs. */
  function Padding(width: int, digits: nat): nat {
    if width > digits then width - digits else 0
  }

  function Printed(num: nat, base: nat, width: int, padc: char): string
    requires 2 <= base <= 16
  {
    Repeat(padc, Padding(width, |Digits(num, base)|)) + Digits(num, base)
  }

  lemma {:induction false} RepeatAt(c: char, n: nat)
    ensures |Repeat(c, n)| == n && forall k :: 0 <= k < n ==> Repeat(c, n)[k] == c
    decreases n
  {
    if n > 0 {
      RepeatAt(c, n - 1);
    }
  }

  /** A field is as wide as asked for, or as its digits need; the digits are at its end, and before them is padding. */
  lemma FieldShape(num: nat, base: nat, width: int, padc: char)
    requires 2 <= base <= 16
    ensures var f, n := Printed(num, base, width, padc), |Digits(num, base)|;
            && |f| == (if width >= n then width else n)
            && f[|f| - n..] == Digits(num, base)
            && forall k :: 0 <= k < |f| - n ==> f[k] == padc
  {
    RepeatAt(padc, Padding(width, |Digits(num, base)|));
  }

  /** The digits still to come once some, the least significant, are in the buffer. */
  function Reversed(digs: seq<Digit>): string
  {
    if digs == [] then "" else Reversed(digs[1..]) + [DigitChar(digs[0])]
  }

  lemma {:induction false} ReversedLast(digs: seq<Digit>)
    requires digs != []
    ensures Reversed(digs) == [DigitChar(digs[|digs| - 1])] + Reversed(digs[..|digs| - 1])
    decreases |digs|
  {
    if |digs| > 1 {
      var rest := digs[1..];
      assert rest[..|rest| - 1] == digs[..|digs| - 1][1..];
      assert rest[|rest| - 1] == digs[|digs| - 1];
      ReversedLast(rest);
    }
  }

  lemma {:induction false} ReversedLength(digs: seq<Digit>)
    ensures |Reversed(digs)| == |digs|
    decreases |digs|
  {
    if digs != [] {
      ReversedLength(digs[1..]);
    }
  }

  lemma {:induction false} ReversedMore(digs: seq<Digit>, d: Digit)
    ensures Reversed(digs + [d]) == [DigitChar(d)] + Reversed(digs)
    decreases |digs|
  {
    var longer := digs + [d];
    assert longer[|longer| - 1] == d && longer[..|longer| - 1] == digs;
    ReversedLast(longer);
  }

  lemma ReversedNone(digs: seq<Digit>)
    ensures digs == [] ==> Reversed(digs) == ""
  {
  }

  class Output {
    var text: string

    constructor ()
      ensures text == ""
    {
      text := "";
    }

    method Putch(c: char)
      modifies this
      ensures text == old(text) + [c]
    {
      text := text + [c];
    }

    /** printnum: padding on the left to the width, then the digits; the buffer suffices. */
    method PrintNum(num: nat, base: nat, width: int, padc: char)
      requires 2 <= base <= 16 && num < UNSIGNED_LIMIT
      modifies this
      ensures text == old(text) + Printed(num, base, width, padc)
    {
      hide Digits, Reversed, DigitChar;
      var digs := new Digit[DIGITS_SIZE];
      var pos := FillDigits(num, base, digs);
      ghost var t0 := text;
      var w := width;
      while w > pos
        invariant (w >= pos || w == width) && Reversed(digs[..pos]) == Digits(num, base)
        invariant text == t0 + Repeat(padc, Padding(width, pos) - Padding(w, pos))
        decreases w
      {
        ghost var k := Padding(width, pos) - Padding(w, pos);
        assert (t0 + Repeat(padc, k)) + [padc] == t0 + (Repeat(padc, k) + [padc]);
        Putch(padc);
        w := w - 1;
      }
      ghost var t1 := text;
      ReversedLength(digs[..pos]);
      while pos > 0
        invariant pos <= DIGITS_SIZE
        invariant text + Reversed(digs[..pos]) == t1 + Digits(num, base)
      {
        ghost var t, left := text, digs[..pos];
        pos := pos - 1;
        ReversedLast(left);
        assert left[..|left| - 1] == digs[..pos] && left[|left| - 1] == digs[pos];
        Putch(DigitChar(digs[pos]));
        assert t + ([DigitChar(digs[pos])] + Reversed(digs[..pos])) ==
          (t + [DigitChar(digs[pos])]) + Reversed(digs[..pos]);
      }
      ReversedNone(digs[..pos]);
      assert text + "" == text;
      assert t0 + Repeat(padc, Padding(width, |Digits(num, base)|)) + Digits(num, base)
          == t0 + Printed(num, base, width, padc);
    }

    /** The first loop of printnum. */
    method FillDigits(num: nat, base: nat, digs: array<Digit>) returns (pos: nat)
      requires 2 <= base <= 16 && num < UNSIGNED_LIMIT && digs.Length == DIGITS_SIZE
      modifies digs
      ensures pos <= digs.Length
      ensures Reversed(digs[..pos]) == Digits(num, base) && pos == |Digits(num, base)|
    {
      hide DigitChar;
      DigitsFit(num, base);
      var n: nat := num;
      pos := 0;
      DigitsCanonical(n, base);
      while true
        invariant pos + |Digits(n, base)| == |Digits(num, base)| <= digs.Length
        invariant pos < digs.Length
        invariant Digits(num, base) == Digits(n, base) + Reversed(digs[..pos])
        decreases n
      {
        ghost var before := digs[..pos];
        digs[pos] := n % base;
        pos := pos + 1;
        assert digs[..pos] == before + [n % base];
        ReversedMore(before, n % base);
        if n < base {
          SmallRemainder(n, base);
          break;
        }
        Shrinks(n, base);
        assert (Digits(n / base, base) + [DigitChar(n % base)]) + Reversed(before)
            == Digits(n / base, base) + ([DigitChar(n % base)] + Reversed(before));
        n := n / base;
        DigitsCanonical(n, base);
      }
    }

    /** %d, %ld and %lld of vprintfmt for a number that can be negated; the sign comes before the padding. */
    method PrintSigned(n: int, width: int, padc: char)
      requires -SIGNED_LIMIT < n < SIGNED_LIMIT
      modifies this
      ensures text == old(text) + SignedText(n, width, padc)
    {
      var num := n;
      ghost var t0 := text;
      if n < 0 {
        Putch('-');
        num := -n;
      }
      PrintNum(num, 10, width, padc);
      assert t0 + (Sign(n) + Printed(num, 10, width, padc)) == (t0 + Sign(n)) + Printed(num, 10, width, padc);
    }
  }

  function Sign(n: int): string {
    if n < 0 then "-" else ""
  }

  function Magnitude(n: int): nat {
    if n < 0 then -n else n
  }

  function SignedText(n: int, width: int, padc: char): string {
    Sign(n) + Printed(Magnitude(n), 10, width, padc)
  }

  // ---------------------------------------------------------------------
  // atol
  // ---------------------------------------------------------------------

  /** A long, or a value that does not fit, for which C promises nothing. */
  datatype Reading = Long(value: int) | Overflow

  predicate IsLong(v: int) {
    -SIGNED_LIMIT <= v < SIGNED_LIMIT
  }

  /** res *= 10, res += *str++ - '0', to the end of the string; nothing checks that it is a digit. */
  function AccumulateLong(res: int, s: string): Reading
    decreases |s|
  {
    if s == "" then Long(res)
    else
      var next := res * 10 + (s[0] as int - '0' as int);
      if IsLong(res * 10) && IsLong(next) then AccumulateLong(next, s[1..]) else Overflow
  }

  function Negated(r: Reading): Reading {
    if r.Long? && IsLong(-r.value) then Long(-r.value) else Overflow
  }

  function AtolLong(s: string): Reading {
    var t := SkipSpaces(s);
    if t != "" && t[0] == '-' then Negated(AccumulateLong(0, t[1..]))
    else if t != "" && t[0] == '+' then AccumulateLong(0, t[1..])
    else AccumulateLong(0, t)
  }

  /** The same in unbounded integers. */
  function Accumulate(res: int, s: string): int
    decreases |s|
  {
    if s == "" then res else Accumulate(res * 10 + (s[0] as int - '0' as int), s[1..])
  }

  function SkipSpaces(s: string): string {
    if s != "" && s[0] == ' ' then SkipSpaces(s[1..]) else s
  }

  function AtolValue(s: string): int {
    var t := SkipSpaces(s);
    if t != "" && t[0] == '-' then -Accumulate(0, t[1..])
    else if t != "" && t[0] == '+' then Accumulate(0, t[1..])
    else Accumulate(0, t)
  }

  method Atol(str: string) returns (r: Reading)
    ensures r == AtolLong(str)
  {
    var res, sign, at := 0, false, 0;
    assert str[0..] == str;
    while at < |str| && str[at] == ' '
      invariant at <= |str| && SkipSpaces(str[at..]) == SkipSpaces(str)
    {
      assert str[at..][1..] == str[at + 1..];
      at := at + 1;
    }
    ghost var t := str[at..];
    assert t == SkipSpaces(str);
    if at < |str| && (str[at] == '-' || str[at] == '+') {
      sign := str[at] == '-';
      assert t[1..] == str[at + 1..];
      at := at + 1;
    }
    ghost var digits := str[at..];
    while at < |str|
      invariant at <= |str| && IsLong(res) && AccumulateLong(res, str[at..]) == AccumulateLong(0, digits)
    {
      assert str[at..][1..] == str[at + 1..];
      if !IsLong(res * 10) || !IsLong(res * 10 + (str[at] as int - '0' as int)) {
        return Overflow;
      }
      res := res * 10;
      res := res + (str[at] as int - '0' as int);
      at := at + 1;
    }
    r := if !sign then Long(res) else if IsLong(-res) then Long(-res) else Overflow;
  }

  lemma {:induction false} AccumulateLongNext(res: int, s: string, c: char)
    ensures AccumulateLong(res, s + [c]) == NextLong(AccumulateLong(res, s), c)
    decreases |s|
  {
    if s == "" {
      assert s + [c] == [c] && [c][1..] == "";
    } else {
      assert (s + [c])[1..] == s[1..] + [c];
      AccumulateLongNext(res * 10 + (s[0] as int - '0' as int), s[1..], c);
    }
  }

  /** One more character, whatever it is. */
  function NextLong(r: Reading, c: char): Reading {
    if r.Overflow? then Overflow
    else
      var next := r.value * 10 + (c as int - '0' as int);
      if IsLong(r.value * 10) && IsLong(next) then Long(next) else Overflow
  }

  /** How atol reads, character by character: leading spaces are skipped, then a plus sign changes nothing and a minus
      sign negates; after the first other character every one counts, digit or not. */
  lemma AtolReads(s: string, c: char)
    ensures AtolLong("") == Long(0) && AtolLong(" " + s) == AtolLong(s)
    ensures s != "" && s[0] !in " +-" ==>
              && AtolLong("+" + s) == AtolLong(s) && AtolLong("-" + s) == Negated(AtolLong(s))
              && AtolLong(s + [c]) == NextLong(AtolLong(s), c)
    ensures c !in " +-" ==> AtolLong([c]) == NextLong(Long(0), c)
  {
    assert (" " + s)[1..] == s && ("+" + s)[1..] == s && ("-" + s)[1..] == s;
    if s != "" && s[0] !in " +-" {
      assert SkipSpaces("+" + s) == "+" + s && SkipSpaces("-" + s) == "-" + s;
      AccumulateLongNext(0, s, c);
      assert SkipSpaces(s + [c]) == s + [c];
    }
    AccumulateLongNext(0, "", c);
    assert "" + [c] == [c];
  }

  lemma {:induction false} AccumulatedLong(res: int, s: string)
    ensures AccumulateLong(res, s).Long? ==> AccumulateLong(res, s).value == Accumulate(res, s)
    decreases |s|
  {
    if s != "" {
      AccumulatedLong(res * 10 + (s[0] as int - '0' as int), s[1..]);
    }
  }

  /** What atol gives back, when it gives back anything, is the value of the string. */
  lemma LongIsValue(s: string)
    ensures AtolLong(s).Long? ==> AtolLong(s).value == AtolValue(s)
  {
    hide AccumulateLong, Accumulate, SkipSpaces;
    var t := SkipSpaces(s);
    AccumulatedLong(0, t);
    if t != "" {
      AccumulatedLong(0, t[1..]);
    }
  }

  predicate AllDigits(s: string) {
    forall c :: c in s ==> '0' <= c <= '9'
  }

  lemma {:induction false} DigitsGrow(res: int, s: string)
    requires res >= 0 && AllDigits(s)
    ensures Accumulate(res, s) >= res
    decreases |s|
  {
    if s != "" {
      assert s[0] in s && forall c :: c in s[1..] ==> c in s;
      DigitsGrow(res * 10 + (s[0] as int - '0' as int), s[1..]);
    }
  }

  /** Digits whose value is a long are read without overflow on the way. */
  lemma {:induction false} DigitsFitLong(res: int, s: string)
    requires res >= 0 && AllDigits(s) && Accumulate(res, s) < SIGNED_LIMIT
    ensures AccumulateLong(res, s) == Long(Accumulate(res, s))
    decreases |s|
  {
    if s != "" {
      assert s[0] in s && forall c :: c in s[1..] ==> c in s;
      var next := res * 10 + (s[0] as int - '0' as int);
      DigitsGrow(next, s[1..]);
      DigitsFitLong(next, s[1..]);
    }
  }

  lemma {:induction false} AccumulateBoth(res: int, s: string, t: string)
    ensures Accumulate(res, s + t) == Accumulate(Accumulate(res, s), t)
    decreases |s|
  {
    if s == "" {
      assert s + t == t;
    } else {
      assert (s + t)[1..] == s[1..] + t;
      AccumulateBoth(res * 10 + (s[0] as int - '0' as int), s[1..], t);
    }
  }

  lemma AccumulateOne(res: int, c: char)
    ensures Accumulate(res, [c]) == res * 10 + (c as int - '0' as int)
  {
  }

  lemma DecimalDigit(d: nat)
    requires d < 10
    ensures DigitChar(d) as int - '0' as int == d && '0' <= DigitChar(d) <= '9'
  {
  }

  /** The decimal digits of n shift what was read before and add n. */
  lemma {:induction false} AccumulateDigits(res: int, n: nat)
    ensures var s := Digits(n, 10);
            Accumulate(res, s) == res * Power(10, |s|) + n && n < Power(10, |s|)
    decreases n
  {
    hide DigitChar, Accumulate;
    if n < 10 {
      DecimalDigit(n);
      AccumulateOne(res, DigitChar(n));
      assert Power(10, 1) == Power(10, 0) * 10 == 10;
    } else {
      var q, d := n / 10, n % 10;
      DecimalDigit(d);
      AccumulateDigits(res, q);
      AccumulateBoth(res, Digits(q, 10), [DigitChar(d)]);
      AccumulateOne(Accumulate(res, Digits(q, 10)), DigitChar(d));
      assert |Digits(n, 10)| == |Digits(q, 10)| + 1;
      assert Power(10, |Digits(n, 10)|) == Power(10, |Digits(q, 10)|) * 10;
      TimesTen(res, Power(10, |Digits(q, 10)|));
    }
  }

  lemma TimesTen(res: int, p: int)
    ensures res * p * 10 == res * (p * 10)
  {
  }

  /** Padding that is not zeros counts as negative digits. */
  lemma {:induction false} AccumulatePadding(c: char, k: nat)
    ensures c == '0' ==> Accumulate(0, Repeat(c, k)) == 0
    ensures (c == ' ' || c == '-') && k > 0 ==> Accumulate(0, Repeat(c, k)) <= -3
    ensures k == 0 ==> Accumulate(0, Repeat(c, k)) == 0
    decreases k
  {
    if k > 0 {
      AccumulatePadding(c, k - 1);
      AccumulateBoth(0, Repeat(c, k - 1), [c]);
      AccumulateOne(Accumulate(0, Repeat(c, k - 1)), c);
    }
  }

  lemma {:induction false} RepeatFront(c: char, k: nat)
    requires k > 0
    ensures Repeat(c, k) == [c] + Repeat(c, k - 1)
    decreases k
  {
    if k > 1 {
      RepeatFront(c, k - 1);
      assert ([c] + Repeat(c, k - 2)) + [c] == [c] + (Repeat(c, k - 2) + [c]);
    }
  }

  lemma {:induction false} SpacesSkipped(k: nat, s: string)
    requires s != "" && s[0] != ' '
    ensures SkipSpaces(Repeat(' ', k) + s) == s
    decreases k
  {
    if k == 0 {
      assert Repeat(' ', 0) + s == s;
    } else {
      RepeatFront(' ', k);
      assert (Repeat(' ', k) + s)[1..] == Repeat(' ', k - 1) + s;
      SpacesSkipped(k - 1, s);
    }
  }

  lemma FirstDigit(n: nat)
    ensures Digits(n, 10) != "" && '0' <= Digits(n, 10)[0] <= '9'
    decreases n
  {
    hide DigitChar;
    if n < 10 {
      DecimalDigit(n);
    } else {
      FirstDigit(n / 10);
    }
  }

  /** Padding and digits read together. */
  lemma PaddedValue(c: char, k: nat, m: nat)
    ensures var p := Power(10, |Digits(m, 10)|);
            Accumulate(0, Repeat(c, k) + Digits(m, 10)) == Accumulate(0, Repeat(c, k)) * p + m && m < p
  {
    AccumulateBoth(0, Repeat(c, k), Digits(m, 10));
    AccumulateDigits(Accumulate(0, Repeat(c, k)), m);
  }

  lemma NegativeTimes(a: int, p: nat, m: nat)
    requires a <= -3 && m < p
    ensures a * p + m < -2 * m
  {
    MulMonotone(a, -3, p);
  }

  /** When a printed number is read back as itself: no padding, zeros, or spaces before an unsigned number;
      dashes, which vprintfmt pads with under the - flag, only as the sign of a zero. */
  predicate ReadsBack(n: int, width: int, padc: char) {
    var k := Padding(width, |Digits(Magnitude(n), 10)|);
    k == 0 || padc == '0' || (padc == ' ' && n >= 0) || (padc == '-' && n == 0 && k == 1)
  }

  lemma ValueOfPrinted(n: int, width: int, padc: char)
    requires padc in {' ', '0', '-'}
    ensures AtolValue(SignedText(n, width, padc)) == n <==> ReadsBack(n, width, padc)
  {
    hide AtolValue, Digits;
    var s, k := Digits(Magnitude(n), 10), Padding(width, |Digits(Magnitude(n), 10)|);
    if n < 0 {
      NegativeRead(-n, k, padc);
    } else {
      assert "" + (Repeat(padc, k) + s) == Repeat(padc, k) + s;
      if padc == '-' {
        DashesRead(n, k);
      } else {
        UnsignedRead(n, k, padc);
      }
    }
  }

  /** For every n with |n| < 2^63, every width and every padding vprintfmt can use: atol gives back the number, and no
      step of it overflows, if and only if the padding is of these kinds. */
  lemma AtolOfPrinted(n: int, width: int, padc: char)
    requires padc in {' ', '0', '-'} && -SIGNED_LIMIT < n < SIGNED_LIMIT
    ensures AtolLong(SignedText(n, width, padc)) == Long(n) <==> ReadsBack(n, width, padc)
  {
    hide AtolValue, AtolLong, SignedText, ReadsBack;
    ValueOfPrinted(n, width, padc);
    LongIsValue(SignedText(n, width, padc));
    if ReadsBack(n, width, padc) {
      PrintedFits(n, width, padc);
    }
  }

  lemma {:induction false} DecimalDigits(m: nat)
    ensures AllDigits(Digits(m, 10))
    decreases m
  {
    hide DigitChar;
    if m < 10 {
      DecimalDigit(m);
    } else {
      DecimalDigit(m % 10);
      DecimalDigits(m / 10);
    }
  }

  lemma {:induction false} ZerosAreDigits(k: nat)
    ensures AllDigits(Repeat('0', k))
    decreases k
  {
    if k > 0 {
      ZerosAreDigits(k - 1);
    }
  }

  /** Zeros and digits. */
  lemma ZeroPaddedFits(k: nat, m: nat)
    requires m < SIGNED_LIMIT
    ensures AccumulateLong(0, Repeat('0', k) + Digits(m, 10)) == Long(m)
  {
    hide Accumulate, AccumulateLong, Digits, Power, Repeat;
    PaddedValue('0', k, m);
    AccumulatePadding('0', k);
    ZerosAreDigits(k);
    DecimalDigits(m);
    DigitsFitLong(0, Repeat('0', k) + Digits(m, 10));
  }

  lemma DigitsFit0(m: nat)
    requires m < SIGNED_LIMIT
    ensures AccumulateLong(0, Digits(m, 10)) == Long(m)
  {
    hide AccumulateLong, Digits;
    ZeroPaddedFits(0, m);
    assert Repeat('0', 0) + Digits(m, 10) == Digits(m, 10);
  }

  lemma PrintedFits(n: int, width: int, padc: char)
    requires -SIGNED_LIMIT < n < SIGNED_LIMIT && ReadsBack(n, width, padc)
    ensures AtolLong(SignedText(n, width, padc)) == Long(n)
  {
    hide AccumulateLong, Digits, SkipSpaces, Padding, AtolLong;
    var m := Magnitude(n);
    var s, k := Digits(m, 10), Padding(width, |Digits(m, 10)|);
    if n < 0 {
      NegativeFits(m, k, padc);
    } else {
      assert "" + (Repeat(padc, k) + s) == Repeat(padc, k) + s;
      UnsignedFits(m, k, padc);
    }
  }

  lemma NegativeFits(m: nat, k: nat, padc: char)
    requires m < SIGNED_LIMIT && (k == 0 || padc == '0')
    ensures AtolLong("-" + (Repeat(padc, k) + Digits(m, 10))) == Long(-(m as int))
  {
    hide AccumulateLong, Digits;
    var rest := Repeat('0', k) + Digits(m, 10);
    var text := "-" + rest;
    assert Repeat(padc, k) == Repeat('0', k);
    assert SkipSpaces(text) == text && text[1..] == rest;
    ZeroPaddedFits(k, m);
  }

  lemma UnsignedFits(m: nat, k: nat, padc: char)
    requires m < SIGNED_LIMIT && (k == 0 || padc == '0' || padc == ' ' || (padc == '-' && m == 0 && k == 1))
    ensures AtolLong(Repeat(padc, k) + Digits(m, 10)) == Long(m)
  {
    hide AccumulateLong, Digits;
    var s, text := Digits(m, 10), Repeat(padc, k) + Digits(m, 10);
    FirstDigit(m);
    DigitsFit0(m);
    if k == 0 {
      assert text == s && SkipSpaces(s) == s;
    } else if padc == ' ' {
      SpacesSkipped(k, s);
    } else {
      RepeatFront(padc, k);
      assert text[0] == padc && SkipSpaces(text) == text;
      if padc == '0' {
        ZeroPaddedFits(k, m);
      } else {
        assert text[1..] == s;
      }
    }
  }

  lemma NegativeRead(m: int, k: nat, padc: char)
    requires m > 0 && padc in {' ', '0', '-'}
    ensures AtolValue("-" + (Repeat(padc, k) + Digits(m, 10))) == -m <==> k == 0 || padc == '0'
  {
    hide Accumulate, Digits, Power, Repeat;
    var rest := Repeat(padc, k) + Digits(m, 10);
    var text := "-" + rest;
    assert SkipSpaces(text) == text && text[0] == '-' && text[1..] == rest;
    PaddedValue(padc, k, m);
    AccumulatePadding(padc, k);
    if k > 0 && padc != '0' {
      NegativeTimes(Accumulate(0, Repeat(padc, k)), Power(10, |Digits(m, 10)|), m);
    }
  }

  lemma DashesRead(m: nat, k: nat)
    ensures AtolValue(Repeat('-', k) + Digits(m, 10)) == m <==> k == 0 || (k == 1 && m == 0)
  {
    hide Accumulate, Digits, Power;
    if k == 0 {
      UnsignedRead(m, 0, '-');
    } else {
      RepeatFront('-', k);
      hide Repeat;
      var rest := Repeat('-', k - 1) + Digits(m, 10);
      var text := Repeat('-', k) + Digits(m, 10);
      assert text[0] == '-' && text[1..] == rest && SkipSpaces(text) == text;
      PaddedValue('-', k - 1, m);
      AccumulatePadding('-', k - 1);
      if k > 1 {
        NegativeTimes(Accumulate(0, Repeat('-', k - 1)), Power(10, |Digits(m, 10)|), m);
      }
    }
  }

  lemma UnsignedRead(m: nat, k: nat, padc: char)
    requires k == 0 || padc == ' ' || padc == '0'
    ensures AtolValue(Repeat(padc, k) + Digits(m, 10)) == m
  {
    hide Accumulate, Digits, Power;
    var s, text := Digits(m, 10), Repeat(padc, k) + Digits(m, 10);
    FirstDigit(m);
    PaddedValue('0', 0, m);
    AccumulatePadding('0', 0);
    assert Repeat('0', 0) + s == s;
    if k == 0 {
      assert text == s && SkipSpaces(s) == s;
    } else if padc == ' ' {
      SpacesSkipped(k, s);
    } else {
      RepeatFront('0', k);
      assert text[0] == '0' && SkipSpaces(text) == text;
      PaddedValue('0', k, m);
      AccumulatePadding('0', k);
    }
  }

  /** A number printed without padding is read back, whatever its sign. */
  lemma AtolReadsLong(n: int)
    requires -SIGNED_LIMIT < n < SIGNED_LIMIT
    ensures AtolLong(SignedText(n, -1, ' ')) == Long(n)
  {
    AtolOfPrinted(n, -1, ' ');
  }

  lemma {:induction false} PrefixGrows(n: nat, j: nat)
    requires j <= |Digits(n, 10)|
    ensures 0 <= Accumulate(0, Digits(n, 10)[..j]) <= n
    decreases n
  {
    hide DigitChar, Accumulate;
    var s := Digits(n, 10);
    AccumulateDigits(0, n);
    if j == |s| {
      assert s[..j] == s;
    } else if n < 10 {
      AccumulateNone();
    } else {
      assert s[..j] == Digits(n / 10, 10)[..j];
      PrefixGrows(n / 10, j);
    }
  }

  lemma AccumulateNone()
    ensures Accumulate(0, "") == 0
  {
  }

  /** While atol reads the digits of a number below 2^63, its long never overflows. */
  lemma AtolInRange(n: int, j: nat)
    requires -SIGNED_LIMIT < n < SIGNED_LIMIT && j <= |Digits(Magnitude(n), 10)|
    ensures 0 <= Accumulate(0, Digits(Magnitude(n), 10)[..j]) < SIGNED_LIMIT
  {
    PrefixGrows(Magnitude(n), j);
  }
}

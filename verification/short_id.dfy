/**
 * Eight-character base-62 short ids (utils/shortid.go). The clock reading and
 * the random draw are parameters. The id is the two random digits followed by
 * the six low-order base-62 digits of the seconds since the base time, each
 * part most significant digit first.
 */
module ShortId {

  /** 2024-01-01 00:00:00 UTC in Unix seconds. */
  const BaseTime: int := 1704067200

  const TimeDigits: nat := 6
  const RandomDigits: nat := 2

  function Pow62(n: nat): (p: nat)
    ensures p >= 1
  {
    if n == 0 then 1 else 62 * Pow62(n - 1)
  }

  /** The character for digit value `d`: digits, then lower case, then upper case letters. */
  function Digit(d: nat): char
    requires d < 62
  {
    if d < 10 then ('0' as int + d) as char
    else if d < 36 then ('a' as int + d - 10) as char
    else ('A' as int + d - 36) as char
  }

  const Decimals: string := "0123456789"
  const Lower: string := "abcdefghijklmnopqrstuvwxyz"
  const Upper: string := "ABCDEFGHIJKLMNOPQRSTUVWXYZ"

  /** The source's digit alphabet: 0-9, then a-z, then A-Z. */
  const Charset: string := Decimals + Lower + Upper

  /** The digit characters generated from their values, used to index the charset by value. */
  const Digits: string := seq(62, d requires 0 <= d < 62 => Digit(d))

  lemma DecimalsLayout()
    ensures Digits[..10] == Decimals
  {
  }

  lemma LowerLayout()
    ensures Digits[10..36] == Lower
  {
  }

  lemma UpperLayout()
    ensures Digits[36..] == Upper
  {
  }

  lemma CharsetLength()
    ensures |Charset| == 62
  {
  }

  /** The charset's `d`-th character is `Digit(d)`. */
  lemma CharsetLayout()
    ensures |Charset| == 62
    ensures forall d :: 0 <= d < 62 ==> Charset[d] == Digit(d)
  {
    DecimalsLayout();
    LowerLayout();
    UpperLayout();
    assert Digits == Digits[..10] + Digits[10..36] + Digits[36..];
  }

  /** A character of the charset. */
  predicate InCharset(c: char) {
    '0' <= c <= '9' || 'a' <= c <= 'z' || 'A' <= c <= 'Z'
  }

  lemma InCharsetMeaning(c: char)
    ensures InCharset(c) <==> c in Charset
  {
    CharsetLayout();
    InLayout(Charset, c);
  }

  /** Membership in any string laid out digit by digit. */
  lemma InLayout(s: string, c: char)
    requires |s| == 62 && forall d :: 0 <= d < 62 ==> s[d] == Digit(d)
    ensures InCharset(c) <==> c in s
  {
    if InCharset(c) {
      var d := if '0' <= c <= '9' then c as int - '0' as int
               else if 'a' <= c <= 'z' then c as int - 'a' as int + 10
               else c as int - 'A' as int + 36;
      assert s[d] == c;
    }
    if c in s {
      var d :| 0 <= d < |s| && s[d] == c;
      assert Digit(d) == c;
    }
  }

  /** Every character of `s` is a charset character. */
  predicate InAlphabet(s: string) {
    forall i :: 0 <= i < |s| ==> InCharset(s[i])
  }

  /** A string over the alphabet draws every character from the charset constant. */
  lemma AlphabetInCharset(s: string)
    requires InAlphabet(s)
    ensures forall i :: 0 <= i < |s| ==> s[i] in Charset
  {
    forall i | 0 <= i < |s|
      ensures s[i] in Charset
    {
      InCharsetMeaning(s[i]);
    }
  }

  /** The digit value of a charset character, its position in the charset. */
  function DigitOf(c: char): (d: nat)
    requires InCharset(c)
    ensures d < 62 && Digit(d) == c
  {
    if '0' <= c <= '9' then c as int - '0' as int
    else if 'a' <= c <= 'z' then c as int - 'a' as int + 10
    else c as int - 'A' as int + 36
  }

  /** The value of a base-62 numeral, most significant digit first. */
  function Decode(s: string): nat
    requires InAlphabet(s)
  {
    if |s| == 0 then 0 else Decode(s[..|s| - 1]) * 62 + DigitOf(s[|s| - 1])
  }

  /** A numeral of `n` digits denotes a value below 62^n. */
  lemma {:induction false} DecodeBound(s: string)
    requires InAlphabet(s)
    ensures Decode(s) < Pow62(|s|)
    decreases |s|
  {
    if |s| > 0 {
      DecodeBound(s[..|s| - 1]);
    }
  }

  /** Prepending a digit adds its value times the place value of the new position. */
  lemma {:induction false} DecodePrepend(c: char, s: string)
    requires InCharset(c) && InAlphabet(s)
    ensures InAlphabet([c] + s)
    ensures Decode([c] + s) == DigitOf(c) * Pow62(|s|) + Decode(s)
    decreases |s|
  {
    var t := [c] + s;
    if |s| == 0 {
      assert t[..0] == [];
    } else {
      var n := |s| - 1;
      var front := s[..n];
      assert t[..|t| - 1] == [c] + front;
      assert t[|t| - 1] == s[n];
      DecodePrepend(c, front);
      var lead, rest, low := DigitOf(c), Decode(front), DigitOf(s[n]);
      assert Decode(t) == Decode([c] + front) * 62 + low;
      assert Decode([c] + front) == lead * Pow62(n) + rest;
      assert Decode(s) == rest * 62 + low;
      assert Pow62(|s|) == 62 * Pow62(n);
      PlaceValue(lead, Pow62(n), rest, low);
    }
  }

  lemma PlaceValue(lead: int, p: int, rest: int, low: int)
    ensures (lead * p + rest) * 62 + low == lead * (62 * p) + (rest * 62 + low)
  {
  }

  /** Numerals of equal length over the charset with equal values are equal. */
  lemma {:induction false} DecodeInjective(a: string, b: string)
    requires InAlphabet(a) && InAlphabet(b) && |a| == |b|
    requires Decode(a) == Decode(b)
    ensures a == b
    decreases |a|
  {
    if |a| > 0 {
      var n := |a| - 1;
      var x, y := DigitOf(a[n]), DigitOf(b[n]);
      var qa, qb := Decode(a[..n]), Decode(b[..n]);
      ModOfDivision(Decode(a), qa, x, 62);
      ModOfDivision(Decode(b), qb, y, 62);
      DecodeInjective(a[..n], b[..n]);
      assert a == a[..n] + [a[n]] && b == b[..n] + [b[n]];
    }
  }

  /** Quotient and remainder are unique. */
  lemma ModOfDivision(x: int, q: int, r: int, m: int)
    requires m > 0 && 0 <= r < m && x == q * m + r
    ensures x % m == r && x / m == q
  {
    var k := x / m - q;
    assert k * m == r - x % m;
    NonZeroMultiple(k, m);
  }

  lemma NonZeroMultiple(k: int, m: int)
    requires m > 0
    ensures k > 0 ==> k * m >= m
    ensures k < 0 ==> k * m <= -m
  {
    if k > 0 {
      PositiveMultiple(k, m);
    } else if k < 0 {
      PositiveMultiple(-k, m);
      assert k * m == -((-k) * m);
    }
  }

  lemma {:induction false} PositiveMultiple(k: nat, m: nat)
    requires k > 0
    ensures k * m >= m
    decreases k
  {
    if k > 1 {
      PositiveMultiple(k - 1, m);
      assert k * m == (k - 1) * m + m;
    }
  }

  /** Place value bookkeeping for one loop step: peeling the lowest digit of `v`. */
  lemma PeelDigit(total: int, v: nat, p: nat, low: nat)
    requires total == v * p + low
    ensures total == (v / 62) * (62 * p) + ((v % 62) * p + low)
  {
    assert v == (v / 62) * 62 + v % 62;
    calc {
      v * p;
      ((v / 62) * 62 + v % 62) * p;
      (v / 62) * (62 * p) + (v % 62) * p;
    }
  }

  /**
   * GenerateShortID with the clock reading `now` (Unix seconds) and the random
   * draw `randomPart` supplied by the caller. Before the base time the seconds
   * are negative and utils/shortid.go indexes the charset out of range.
   */
  method GenerateShortId(now: int, randomPart: int) returns (id: string)
    requires now >= BaseTime
    requires 0 <= randomPart < 62 * 62
    ensures |id| == 8
    ensures InAlphabet(id)
    ensures Decode(id[RandomDigits..]) == (now - BaseTime) % Pow62(TimeDigits)
    ensures Decode(id[..RandomDigits]) == randomPart
  {
    var seconds := now - BaseTime;
    ghost var total := seconds;
    id := "";
    var i := 0;
    while i < 6
      invariant 0 <= i <= 6 && |id| == i
      invariant seconds >= 0
      invariant InAlphabet(id)
      invariant total == seconds * Pow62(i) + Decode(id)
    {
      CharsetLength();
      var c := Charset[seconds % 62];
      PrependStep(seconds, id);
      PeelDigit(total, seconds, Pow62(i), Decode(id));
      id := [c] + id;
      seconds := seconds / 62;
      i := i + 1;
    }
    DecodeBound(id);
    ModOfDivision(total, seconds, Decode(id), Pow62(6));
    ghost var timePart := id;

    var r := randomPart;
    var j := 0;
    while j < 2
      invariant 0 <= j <= 2 && |id| == 6 + j
      invariant r >= 0
      invariant InAlphabet(id)
      invariant id[j..] == timePart
      invariant randomPart == r * Pow62(j) + Decode(id[..j])
    {
      CharsetLength();
      var c := Charset[r % 62];
      PrependStep(r, id[..j]);
      PeelDigit(randomPart, r, Pow62(j), Decode(id[..j]));
      assert ([c] + id)[..j + 1] == [c] + id[..j];
      assert ([c] + id)[j + 1..] == id[j..];
      id := [c] + id;
      r := r / 62;
      j := j + 1;
    }
    DecodeBound(id[..2]);
    assert Pow62(2) == 62 * 62;
    ModOfDivision(randomPart, r, Decode(id[..2]), Pow62(2));
    ModOfDivision(randomPart, 0, randomPart, Pow62(2));
  }

  /** One loop step: prepending the charset character of `v`'s lowest digit. */
  lemma PrependStep(v: nat, s: string)
    requires InAlphabet(s)
    ensures |Charset| == 62
    ensures InAlphabet([Charset[v % 62]] + s)
    ensures Decode([Charset[v % 62]] + s) == (v % 62) * Pow62(|s|) + Decode(s)
  {
    CharsetDigitValue(v % 62);
    DecodePrepend(Charset[v % 62], s);
  }

  /** The digit value of the charset's `d`-th character is `d`. */
  lemma CharsetDigitValue(d: nat)
    requires d < 62
    ensures InCharset(Charset[d]) && DigitOf(Charset[d]) == d
  {
    CharsetLayout();
  }

  /** `id` is the short id of the given seconds and random draw. */
  predicate IsShortIdOf(id: string, seconds: nat, randomPart: nat) {
    && |id| == 8
    && InAlphabet(id)
    && Decode(id[RandomDigits..]) == seconds % Pow62(TimeDigits)
    && Decode(id[..RandomDigits]) == randomPart
  }

  /**
   * Two short ids are equal exactly when their seconds agree modulo 62^6 and
   * their random draws agree: 3844 distinct ids per second.
   */
  lemma ShortIdInjective(a: string, s1: nat, r1: nat, b: string, s2: nat, r2: nat)
    requires IsShortIdOf(a, s1, r1) && IsShortIdOf(b, s2, r2)
    ensures a == b <==> s1 % Pow62(TimeDigits) == s2 % Pow62(TimeDigits) && r1 == r2
  {
    if s1 % Pow62(TimeDigits) == s2 % Pow62(TimeDigits) && r1 == r2 {
      DecodeInjective(a[RandomDigits..], b[RandomDigits..]);
      DecodeInjective(a[..RandomDigits], b[..RandomDigits]);
      assert a == a[..RandomDigits] + a[RandomDigits..];
      assert b == b[..RandomDigits] + b[RandomDigits..];
    }
  }
}

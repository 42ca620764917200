/**
 * The JavaScript string operations the bot's state code relies on:
 * `toLowerCase`/`toUpperCase` (on ASCII letters), `split(" ")` and
 * `join(" ")`, and `Number.prototype.toString` on integers.
 */
module Text {

  const Space: char := ' '

  predicate IsAsciiUpper(c: char) { 'A' <= c <= 'Z' }

  predicate IsAsciiLower(c: char) { 'a' <= c <= 'z' }

  predicate IsDigit(c: char) { '0' <= c <= '9' }

  function LowerChar(c: char): char {
    if IsAsciiUpper(c) then (c as int + 32) as char else c
  }

  function UpperChar(c: char): char {
    if IsAsciiLower(c) then (c as int - 32) as char else c
  }

  /** `s.toLowerCase()`: no upper-case letter is left, and every character is `s`'s up to case. */
  function ToLower(s: string): (r: string)
    ensures |r| == |s|
    ensures forall i :: 0 <= i < |r| ==> !IsAsciiUpper(r[i])
    ensures forall i :: 0 <= i < |r| ==> UpperChar(r[i]) == UpperChar(s[i])
  {
    seq(|s|, i requires 0 <= i < |s| => LowerChar(s[i]))
  }

  /** `s.toUpperCase()`: no lower-case letter is left, and every character is `s`'s up to case. */
  function ToUpper(s: string): (r: string)
    ensures |r| == |s|
    ensures forall i :: 0 <= i < |r| ==> !IsAsciiLower(r[i])
    ensures forall i :: 0 <= i < |r| ==> LowerChar(r[i]) == LowerChar(s[i])
  {
    seq(|s|, i requires 0 <= i < |s| => UpperChar(s[i]))
  }

  /**
   * `s.split(" ")`: the pieces between single spaces, empty pieces included,
   * so the result is never empty ("".split(" ") is [""]).
   */
  function Split(s: string): (r: seq<string>)
    ensures |r| >= 1
    ensures forall k :: 0 <= k < |r| ==> Space !in r[k]
    decreases |s|
  {
    if s == [] then [""]
    else
      var rest := Split(s[1..]);
      if s[0] == Space then [""] + rest
      else [[s[0]] + rest[0]] + rest[1..]
  }

  /** No string occurs twice in the list. */
  ghost predicate NoDuplicates(xs: seq<string>) {
    forall i, j :: 0 <= i < j < |xs| ==> xs[i] != xs[j]
  }

  /** `xs.join(" ")`. */
  function Join(xs: seq<string>): string
    decreases |xs|
  {
    if xs == [] then ""
    else if |xs| == 1 then xs[0]
    else xs[0] + [Space] + Join(xs[1..])
  }

  /** A string without spaces is a single piece, glued to the first piece of what follows. */
  lemma {:induction false} SplitGlued(a: string, t: string)
    requires Space !in a
    ensures Split(a + t) == [a + Split(t)[0]] + Split(t)[1..]
    decreases |a|
  {
    var st := Split(t);
    if a == [] {
      assert a + t == t && a + st[0] == st[0];
      assert st == [st[0]] + st[1..];
    } else {
      assert (a + t)[1..] == a[1..] + t;
      SplitGlued(a[1..], t);
      assert [a[0]] + (a[1..] + st[0]) == a + st[0];
    }
  }

  /** Joining the pieces gives the string back. */
  lemma {:induction false} JoinSplit(s: string)
    ensures Join(Split(s)) == s
    decreases |s|
  {
    if s != [] {
      var rest := Split(s[1..]);
      JoinSplit(s[1..]);
      if s[0] == Space {
        assert Join(Split(s)) == "" + [Space] + Join(rest);
      } else {
        JoinGlued([s[0]], rest);
      }
    }
  }

  lemma {:induction false} JoinGlued(a: string, xs: seq<string>)
    requires |xs| >= 1
    ensures Join([a + xs[0]] + xs[1..]) == a + Join(xs)
  {
    var ys := [a + xs[0]] + xs[1..];
    if |xs| > 1 {
      assert ys[1..] == xs[1..];
    }
  }

  /** Splitting the joined pieces gives them back, when no piece holds a space. */
  lemma {:induction false} SplitJoin(xs: seq<string>)
    requires |xs| >= 1
    requires forall k :: 0 <= k < |xs| ==> Space !in xs[k]
    ensures Split(Join(xs)) == xs
    decreases |xs|
  {
    if |xs| == 1 {
      SplitGlued(xs[0], "");
      assert xs[0] + "" == xs[0];
    } else {
      var tail := Join(xs[1..]);
      SplitJoin(xs[1..]);
      assert Join(xs) == xs[0] + ([Space] + tail);
      SplitGlued(xs[0], [Space] + tail);
      assert ([Space] + tail)[1..] == tail;
      assert Split([Space] + tail) == [""] + xs[1..];
      assert xs[0] + "" == xs[0];
    }
  }

  function DigitChar(d: nat): (c: char)
    requires d < 10
    ensures IsDigit(c)
  {
    ('0' as int + d) as char
  }

  function DigitValue(c: char): nat
    requires IsDigit(c)
  {
    c as int - '0' as int
  }

  /** The decimal digits of `n`, most significant first, without leading zeros. */
  function Digits(n: nat): (r: string)
    ensures |r| >= 1
    ensures forall i :: 0 <= i < |r| ==> IsDigit(r[i])
    ensures |r| > 1 ==> r[0] != '0'
    decreases n
  {
    if n < 10 then [DigitChar(n)] else Digits(n / 10) + [DigitChar(n % 10)]
  }

  /** The number a string of decimal digits denotes. */
  function DigitsValue(s: string): nat
    requires forall i :: 0 <= i < |s| ==> IsDigit(s[i])
    decreases |s|
  {
    if s == [] then 0 else DigitsValue(s[..|s| - 1]) * 10 + DigitValue(s[|s| - 1])
  }

  /** `n.toString()` for an integer `n`. */
  function DecimalString(n: int): string {
    if n < 0 then "-" + Digits(-n) else Digits(n)
  }

  lemma {:induction false} DigitsRoundTrip(n: nat)
    ensures DigitsValue(Digits(n)) == n
    decreases n
  {
    if n >= 10 {
      DigitsRoundTrip(n / 10);
      var d := Digits(n / 10) + [DigitChar(n % 10)];
      assert d[..|d| - 1] == Digits(n / 10);
    }
  }

  /** The first character of a printed integer is '-' exactly for a negative one. */
  lemma DecimalStringSign(n: int)
    ensures |DecimalString(n)| >= 1
    ensures DecimalString(n)[0] == '-' <==> n < 0
  {
    if n >= 0 {
      assert IsDigit(Digits(n)[0]);
    }
  }

  /** Different integers print differently, so a key built from one identifies it. */
  lemma DecimalStringInjective(a: int, b: int)
    requires DecimalString(a) == DecimalString(b)
    ensures a == b
  {
    DecimalStringSign(a);
    DecimalStringSign(b);
    if a < 0 {
      assert DecimalString(a)[1..] == Digits(-a);
      assert DecimalString(b)[1..] == Digits(-b);
      DigitsRoundTrip(-a);
      DigitsRoundTrip(-b);
    } else {
      DigitsRoundTrip(a);
      DigitsRoundTrip(b);
    }
  }
}

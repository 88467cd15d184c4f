/** Text helpers shared by both server variants: an Option type, the decimal
    rendering that printf's %d performs, and a line splitter used to read
    the fields of a reply header back. */
module HttpText {

  datatype Option<T> = None | Some(value: T)

  /** The C string terminator. */
  const NUL: char := '\0'

  /** strncmp(s, p, |p|) == 0 for a prefix p that holds no NUL. */
  predicate StartsWith(s: seq<char>, p: seq<char>) {
    |p| <= |s| && s[..|p|] == p
  }

  predicate IsDigit(c: char) {
    '0' <= c <= '9'
  }

  predicate AllDigits(s: string) {
    forall k :: 0 <= k < |s| ==> IsDigit(s[k])
  }

  function DigitChar(d: nat): (c: char)
    requires d < 10
    ensures IsDigit(c) && c as int - '0' as int == d
  {
    (d + '0' as int) as char
  }

  function DigitValue(c: char): (d: nat)
    requires IsDigit(c)
    ensures d < 10 && DigitChar(d) == c
  {
    c as int - '0' as int
  }

  /** The digits %d prints for a non-negative int: no sign, no leading zero. */
  function Decimal(n: nat): (s: string)
    ensures 1 <= |s| && AllDigits(s)
    ensures |s| == 1 <==> n < 10
    ensures s[0] == '0' <==> n == 0
  {
    if n < 10 then [DigitChar(n)] else Decimal(n / 10) + [DigitChar(n % 10)]
  }

  /** The number a string of digits denotes, most significant digit first. */
  function ValueOf(s: string): nat
    requires AllDigits(s)
  {
    if s == [] then 0 else ValueOf(s[..|s| - 1]) * 10 + DigitValue(s[|s| - 1])
  }

  /** Reading a decimal field: a non-empty run of digits, nothing else. */
  function ParseDecimal(s: string): Option<nat> {
    if s != [] && AllDigits(s) then Some(ValueOf(s)) else None
  }

  lemma {:induction false} DecimalValue(n: nat)
    ensures ValueOf(Decimal(n)) == n
  {
    if n >= 10 {
      var s := Decimal(n);
      assert s[..|s| - 1] == Decimal(n / 10);
      DecimalValue(n / 10);
    }
  }

  /** What %d writes is read back as the same number. */
  lemma DecimalRoundTrip(n: nat)
    ensures ParseDecimal(Decimal(n)) == Some(n)
  {
    DecimalValue(n);
  }

  /** Two sizes with the same rendering are the same size. */
  lemma DecimalInjective(m: nat, n: nat)
    ensures Decimal(m) == Decimal(n) <==> m == n
  {
    DecimalValue(m);
    DecimalValue(n);
  }

  /** Splits text at every '\n'; "a\nb\n" gives ["a", "b", ""]. */
  function SplitLines(s: string): (lines: seq<string>)
    ensures |lines| >= 1
  {
    if s == [] then [""]
    else
      var rest := SplitLines(s[1..]);
      if s[0] == '\n' then [""] + rest else [[s[0]] + rest[0]] + rest[1..]
  }

  /** Joins lines with '\n' between them: the inverse of SplitLines. */
  function JoinLines(lines: seq<string>): string
    requires |lines| >= 1
  {
    if |lines| == 1 then lines[0] else lines[0] + "\n" + JoinLines(lines[1..])
  }

  lemma {:induction false} SplitAfterLine(a: string, s: string)
    requires '\n' !in a
    ensures SplitLines(a + "\n" + s) == [a] + SplitLines(s)
  {
    if a == [] {
      assert a + "\n" + s == ['\n'] + s;
      assert (['\n'] + s)[1..] == s;
    } else {
      assert (a + "\n" + s)[1..] == a[1..] + "\n" + s;
      SplitAfterLine(a[1..], s);
      assert [a[0]] + a[1..] == a;
    }
  }

  lemma {:induction false} JoinSplit(s: string)
    ensures JoinLines(SplitLines(s)) == s
  {
    if s != [] {
      var rest := SplitLines(s[1..]);
      JoinSplit(s[1..]);
      if s[0] == '\n' {
        JoinCons("", rest);
        assert s == "" + "\n" + s[1..];
      } else {
        JoinPrepend(s[0], rest);
        assert s == [s[0]] + s[1..];
      }
    }
  }

  lemma JoinCons(a: string, lines: seq<string>)
    requires |lines| >= 1
    ensures JoinLines([a] + lines) == a + "\n" + JoinLines(lines)
  {
    assert ([a] + lines)[1..] == lines;
  }

  /** A character put in front of the first line is put in front of the text. */
  lemma JoinPrepend(c: char, lines: seq<string>)
    requires |lines| >= 1
    ensures JoinLines([[c] + lines[0]] + lines[1..]) == [c] + JoinLines(lines)
  {
    var joined := [[c] + lines[0]] + lines[1..];
    if |lines| > 1 {
      assert joined[1..] == lines[1..];
    }
  }
}

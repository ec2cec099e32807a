/**
 The string built-ins `parseContentRange` uses: `String.prototype.split` on a one-character
 separator and `parseInt(str, 10)`, together with the decimal notation they read.
 */
module JsStrings {
  import opened JsValues

  /** `parts` joined back together with `sep` between consecutive parts (`Array.prototype.join`). */
  function Join(parts: seq<string>, sep: char): string
    requires |parts| >= 1
  {
    if |parts| == 1 then parts[0] else parts[0] + [sep] + Join(parts[1..], sep)
  }

  /**
   `s.split(sep)`: the pieces of `s` between occurrences of `sep`. There is always at
   least one piece, no piece contains `sep`, and joining the pieces gives `s` back.
   */
  function Split(s: string, sep: char): (parts: seq<string>)
    ensures |parts| >= 1
    ensures forall i :: 0 <= i < |parts| ==> sep !in parts[i]
    ensures Join(parts, sep) == s
    decreases |s|
  {
    var i := IndexOf(s, sep);
    if i == -1 then [s]
    else
      var rest := Split(s[i + 1..], sep);
      SplitCons(s, i, sep, rest);
      [s[..i]] + rest
  }

  /** The text before the first separator, followed by the pieces of the text after it, are pieces of the whole. */
  lemma SplitCons(s: string, i: int, sep: char, rest: seq<string>)
    requires 0 <= i < |s| && s[i] == sep && sep !in s[..i]
    requires |rest| >= 1 && Join(rest, sep) == s[i + 1..]
    requires forall k :: 0 <= k < |rest| ==> sep !in rest[k]
    ensures var parts := [s[..i]] + rest;
            && (forall k :: 0 <= k < |parts| ==> sep !in parts[k])
            && Join(parts, sep) == s
  {
    var parts := [s[..i]] + rest;
    assert parts[1..] == rest;
    assert s == s[..i] + [sep] + s[i + 1..];
    forall k | 0 <= k < |parts|
      ensures sep !in parts[k]
    {
      if k > 0 {
        assert parts[k] == rest[k - 1];
      }
    }
  }

  /** Splitting at the first separator: the text before it is the first piece. */
  lemma SplitFirst(a: string, sep: char, b: string)
    requires sep !in a
    ensures Split(a + [sep] + b, sep) == [a] + Split(b, sep)
  {
    var s := a + [sep] + b;
    var i := IndexOf(s, sep);
    assert s[|a|] == sep;
    assert i == |a| by {
      if i < |a| {
        assert false;
      } else if i > |a| {
        assert false;
      }
    }
    assert s[..i] == a;
    assert s[i + 1..] == b;
  }

  predicate IsDigit(c: char) {
    '0' <= c <= '9'
  }

  predicate AllDigits(s: string) {
    forall i :: 0 <= i < |s| ==> IsDigit(s[i])
  }

  function DigitValue(c: char): nat
    requires IsDigit(c)
  {
    c as int - '0' as int
  }

  function DigitChar(d: nat): (c: char)
    requires d < 10
    ensures IsDigit(c) && DigitValue(c) == d
  {
    ('0' as int + d) as char
  }

  /** The number a string of decimal digits denotes, most significant digit first. */
  function DecimalValue(s: string): nat
    requires AllDigits(s)
    decreases |s|
  {
    if |s| == 0 then 0 else 10 * DecimalValue(s[..|s| - 1]) + DigitValue(s[|s| - 1])
  }

  /** The canonical decimal notation of `n` (what `String(n)` prints); it denotes `n`. */
  function DecimalString(n: nat): (s: string)
    ensures |s| >= 1 && AllDigits(s)
    ensures DecimalValue(s) == n
  {
    if n < 10 then [DigitChar(n)]
    else
      var s := DecimalString(n / 10) + [DigitChar(n % 10)];
      assert s[..|s| - 1] == DecimalString(n / 10);
      s
  }

  /** Length of the longest prefix of `s` made of decimal digits. */
  function DigitRun(s: string): (k: nat)
    ensures k <= |s|
    ensures AllDigits(s[..k])
    ensures k < |s| ==> !IsDigit(s[k])
  {
    if |s| == 0 || !IsDigit(s[0]) then 0
    else
      var k := 1 + DigitRun(s[1..]);
      assert s[..k] == [s[0]] + s[1..][..k - 1];
      k
  }

  /** The ASCII white space `parseInt` skips before the number. */
  predicate IsSpace(c: char) {
    c == ' ' || c == '\t' || c == '\n' || c == '\r' || c == '\U{B}' || c == '\U{C}'
  }

  /** `s` without its leading white space. */
  function TrimStart(s: string): (r: string)
    ensures |r| <= |s|
    ensures |r| > 0 ==> !IsSpace(r[0])
  {
    if |s| > 0 && IsSpace(s[0]) then TrimStart(s[1..]) else s
  }

  /**
   `parseInt(s, 10)`: skip leading white space, read an optional sign, then the longest
   run of decimal digits; NaN when there is no digit there. Whatever follows the digits
   is ignored.
   */
  function ParseInt(s: string): (r: JsNum)
    ensures !r.Undefined?
    ensures var t := TrimStart(s);
            var u := if |t| > 0 && (t[0] == '-' || t[0] == '+') then t[1..] else t;
            r.NaN? <==> |u| == 0 || !IsDigit(u[0])
    ensures var t := TrimStart(s);
            && (r.Int? && |t| > 0 && t[0] == '-' ==> r.n <= 0)
            && (r.Int? && !(|t| > 0 && t[0] == '-') ==> r.n >= 0)
  {
    var t := TrimStart(s);
    if |t| > 0 && t[0] == '-' then ParseDigitRun(t[1..]).Times(-1)
    else if |t| > 0 && t[0] == '+' then ParseDigitRun(t[1..])
    else ParseDigitRun(t)
  }

  /** The value of the leading digit run of `s`, or NaN when `s` does not start with a digit. */
  function ParseDigitRun(s: string): (r: JsNum)
    ensures !r.Undefined?
  {
    var k := DigitRun(s);
    if k == 0 then NaN else Int(DecimalValue(s[..k]))
  }

  /** A string of digits, ended by anything that is not a digit, parses to the number it denotes. */
  lemma ParseDigits(d: string, rest: string)
    requires |d| >= 1 && AllDigits(d)
    requires |rest| == 0 || !IsDigit(rest[0])
    ensures ParseInt(d + rest) == Int(DecimalValue(d))
  {
    var s := d + rest;
    assert s[0] == d[0];
    ParseUnsigned(s);
    DigitRunOf(d, rest);
    assert s[..DigitRun(s)] == d;
  }

  /** Leading white space does not change what `parseInt` reads. */
  lemma ParseSkipsSpace(c: char, s: string)
    requires IsSpace(c)
    ensures ParseInt([c] + s) == ParseInt(s)
  {
    assert ([c] + s)[1..] == s;
  }

  /** A minus sign before a digit run negates its value; what follows the run is ignored. */
  lemma ParseNegative(d: string, rest: string)
    requires |d| >= 1 && AllDigits(d)
    requires |rest| == 0 || !IsDigit(rest[0])
    ensures ParseInt("-" + d + rest) == Int(-(DecimalValue(d) as int))
  {
    var u := d + rest;
    var s := ['-'] + u;
    assert s == "-" + d + rest;
    assert s[1..] == u;
    assert !IsSpace(s[0]);
    assert TrimStart(s) == s;
    assert ParseInt(s) == ParseDigitRun(u).Times(-1);
    DigitRunValue(d, rest);
  }

  /** The leading digit run of `d + rest` is `d`. */
  lemma DigitRunValue(d: string, rest: string)
    requires |d| >= 1 && AllDigits(d)
    requires |rest| == 0 || !IsDigit(rest[0])
    ensures ParseDigitRun(d + rest) == Int(DecimalValue(d))
  {
    DigitRunOf(d, rest);
    assert (d + rest)[..|d|] == d;
  }

  /** A non-empty string of digits parses to the number it denotes. */
  lemma ParseAllDigits(d: string)
    requires |d| >= 1 && AllDigits(d)
    ensures ParseInt(d) == Int(DecimalValue(d))
  {
    ParseDigits(d, []);
    assert d + [] == d;
  }

  /** A string that starts with a digit parses to the value of its leading digit run. */
  lemma ParseUnsigned(s: string)
    requires |s| > 0 && IsDigit(s[0])
    ensures ParseInt(s) == ParseDigitRun(s)
  {
    assert !IsSpace(s[0]);
    assert TrimStart(s) == s;
  }

  lemma {:induction false} DigitRunOf(d: string, rest: string)
    requires AllDigits(d)
    requires |rest| == 0 || !IsDigit(rest[0])
    ensures DigitRun(d + rest) == |d|
    decreases |d|
  {
    if |d| > 0 {
      assert (d + rest)[1..] == d[1..] + rest;
      DigitRunOf(d[1..], rest);
    } else {
      assert d + rest == rest;
    }
  }
}

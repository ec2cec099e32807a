/**
 The page toolbox's `htmlEntities`: escape the four HTML-special characters `&`, `<`, `>`
 and `"` of a string as the entities `&amp;`, `&lt;`, `&gt;` and `&quot;`, and give
 `null` for an absent or empty string.

 The toolbox does this with four global replacements in a row, `&` first. The model keeps
 that chain (`ReplaceChain`) and proves it equal to a one-pass, per-character reference
 (`Escape`), about which everything else is stated.
 */
module Toolbox {
  import opened JsValues

  /** `s.replace(/c/g, entity)`: every occurrence of `c` replaced by `entity`. */
  function ReplaceAll(s: string, c: char, entity: string): (r: string)
    ensures c !in entity ==> c !in r
    ensures c !in s ==> r == s
    decreases |s|
  {
    if |s| == 0 then [] else (if s[0] == c then entity else [s[0]]) + ReplaceAll(s[1..], c, entity)
  }

  /**
   The chain of replacements the toolbox performs, in its order. No raw `<`, `>` or `"`
   survives it; `ChainIsEscape` shows it is the per-character escape.
   */
  function ReplaceChain(s: string): (r: string)
    ensures '<' !in r && '>' !in r && '"' !in r
  {
    var s1 := ReplaceAll(s, '&', "&amp;");
    var s2 := ReplaceAll(s1, '<', "&lt;");
    var s3 := ReplaceAll(s2, '>', "&gt;");
    ReplaceKeepsAbsent(s2, '>', "&gt;", '<');
    ReplaceKeepsAbsent(s3, '"', "&quot;", '<');
    ReplaceKeepsAbsent(s3, '"', "&quot;", '>');
    ReplaceAll(s3, '"', "&quot;")
  }

  /** A replacement introduces no character that neither the string nor the entity holds. */
  lemma {:induction false} ReplaceKeepsAbsent(s: string, c: char, entity: string, x: char)
    requires x !in s && x !in entity
    ensures x !in ReplaceAll(s, c, entity)
    decreases |s|
  {
    if |s| > 0 {
      assert forall i :: 0 <= i < |s| - 1 ==> s[1..][i] == s[i + 1];
      ReplaceKeepsAbsent(s[1..], c, entity, x);
    }
  }

  /** The entity a single character becomes; every other character stands for itself. */
  function EscapeChar(c: char): string {
    match c
    case '&' => "&amp;"
    case '<' => "&lt;"
    case '>' => "&gt;"
    case '"' => "&quot;"
    case _ => [c]
  }

  predicate IsSpecial(c: char) {
    c == '&' || c == '<' || c == '>' || c == '"'
  }

  /** One of the four entities starts at position `i` of `t`. */
  predicate EntityAt(t: string, i: nat) {
    i <= |t| &&
    var rest := t[i..];
    "&amp;" <= rest || "&lt;" <= rest || "&gt;" <= rest || "&quot;" <= rest
  }

  /** No raw `<`, `>` or `"`, and every `&` begins an entity. */
  predicate WellEscaped(t: string) {
    forall i :: 0 <= i < |t| ==> t[i] != '<' && t[i] != '>' && t[i] != '"' && (t[i] == '&' ==> EntityAt(t, i))
  }

  /**
   The reference escaper: each character of `s` replaced by its entity, in order. Its
   output holds no raw `<`, `>` or `"`, and every `&` in it opens one of the four entities,
   so an entity it introduces is never escaped a second time.
   */
  function Escape(s: string): (r: string)
    ensures WellEscaped(r)
    ensures |r| >= |s|
    decreases |s|
  {
    if |s| == 0 then []
    else
      var head := EscapeChar(s[0]);
      var tail := Escape(s[1..]);
      WellEscapedHead(s[0]);
      WellEscapedConcat(head, tail);
      head + tail
  }

  lemma WellEscapedHead(c: char)
    ensures WellEscaped(EscapeChar(c))
  {
    var e := EscapeChar(c);
    if c == '&' || c == '<' || c == '>' || c == '"' {
      assert e[0] == '&';
      assert e[0..] == e;
      forall i | 0 < i < |e|
        ensures e[i] != '&' && e[i] != '<' && e[i] != '>' && e[i] != '"'
      {
      }
    }
  }

  /** Whether an entity starts at a position only depends on what follows it. */
  lemma EntityAtShift(a: string, b: string, j: nat)
    requires j <= |b|
    ensures EntityAt(a + b, |a| + j) == EntityAt(b, j)
  {
    assert (a + b)[|a| + j..] == b[j..];
  }

  lemma EntityAtExtend(a: string, b: string, i: nat)
    requires EntityAt(a, i)
    ensures EntityAt(a + b, i)
  {
    assert (a + b)[i..] == a[i..] + b;
  }

  lemma WellEscapedConcat(a: string, b: string)
    requires WellEscaped(a) && WellEscaped(b)
    ensures WellEscaped(a + b)
  {
    var t := a + b;
    forall i | 0 <= i < |t|
      ensures t[i] != '<' && t[i] != '>' && t[i] != '"' && (t[i] == '&' ==> EntityAt(t, i))
    {
      if i < |a| {
        assert t[i] == a[i];
        if a[i] == '&' {
          EntityAtExtend(a, b, i);
        }
      } else {
        assert t[i] == b[i - |a|];
        EntityAtShift(a, b, i - |a|);
      }
    }
  }

  /** Escaping works piece by piece: the output of `a + b` is the output of `a` then of `b`. */
  lemma {:induction false} EscapeConcat(a: string, b: string)
    ensures Escape(a + b) == Escape(a) + Escape(b)
    decreases |a|
  {
    if |a| == 0 {
      assert a + b == b;
    } else {
      assert (a + b)[1..] == a[1..] + b;
      EscapeConcat(a[1..], b);
    }
  }

  /** A string without special characters is copied unchanged. */
  lemma {:induction false} EscapePlain(s: string)
    requires forall i :: 0 <= i < |s| ==> !IsSpecial(s[i])
    ensures Escape(s) == s
    decreases |s|
  {
    if |s| > 0 {
      EscapePlain(s[1..]);
    }
  }

  /** Number of occurrences of `c` in `s`. */
  function Count(s: string, c: char): nat
    decreases |s|
  {
    if |s| == 0 then 0 else (if s[0] == c then 1 else 0) + Count(s[1..], c)
  }

  /** Each `&` adds four characters, each `<` or `>` three, each `"` five. */
  lemma {:induction false} EscapeLength(s: string)
    ensures |Escape(s)| == |s| + 4 * Count(s, '&') + 3 * Count(s, '<') + 3 * Count(s, '>') + 5 * Count(s, '"')
    decreases |s|
  {
    if |s| > 0 {
      EscapeLength(s[1..]);
    }
  }

  lemma {:induction false} ReplaceConcat(a: string, b: string, c: char, entity: string)
    ensures ReplaceAll(a + b, c, entity) == ReplaceAll(a, c, entity) + ReplaceAll(b, c, entity)
    decreases |a|
  {
    if |a| == 0 {
      assert a + b == b;
    } else {
      assert (a + b)[1..] == a[1..] + b;
      ReplaceConcat(a[1..], b, c, entity);
    }
  }

  lemma ReplaceSingle(x: char, c: char, entity: string)
    ensures ReplaceAll([x], c, entity) == if x == c then entity else [x]
  {
    assert [x][1..] == [];
  }

  lemma ChainConcat(a: string, b: string)
    ensures ReplaceChain(a + b) == ReplaceChain(a) + ReplaceChain(b)
  {
    var a1, b1 := ReplaceAll(a, '&', "&amp;"), ReplaceAll(b, '&', "&amp;");
    ReplaceConcat(a, b, '&', "&amp;");
    var a2, b2 := ReplaceAll(a1, '<', "&lt;"), ReplaceAll(b1, '<', "&lt;");
    ReplaceConcat(a1, b1, '<', "&lt;");
    var a3, b3 := ReplaceAll(a2, '>', "&gt;"), ReplaceAll(b2, '>', "&gt;");
    ReplaceConcat(a2, b2, '>', "&gt;");
    ReplaceConcat(a3, b3, '"', "&quot;");
  }

  /** On one character the chain gives that character's entity: `&` goes first, so no entity is re-escaped. */
  lemma ChainSingle(x: char)
    ensures ReplaceChain([x]) == EscapeChar(x)
  {
    ReplaceSingle(x, '&', "&amp;");
    if x == '&' {
      EntityUntouched("&amp;");
    } else {
      ReplaceSingle(x, '<', "&lt;");
      if x == '<' {
        EntityUntouched2("&lt;");
      } else {
        ReplaceSingle(x, '>', "&gt;");
        if x != '>' {
          ReplaceSingle(x, '"', "&quot;");
        }
      }
    }
  }

  /** The replacements after the first leave an entity of the first alone. */
  lemma EntityUntouched(e: string)
    requires '<' !in e && '>' !in e && '"' !in e
    ensures ReplaceAll(ReplaceAll(ReplaceAll(e, '<', "&lt;"), '>', "&gt;"), '"', "&quot;") == e
  {
    EntityUntouched2(e);
  }

  /** The last two replacements leave an entity of the first two alone. */
  lemma EntityUntouched2(e: string)
    requires '>' !in e && '"' !in e
    ensures ReplaceAll(ReplaceAll(e, '>', "&gt;"), '"', "&quot;") == e
  {
  }

  /** The toolbox's chain of four replacements computes the one-pass escaper. */
  lemma {:induction false} ChainIsEscape(s: string)
    ensures ReplaceChain(s) == Escape(s)
    decreases |s|
  {
    if |s| == 0 {
      assert ReplaceChain(s) == [];
    } else {
      assert s == [s[0]] + s[1..];
      ChainConcat([s[0]], s[1..]);
      ChainSingle(s[0]);
      ChainIsEscape(s[1..]);
    }
  }

  /** Reverse the four entities; any other text is kept. */
  function Unescape(t: string): string
    decreases |t|
  {
    if |t| == 0 then []
    else if "&amp;" <= t then "&" + Unescape(t[5..])
    else if "&lt;" <= t then "<" + Unescape(t[4..])
    else if "&gt;" <= t then ">" + Unescape(t[4..])
    else if "&quot;" <= t then "\"" + Unescape(t[6..])
    else [t[0]] + Unescape(t[1..])
  }

  lemma UnescapeStep(c: char, t: string)
    ensures Unescape(EscapeChar(c) + t) == [c] + Unescape(t)
  {
    var e := EscapeChar(c);
    var u := e + t;
    assert u[|e|..] == t;
    assert e <= u;
    if c == '&' {
      assert Unescape(u) == "&" + Unescape(u[5..]);
    } else if c == '<' {
      assert u[1] == 'l' && !("&amp;" <= u);
      assert Unescape(u) == "<" + Unescape(u[4..]);
    } else if c == '>' {
      assert u[1] == 'g' && !("&amp;" <= u) && !("&lt;" <= u);
      assert Unescape(u) == ">" + Unescape(u[4..]);
    } else if c == '"' {
      assert u[1] == 'q' && !("&amp;" <= u) && !("&lt;" <= u) && !("&gt;" <= u);
      assert Unescape(u) == "\"" + Unescape(u[6..]);
    } else {
      assert u[0] == c && u[1..] == t;
      assert u[0] != '&';
      assert Unescape(u) == [u[0]] + Unescape(u[1..]);
    }
  }

  /** Unescaping the escaped string gives the original back. */
  lemma {:induction false} UnescapeEscape(s: string)
    ensures Unescape(Escape(s)) == s
    decreases |s|
  {
    if |s| > 0 {
      var t := Escape(s[1..]);
      assert Escape(s) == EscapeChar(s[0]) + t;
      UnescapeStep(s[0], t);
      UnescapeEscape(s[1..]);
      assert s == [s[0]] + s[1..];
    }
  }

  /** Two different strings never escape to the same text. */
  lemma EscapeInjective(a: string, b: string)
    requires Escape(a) == Escape(b)
    ensures a == b
  {
    UnescapeEscape(a);
    UnescapeEscape(b);
  }

  /**
   `htmlEntities(str)`: `null` (here `None`) for an absent or empty string; otherwise the
   string with `&`, `<`, `>` and `"` escaped, in which no raw `<`, `>` or `"` remains,
   every `&` opens an entity, and from which `Unescape` recovers the input.
   */
  function HtmlEntities(str: Option<string>): (r: Option<string>)
    ensures r.None? <==> !TruthyString(str)
    ensures r.Some? ==> WellEscaped(r.value)
    ensures r.Some? ==> Unescape(r.value) == str.value
    ensures r.Some? ==> r.value == Escape(str.value)
  {
    if TruthyString(str) then
      ChainIsEscape(str.value);
      UnescapeEscape(str.value);
      Some(ReplaceChain(str.value))
    else
      None
  }
}

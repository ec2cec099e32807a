/**
 `removeHandledParams`: before the widget sends its own `c` (page size) and `p` (page index)
 query parameters, it strips any `c=` and `p=` parameters already in the configured URL.

 For each name, in the order `c` then `p`, two global regular-expression replacements run:
 `/(&name=[^&#]*([&#])?)/g` replaced by the separator it swallowed (`$2`), then
 `/[?]name=[^&#]*&?/g` replaced by `?`. Each replacement is modelled as a left-to-right
 scan that resumes after the text a match consumed, exactly as a global replace does.
 */
module UrlParams {
  import opened JsValues

  /** The characters that end a parameter value: `[&#]`. */
  predicate IsSeparator(c: char) {
    c == '&' || c == '#'
  }

  /** Length of the longest prefix of `s` free of `&` and `#`: what `[^&#]*` consumes. */
  function ValueRun(s: string): (k: nat)
    ensures k <= |s|
    ensures forall i :: 0 <= i < k ==> !IsSeparator(s[i])
    ensures k < |s| ==> IsSeparator(s[k])
  {
    if |s| == 0 || IsSeparator(s[0]) then 0 else 1 + ValueRun(s[1..])
  }

  /** `&name=` starts at position `j` of `s`. */
  predicate AmpMatchAt(s: string, j: int, name: char) {
    0 <= j && j + 3 <= |s| && s[j] == '&' && s[j + 1] == name && s[j + 2] == '='
  }

  /** `?name=` starts at position `j` of `s`. */
  predicate QueryMatchAt(s: string, j: int, name: char) {
    0 <= j && j + 3 <= |s| && s[j] == '?' && s[j + 1] == name && s[j + 2] == '='
  }

  /** `s.replace(/(&name=[^&#]*([&#])?)/g, '$2')`. */
  function DropAmpParam(s: string, name: char): (r: string)
    ensures |r| <= |s|
    ensures name != '#' ==> ('#' in r <==> '#' in s)
    decreases |s|
  {
    if |s| == 0 then []
    else if AmpMatchAt(s, 0, name) then
      var k := 3 + ValueRun(s[3..]);
      HashAfterMatch(s, name, k, k);
      if k < |s| then
        assert s[k..] == [s[k]] + s[k + 1..];
        [s[k]] + DropAmpParam(s[k + 1..], name)
      else []
    else [s[0]] + DropAmpParam(s[1..], name)
  }

  /** `s.replace(/[?]name=[^&#]*&?/g, '?')`. */
  function DropQueryParam(s: string, name: char): (r: string)
    ensures |r| <= |s|
    ensures name != '#' ==> ('#' in r <==> '#' in s)
    decreases |s|
  {
    if |s| == 0 then []
    else if QueryMatchAt(s, 0, name) then
      var k := 3 + ValueRun(s[3..]);
      var next := if k < |s| && s[k] == '&' then k + 1 else k;
      HashAfterMatch(s, name, k, next);
      "?" + DropQueryParam(s[next..], name)
    else [s[0]] + DropQueryParam(s[1..], name)
  }

  /** A `#` in `s` lies at or after `k` when none comes before it. */
  lemma HashAfter(s: string, k: nat)
    requires k <= |s|
    requires forall i :: 0 <= i < k ==> s[i] != '#'
    ensures '#' in s <==> '#' in s[k..]
  {
    assert s == s[..k] + s[k..];
    assert '#' !in s[..k];
  }

  /**
   A match `&name=value` or `?name=value` at the start of `s`, ending before `k` (or
   before `next`, which may swallow one `&` more), holds no `#` unless `name` is one.
   */
  lemma HashAfterMatch(s: string, name: char, k: nat, next: nat)
    requires 3 <= k <= |s| && k == 3 + ValueRun(s[3..])
    requires s[1] == name && s[0] != '#' && s[2] != '#'
    requires next == k || (next == k + 1 && k < |s| && s[k] == '&')
    ensures name != '#' ==> ('#' in s <==> '#' in s[next..])
  {
    if name != '#' {
      forall i | 0 <= i < next
        ensures s[i] != '#'
      {
        if 3 <= i < k {
          assert s[i] == s[3..][i - 3];
        }
      }
      HashAfter(s, next);
    }
  }

  /** One step of the `reduce`: both replacements for one parameter name. */
  function DropParam(s: string, name: char): (r: string)
    ensures |r| <= |s|
    ensures name != '#' ==> ('#' in r <==> '#' in s)
    ensures IsHandledName(name) && Clean(s) ==> r == s
  {
    var r := DropQueryParam(DropAmpParam(s, name), name);
    if IsHandledName(name) && Clean(s) then
      DropAmpAbsentOfClean(s, name);
      DropQueryAbsentOfClean(s, name);
      r
    else r
  }

  /**
   `removeHandledParams(url)`: a missing URL reads as `''`; the result is never longer than
   the URL it came from.
   */
  function RemoveHandledParams(url: Option<string>): (r: string)
    ensures url.None? ==> r == ""
    ensures |r| <= |OrElse(url, "")|
  {
    DropParam(DropParam(OrElse(url, ""), 'c'), 'p')
  }

  /** The names the widget handles itself. */
  predicate IsHandledName(c: char) {
    c == 'c' || c == 'p'
  }

  /** One of `&c=`, `?c=`, `&p=`, `?p=` starts at position `j` of `s`. */
  predicate HandledAt(s: string, j: int) {
    0 <= j && j + 3 <= |s| && (s[j] == '&' || s[j] == '?') && IsHandledName(s[j + 1]) && s[j + 2] == '='
  }

  /** `s` holds none of `&c=`, `?c=`, `&p=`, `?p=`. */
  predicate Clean(s: string) {
    forall j :: 0 <= j < |s| ==> !HandledAt(s, j)
  }

  lemma {:induction false} DropAmpAbsent(s: string, name: char)
    requires forall j :: 0 <= j < |s| ==> !AmpMatchAt(s, j, name)
    ensures DropAmpParam(s, name) == s
    decreases |s|
  {
    if |s| > 0 {
      assert !AmpMatchAt(s, 0, name);
      forall j | 0 <= j < |s[1..]|
        ensures !AmpMatchAt(s[1..], j, name)
      {
        assert !AmpMatchAt(s, j + 1, name);
      }
      DropAmpAbsent(s[1..], name);
    }
  }

  lemma {:induction false} DropQueryAbsent(s: string, name: char)
    requires forall j :: 0 <= j < |s| ==> !QueryMatchAt(s, j, name)
    ensures DropQueryParam(s, name) == s
    decreases |s|
  {
    if |s| > 0 {
      assert !QueryMatchAt(s, 0, name);
      forall j | 0 <= j < |s[1..]|
        ensures !QueryMatchAt(s[1..], j, name)
      {
        assert !QueryMatchAt(s, j + 1, name);
      }
      DropQueryAbsent(s[1..], name);
    }
  }

  /** A URL without `&c=`, `?c=`, `&p=` or `?p=` comes back unchanged. */
  lemma RemoveClean(url: string)
    requires Clean(url)
    ensures RemoveHandledParams(Some(url)) == url
  {
  }

  /** The scan copies a prefix in which no match starts, and carries on after it. */
  lemma {:induction false} DropAmpPrefix(a: string, t: string, name: char)
    requires forall j :: 0 <= j < |a| ==> !AmpMatchAt(a + t, j, name)
    ensures DropAmpParam(a + t, name) == a + DropAmpParam(t, name)
    decreases |a|
  {
    if |a| > 0 {
      var s := a + t;
      assert s[0] == a[0] && s[1..] == a[1..] + t;
      assert !AmpMatchAt(s, 0, name);
      assert DropAmpParam(s, name) == [a[0]] + DropAmpParam(a[1..] + t, name);
      NoAmpAfterFirst(a, t, name);
      DropAmpPrefix(a[1..], t, name);
      ConsConcat(a, DropAmpParam(t, name));
    } else {
      assert a + t == t;
    }
  }

  lemma NoAmpAfterFirst(a: string, t: string, name: char)
    requires |a| > 0
    requires forall j :: 0 <= j < |a| ==> !AmpMatchAt(a + t, j, name)
    ensures forall j :: 0 <= j < |a| - 1 ==> !AmpMatchAt(a[1..] + t, j, name)
  {
    var s := a + t;
    assert s[1..] == a[1..] + t;
    forall j | 0 <= j < |a| - 1
      ensures !AmpMatchAt(a[1..] + t, j, name)
    {
      assert !AmpMatchAt(s, j + 1, name);
    }
  }

  lemma {:induction false} DropQueryPrefix(a: string, t: string, name: char)
    requires forall j :: 0 <= j < |a| ==> !QueryMatchAt(a + t, j, name)
    ensures DropQueryParam(a + t, name) == a + DropQueryParam(t, name)
    decreases |a|
  {
    if |a| > 0 {
      var s := a + t;
      assert s[0] == a[0] && s[1..] == a[1..] + t;
      assert !QueryMatchAt(s, 0, name);
      assert DropQueryParam(s, name) == [a[0]] + DropQueryParam(a[1..] + t, name);
      NoQueryAfterFirst(a, t, name);
      DropQueryPrefix(a[1..], t, name);
      ConsConcat(a, DropQueryParam(t, name));
    } else {
      assert a + t == t;
    }
  }

  lemma NoQueryAfterFirst(a: string, t: string, name: char)
    requires |a| > 0
    requires forall j :: 0 <= j < |a| ==> !QueryMatchAt(a + t, j, name)
    ensures forall j :: 0 <= j < |a| - 1 ==> !QueryMatchAt(a[1..] + t, j, name)
  {
    var s := a + t;
    assert s[1..] == a[1..] + t;
    forall j | 0 <= j < |a| - 1
      ensures !QueryMatchAt(a[1..] + t, j, name)
    {
      assert !QueryMatchAt(s, j + 1, name);
    }
  }

  /** A parameter value: no `&` and no `#`. */
  predicate IsValue(v: string) {
    forall i :: 0 <= i < |v| ==> !IsSeparator(v[i])
  }

  /** What may follow a parameter: nothing, or a separator and the rest of the URL. */
  predicate IsTail(tail: string) {
    |tail| == 0 || IsSeparator(tail[0])
  }

  lemma ValueRunOf(v: string, tail: string)
    requires IsValue(v) && IsTail(tail)
    ensures ValueRun(v + tail) == |v|
    decreases |v|
  {
    if |v| > 0 {
      assert (v + tail)[1..] == v[1..] + tail;
      ValueRunOf(v[1..], tail);
    } else {
      assert v + tail == tail;
    }
  }

  /** `&name=value` is replaced by the separator that follows it, or by nothing at the end. */
  lemma DropAmpHere(name: char, v: string, tail: string)
    requires IsValue(v) && IsTail(tail)
    ensures DropAmpParam(['&', name, '='] + v + tail, name)
         == if |tail| == 0 then [] else [tail[0]] + DropAmpParam(tail[1..], name)
  {
    var s := ['&', name, '='] + v + tail;
    assert s[3..] == v + tail;
    ValueRunOf(v, tail);
    var k := 3 + |v|;
    assert AmpMatchAt(s, 0, name);
    if |tail| > 0 {
      assert DropAmpParam(s, name) == [s[k]] + DropAmpParam(s[k + 1..], name);
      assert s[k] == tail[0];
      assert s[k + 1..] == tail[1..];
    } else {
      assert k == |s|;
    }
  }

  /** `?name=value` and a following `&` are replaced by `?`; a following `#` is kept. */
  lemma DropQueryHere(name: char, v: string, tail: string)
    requires IsValue(v) && IsTail(tail)
    ensures DropQueryParam(['?', name, '='] + v + tail, name)
         == if |tail| > 0 && tail[0] == '&' then "?" + DropQueryParam(tail[1..], name)
            else "?" + DropQueryParam(tail, name)
  {
    var s := ['?', name, '='] + v + tail;
    assert s[3..] == v + tail;
    ValueRunOf(v, tail);
    var k := 3 + |v|;
    assert QueryMatchAt(s, 0, name);
    var next := if k < |s| && s[k] == '&' then k + 1 else k;
    assert DropQueryParam(s, name) == "?" + DropQueryParam(s[next..], name);
    assert s[next..] == if |tail| > 0 && tail[0] == '&' then tail[1..] else tail by {
      assert s[k..] == tail;
    }
  }

  /** `url` holds exactly one handled parameter, the one starting at position `at`. */
  predicate OnlyHandledAt(url: string, at: int) {
    forall j :: 0 <= j < |url| && j != at ==> !HandledAt(url, j)
  }

  /**
   With a single `&c=value` or `&p=value` in the URL, that parameter is removed and the
   separator or `#fragment` after it is kept; nothing else changes.
   */
  lemma RemoveSingleAmp(a: string, name: char, v: string, tail: string)
    requires IsHandledName(name) && IsValue(v) && IsTail(tail)
    requires OnlyHandledAt(a + ['&', name, '='] + v + tail, |a|)
    ensures RemoveHandledParams(Some(a + ['&', name, '='] + v + tail)) == a + tail
  {
    var param := ['&', name, '='] + v + tail;
    var url := a + param;
    assert url == a + ['&', name, '='] + v + tail;
    var result := a + tail;
    AmpResultClean(a, name, v, tail);
    assert DropAmpParam(url, name) == result by {
      if |tail| > 0 {
        DropAmpAbsentOfClean(tail[1..], name);
      }
      DropFirstAmp(a, name, v, tail);
    }
    if name == 'c' {
      DropQueryAbsentOfClean(result, 'c');
    } else {
      assert DropParam(url, 'c') == url by {
        NoOtherName(url, |a|, 'c');
        DropAmpAbsent(url, 'c');
        DropQueryAbsent(url, 'c');
      }
      DropQueryAbsentOfClean(result, 'p');
    }
  }

  /** Removing the single `&name=value` parameter leaves no handled parameter behind. */
  lemma AmpResultClean(a: string, name: char, v: string, tail: string)
    requires IsHandledName(name) && IsValue(v) && IsTail(tail)
    requires OnlyHandledAt(a + ['&', name, '='] + v + tail, |a|)
    ensures |tail| > 0 ==> Clean(tail[1..])
    ensures Clean(a) && Clean(a + tail)
  {
    var url := a + ['&', name, '='] + v + tail;
    var off := |a| + 3 + |v|;
    assert url[off..] == tail;
    if |tail| > 0 {
      forall j | 0 <= j < |tail[1..]|
        ensures !HandledAt(tail[1..], j)
      {
        assert !HandledAt(url, off + 1 + j);
      }
    }
    var result := a + tail;
    forall j | 0 <= j < |result|
      ensures !HandledAt(result, j)
    {
      if j >= |a| {
        assert !HandledAt(url, j + 3 + |v|);
      } else if j + 3 <= |a| {
        assert !HandledAt(url, j);
      }
    }
    CleanPrefix(a, url);
  }

  /**
   A string is clean when it is clean as the start of a longer one that goes on with
   `&` or `?`, as each handled parameter ends with `=`.
   */
  lemma CleanPrefix(a: string, url: string)
    requires a <= url && |url| > |a| && (url[|a|] == '&' || url[|a|] == '?')
    requires forall j :: 0 <= j < |a| ==> !HandledAt(url, j)
    ensures Clean(a)
  {
    forall j | 0 <= j < |a|
      ensures !HandledAt(a, j)
    {
      assert !HandledAt(url, j);
      if j + 3 <= |a| {
        assert a[j..j + 3] == url[j..j + 3];
      }
    }
  }

  /**
   With a single `?c=value` or `?p=value` in the URL, that parameter is removed together
   with the `&` after it, leaving the `?` in front of the next parameter; a `#fragment`
   after it is kept.
   */
  lemma RemoveSingleQuery(a: string, name: char, v: string, tail: string)
    requires IsHandledName(name) && IsValue(v) && IsTail(tail)
    requires OnlyHandledAt(a + ['?', name, '='] + v + tail, |a|)
    ensures RemoveHandledParams(Some(a + ['?', name, '='] + v + tail))
         == if |tail| > 0 && tail[0] == '&' then a + "?" + tail[1..] else a + "?" + tail
  {
    var param := ['?', name, '='] + v + tail;
    var url := a + param;
    assert url == a + ['?', name, '='] + v + tail;
    var rest := if |tail| > 0 && tail[0] == '&' then tail[1..] else tail;
    var result := a + "?" + rest;
    QueryResultClean(a, name, v, tail);
    assert DropAmpParam(url, 'c') == url && DropAmpParam(url, 'p') == url by {
      NoAmpBeforeQuery(url, |a|);
    }
    assert DropQueryParam(url, name) == result by {
      DropQueryAbsentOfClean(rest, name);
      DropFirstQuery(a, name, v, tail);
    }
    if name == 'c' {
    } else {
      assert DropQueryParam(url, 'c') == url by {
        NoOtherName(url, |a|, 'c');
        DropQueryAbsent(url, 'c');
      }
    }
  }

  /**
   In a prefix without `?name=` followed by `?name=value`, the `?name=` replacement keeps
   the prefix and puts `?` in place of the parameter and of one `&` after it.
   */
  lemma DropFirstQuery(a: string, name: char, v: string, tail: string)
    requires Clean(a) && IsHandledName(name) && IsValue(v) && IsTail(tail)
    requires var rest := if |tail| > 0 && tail[0] == '&' then tail[1..] else tail;
             DropQueryParam(rest, name) == rest
    ensures var rest := if |tail| > 0 && tail[0] == '&' then tail[1..] else tail;
            DropQueryParam(a + (['?', name, '='] + v + tail), name) == a + "?" + rest
  {
    var param := ['?', name, '='] + v + tail;
    var url := a + param;
    forall j | 0 <= j < |a|
      ensures !QueryMatchAt(url, j, name)
    {
      if j + 3 <= |a| {
        assert !HandledAt(a, j);
        assert url[j..j + 3] == a[j..j + 3];
      }
    }
    var rest := if |tail| > 0 && tail[0] == '&' then tail[1..] else tail;
    DropQueryPrefix(a, param, name);
    DropQueryHere(name, v, tail);
    assert DropQueryParam(param, name) == "?" + rest;
    ConcatAssoc(a, "?", rest);
  }

  lemma ConsConcat(a: string, x: string)
    requires |a| > 0
    ensures [a[0]] + (a[1..] + x) == a + x
  {
    assert a == [a[0]] + a[1..];
  }

  lemma ConcatAssoc(a: string, b: string, c: string)
    ensures a + (b + c) == a + b + c
  {
  }

  /** A URL whose only handled parameter is a `?` one holds no `&c=` or `&p=`, which the first replacements therefore skip. */
  lemma NoAmpBeforeQuery(url: string, at: int)
    requires OnlyHandledAt(url, at) && 0 <= at < |url| && url[at] == '?'
    ensures DropAmpParam(url, 'c') == url && DropAmpParam(url, 'p') == url
  {
    forall j | 0 <= j < |url|
      ensures !AmpMatchAt(url, j, 'c') && !AmpMatchAt(url, j, 'p')
    {
      if j != at {
        assert !HandledAt(url, j);
      }
    }
    DropAmpAbsent(url, 'c');
    DropAmpAbsent(url, 'p');
  }

  /** Removing the single `?name=value` parameter leaves no handled parameter behind. */
  lemma QueryResultClean(a: string, name: char, v: string, tail: string)
    requires IsHandledName(name) && IsValue(v) && IsTail(tail)
    requires OnlyHandledAt(a + ['?', name, '='] + v + tail, |a|)
    ensures var rest := if |tail| > 0 && tail[0] == '&' then tail[1..] else tail;
            Clean(a) && Clean(rest) && Clean(a + "?" + rest)
  {
    var url := a + ['?', name, '='] + v + tail;
    var off := |a| + 3 + |v|;
    assert url[off..] == tail;
    var rest := if |tail| > 0 && tail[0] == '&' then tail[1..] else tail;
    var skip := |tail| - |rest|;
    assert url[off + skip..] == rest;
    forall j | 0 <= j < |rest|
      ensures !HandledAt(rest, j)
    {
      assert !HandledAt(url, off + skip + j);
    }
    var result := a + "?" + rest;
    forall j | 0 <= j < |result|
      ensures !HandledAt(result, j)
    {
      if j > |a| {
        assert !HandledAt(url, j + 2 + |v| + skip);
      } else if j == |a| {
        if skip == 1 {
          assert !HandledAt(url, off);
        }
      } else if j + 3 <= |a| {
        assert !HandledAt(url, j);
      }
    }
    CleanPrefix(a, url);
  }

  /**
   The global replace resumes after the separator it swallowed, so of two `&c=`
   parameters in a row only the first is removed: `…&c=1&c=2` becomes `…&c=2`, which
   still holds a `c` parameter.
   */
  lemma AdjacentDuplicateSurvives(a: string, v: string, w: string)
    requires Clean(a) && IsValue(v) && IsValue(w) && Clean(w)
    ensures RemoveHandledParams(Some(a + "&c=" + v + "&c=" + w)) == a + "&c=" + w
    ensures !Clean(a + "&c=" + w)
  {
    var second := "&c=" + w;
    var url := a + "&c=" + v + "&c=" + w;
    assert url == a + (['&', 'c', '='] + v + second);
    var result := a + second;
    assert result == a + "&c=" + w;
    CleanAfterName(w);
    assert second[1..] == "c=" + w;
    DropAmpAbsentOfClean(second[1..], 'c');
    DropFirstAmp(a, 'c', v, second);
    assert HandledAt(result, |a|);
    SurvivorOnly(a, w);
    NoOtherName(result, |a|, 'p');
    forall j | 0 <= j < |result|
      ensures !QueryMatchAt(result, j, 'c')
    {
      if j != |a| {
        assert !HandledAt(result, j);
      }
    }
    DropQueryAbsent(result, 'c');
    DropAmpAbsent(result, 'p');
    DropQueryAbsent(result, 'p');
  }

  /** A handled name and `=` followed by a clean string hold no handled parameter. */
  lemma CleanAfterName(w: string)
    requires Clean(w)
    ensures Clean("c=" + w)
  {
    var s := "c=" + w;
    forall j | 0 <= j < |s|
      ensures !HandledAt(s, j)
    {
      if j >= 2 {
        assert s[j..] == w[j - 2..];
        assert !HandledAt(w, j - 2);
      }
    }
  }

  /** No `&name=` match starts inside a clean prefix, whatever follows an `&`. */
  lemma NoAmpMatchInClean(a: string, param: string, name: char)
    requires Clean(a) && IsHandledName(name)
    requires |param| > 0 && param[0] == '&'
    ensures forall j :: 0 <= j < |a| ==> !AmpMatchAt(a + param, j, name)
  {
    var url := a + param;
    forall j | 0 <= j < |a|
      ensures !AmpMatchAt(url, j, name)
    {
      if j + 3 <= |a| {
        assert !HandledAt(a, j);
        assert url[j..j + 3] == a[j..j + 3];
      }
    }
  }

  /**
   In a prefix free of handled parameters followed by `&name=value` and a separator, the
   `&name=` replacement keeps the prefix, drops the parameter and resumes after the separator.
   */
  lemma DropFirstAmp(a: string, name: char, v: string, t: string)
    requires Clean(a) && IsHandledName(name) && IsValue(v) && IsTail(t)
    requires |t| > 0 ==> DropAmpParam(t[1..], name) == t[1..]
    ensures DropAmpParam(a + (['&', name, '='] + v + t), name) == a + t
  {
    var param := ['&', name, '='] + v + t;
    NoAmpMatchInClean(a, param, name);
    DropAmpPrefix(a, param, name);
    DropAmpHere(name, v, t);
    if |t| > 0 {
      assert [t[0]] + t[1..] == t;
    }
  }

  /** In `a&c=w`, with `a` and `w` clean, the `&c=` is the only handled parameter. */
  lemma SurvivorOnly(a: string, w: string)
    requires Clean(a) && Clean(w)
    ensures OnlyHandledAt(a + "&c=" + w, |a|)
  {
    var result := a + "&c=" + w;
    forall j | 0 <= j < |result| && j != |a|
      ensures !HandledAt(result, j)
    {
      if j > |a| + 2 {
        assert !HandledAt(w, j - |a| - 3);
        assert result[j..] == w[j - |a| - 3..];
      } else if j + 3 <= |a| {
        assert !HandledAt(a, j);
        assert result[j..j + 3] == a[j..j + 3];
      }
    }
  }

  lemma DropAmpAbsentOfClean(s: string, name: char)
    requires IsHandledName(name) && Clean(s)
    ensures DropAmpParam(s, name) == s
  {
    forall j | 0 <= j < |s|
      ensures !AmpMatchAt(s, j, name)
    {
      assert !HandledAt(s, j);
    }
    DropAmpAbsent(s, name);
  }

  lemma DropQueryAbsentOfClean(s: string, name: char)
    requires IsHandledName(name) && Clean(s)
    ensures DropQueryParam(s, name) == s
  {
    forall j | 0 <= j < |s|
      ensures !QueryMatchAt(s, j, name)
    {
      assert !HandledAt(s, j);
    }
    DropQueryAbsent(s, name);
  }

  /** When the only handled parameter is at `at` and is not `other`, no `other` parameter occurs at all. */
  lemma NoOtherName(url: string, at: int, other: char)
    requires IsHandledName(other) && OnlyHandledAt(url, at)
    requires 0 <= at && at + 3 <= |url| && url[at + 1] != other
    ensures forall j :: 0 <= j < |url| ==> !AmpMatchAt(url, j, other) && !QueryMatchAt(url, j, other)
  {
    forall j | 0 <= j < |url|
      ensures !AmpMatchAt(url, j, other) && !QueryMatchAt(url, j, other)
    {
      if j != at {
        assert !HandledAt(url, j);
      }
    }
  }
}

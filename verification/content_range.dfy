/**
 `parseContentRange`: the pagination record the widget reads from a REST response's
 `Content-Range: <start>-<end>/<total>` header.
 */
module ContentRange {
  import opened JsValues
  import opened JsStrings
  import opened Paging

  /**
   `parseContentRange(header)`. A missing header (`null`) gives the empty record `{}`.
   Otherwise `total` is `parseInt` of the text after the first `/` (NaN when there is no
   `/`), and `currentPage` is `parseInt` of the text before the first `-` plus one, so a
   zero-based start becomes a one-based page number. Neither field is ever undefined then.
   */
  function ParseContentRange(header: Option<string>): (p: Pagination)
    ensures header.None? <==> p == Pagination(Undefined, Undefined)
    ensures header.Some? ==> !p.currentPage.Undefined? && !p.total.Undefined?
  {
    match header
    case None => Pagination(Undefined, Undefined)
    case Some(h) =>
      var parts := Split(h, '/');
      var bounds := Split(parts[0], '-');
      Pagination(
        currentPage := ParseInt(bounds[0]).Plus(1),
        total := if |parts| > 1 then ParseInt(parts[1]) else NaN)
  }

  /** The header a server sends for a range that starts at `first` and ends at `last`, of `total`. */
  function FormatContentRange(first: nat, last: nat, total: nat): string {
    DecimalString(first) + "-" + DecimalString(last) + "/" + DecimalString(total)
  }

  /**
   A well-formed header `s-e/t` whose start and total are digit strings with values
   `start` and `count` parses to `total = count` and `currentPage = start + 1`; the end
   index `e` is ignored.
   */
  lemma ParseWellFormed(h: string, first: string, last: string, total: string, start: nat, count: nat)
    requires |first| >= 1 && AllDigits(first) && DecimalValue(first) == start
    requires |total| >= 1 && AllDigits(total) && DecimalValue(total) == count
    requires '/' !in last
    requires h == first + "-" + last + "/" + total
    ensures ParseContentRange(Some(h)) == Pagination(Int(start + 1), Int(count))
  {
    SplitWellFormed(first, last, total);
    var p := ParseContentRange(Some(h));
    CurrentPageOf(h, first);
    TotalOf(h, total);
    assert p.currentPage == Int(start + 1) && p.total == Int(count);
    assert p == Pagination(p.currentPage, p.total);
  }

  lemma CurrentPageOf(h: string, first: string)
    requires |first| >= 1 && AllDigits(first)
    requires Split(Split(h, '/')[0], '-')[0] == first
    ensures ParseContentRange(Some(h)).currentPage == Int(DecimalValue(first) + 1)
  {
    ParseAllDigits(first);
  }

  lemma TotalOf(h: string, total: string)
    requires |total| >= 1 && AllDigits(total)
    requires |Split(h, '/')| == 2 && Split(h, '/')[1] == total
    ensures ParseContentRange(Some(h)).total == Int(DecimalValue(total))
  {
    ParseAllDigits(total);
  }

  /** A well-formed header splits into the start index, the end index and the total. */
  lemma SplitWellFormed(first: string, last: string, total: string)
    requires |first| >= 1 && AllDigits(first)
    requires AllDigits(total)
    requires '/' !in last
    ensures var parts := Split(first + "-" + last + "/" + total, '/');
            |parts| == 2 && parts[1] == total && Split(parts[0], '-')[0] == first
  {
    var range := first + ['-'] + last;
    var h := first + "-" + last + "/" + total;
    assert h == range + ['/'] + total;
    DigitsLackSeparator(first, '/');
    DigitsLackSeparator(first, '-');
    DigitsLackSeparator(total, '/');
    assert '/' !in range;
    SplitFirst(range, '/', total);
    SplitWhole(total, '/');
    SplitFirst(first, '-', last);
  }

  lemma DigitsLackSeparator(d: string, c: char)
    requires AllDigits(d) && !IsDigit(c)
    ensures c !in d
  {
    forall i | 0 <= i < |d|
      ensures d[i] != c
    {
      assert IsDigit(d[i]);
    }
  }

  /** A string without the separator splits into itself alone. */
  lemma SplitWhole(s: string, sep: char)
    requires sep !in s
    ensures Split(s, sep) == [s]
  {
    assert IndexOf(s, sep) == -1;
  }

  /** Parsing the header a server formats for a range that starts at `first` and ends at `last`, of `total`, gives back `total` and `first + 1`. */
  lemma FormatThenParse(first: nat, last: nat, total: nat)
    ensures ParseContentRange(Some(FormatContentRange(first, last, total)))
         == Pagination(Int(first + 1), Int(total))
  {
    var l := DecimalString(last);
    DigitsLackSeparator(l, '/');
    ParseWellFormed(FormatContentRange(first, last, total), DecimalString(first), l, DecimalString(total), first, total);
  }

}

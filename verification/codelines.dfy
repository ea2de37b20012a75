/**
 * Line numbers for rendered code blocks: the countdown-and-prepend loop of
 * `fillMdToElement` (scripts/loadresource.js) and the older line-number
 * column of `loadSuccess` (scripts/loadnotes.js). The markdown renderer
 * is not modelled: its output enters as the list of `code` elements it
 * produced. The highlighter enters as a function on markup.
 */
module CodeLines {
  import opened Options
  import opened Text

  /** A `code` element: the tag name of its parent (`None` without one) and its inner markup. */
  datatype CodeElement = CodeElement(parentTag: Option<string>, html: string)

  /** One `div.code-line`: a `span.line-number` showing `number`, then a span holding one line of markup. */
  datatype CodeLine = CodeLine(number: nat, content: string)

  /** A code element's content after `fillMdToElement`: its (highlighted) markup, or the rows replacing it. */
  datatype CodeBody = Markup(html: string) | Rows(lines: seq<CodeLine>)

  /** `toLowerCase` on the ASCII letters; tag names are ASCII. */
  function LowerAscii(s: string): (r: string)
    ensures |r| == |s|
    ensures forall i :: 0 <= i < |s| && 'A' <= s[i] <= 'Z' ==> r[i] == (s[i] as int + 32) as char
    ensures forall i :: 0 <= i < |s| && !('A' <= s[i] <= 'Z') ==> r[i] == s[i]
  {
    if |s| == 0 then ""
    else
      var c := if 'A' <= s[0] <= 'Z' then (s[0] as int + 32) as char else s[0];
      [c] + LowerAscii(s[1..])
  }

  /** `parentElement != null && parentElement.tagName.toLowerCase() === "pre"`. */
  predicate InPre(e: CodeElement)
  {
    e.parentTag.Some? && LowerAscii(e.parentTag.value) == "pre"
  }

  /** `tagName` is upper case in an HTML document, and either spelling of `pre` is recognised. */
  lemma InPreEitherCase(html: string)
    ensures InPre(CodeElement(Some("PRE"), html))
    ensures InPre(CodeElement(Some("pre"), html))
  {
  }

  /** The markup of every row, in row order. */
  function Contents(rows: seq<CodeLine>): (r: seq<string>)
    ensures |r| == |rows|
    ensures forall k :: 0 <= k < |rows| ==> r[k] == rows[k].content
  {
    seq(|rows|, k requires 0 <= k < |rows| => rows[k].content)
  }

  /**
   * The line-numbering loop: the block's markup is split on "\n", its
   * content cleared, then a do-while loop counts `i` down from the number
   * of segments to 1, prepending the row (i, segment i) each time. The
   * rows come out numbered 1..n in order, one per segment (at least one,
   * since the loop body runs before its test), and their contents joined
   * with "\n" give back the markup.
   */
  method NumberLines(html: string) returns (rows: seq<CodeLine>)
    ensures |rows| == |Split(html, '\n')| == Count(html, '\n') + 1
    ensures forall k :: 0 <= k < |rows| ==> rows[k].number == k + 1
    ensures forall k :: 0 <= k < |rows| ==> rows[k].content == Split(html, '\n')[k]
    ensures Join(Contents(rows), '\n') == html
  {
    var allLines := Split(html, '\n');
    rows := [];
    var i := |allLines|;
    var again := true;
    while again
      invariant 0 <= i <= |allLines|
      invariant again ==> i >= 1
      invariant !again ==> i == 0
      invariant |rows| == |allLines| - i
      invariant forall k :: 0 <= k < |rows| ==> rows[k] == CodeLine(i + 1 + k, allLines[i + k])
      decreases i
    {
      rows := [CodeLine(i, allLines[i - 1])] + rows;
      i := i - 1;
      again := i >= 1;
    }
    assert Contents(rows) == allLines;
    JoinSplit(html, '\n');
    SplitCount(html, '\n');
  }

  /**
   * `body` holds the numbered lines of `html`: line `j` is row `j + 1`,
   * and joining the rows back gives `html`.
   */
  predicate NumberedRows(body: CodeBody, html: string)
  {
    && body.Rows?
    && |body.lines| == |Split(html, '\n')|
    && (forall j :: 0 <= j < |body.lines| ==> body.lines[j] == CodeLine(j + 1, Split(html, '\n')[j]))
    && Join(Contents(body.lines), '\n') == html
  }

  /**
   * The `forEach` over the rendered `code` elements: each is highlighted;
   * those directly inside a `pre` then have their markup replaced by
   * numbered rows, the others keep the highlighted markup.
   */
  method FillCode(codes: seq<CodeElement>, highlight: string -> string) returns (bodies: seq<CodeBody>)
    ensures |bodies| == |codes|
    ensures forall k :: 0 <= k < |codes| && !InPre(codes[k]) ==> bodies[k] == Markup(highlight(codes[k].html))
    ensures forall k :: 0 <= k < |codes| && InPre(codes[k]) ==> NumberedRows(bodies[k], highlight(codes[k].html))
  {
    bodies := [];
    var k := 0;
    while k < |codes|
      invariant 0 <= k <= |codes|
      invariant |bodies| == k
      invariant forall m :: 0 <= m < k && !InPre(codes[m]) ==> bodies[m] == Markup(highlight(codes[m].html))
      invariant forall m :: 0 <= m < k && InPre(codes[m]) ==> NumberedRows(bodies[m], highlight(codes[m].html))
    {
      var html := highlight(codes[k].html);
      if InPre(codes[k]) {
        var rows := NumberLines(html);
        assert NumberedRows(Rows(rows), html);
        bodies := bodies + [Rows(rows)];
      } else {
        bodies := bodies + [Markup(html)];
      }
      k := k + 1;
    }
  }

  // ---------------------------------------------------------------------
  // The older variant of scripts/loadnotes.js

  /** An empty `span.line-number`; the numbers themselves come from the stylesheet. */
  datatype LineNumberSpan = LineNumberSpan

  /** A code element after `loadSuccess`: a `span.line-number-rows` put first, if any, then its markup. */
  datatype NumberedBlock = NumberedBlock(numberColumn: Option<seq<LineNumberSpan>>, html: string)

  /** The `for (let i = 1; i <= line_count; i++)` loop: one span per line. */
  method LineNumberColumn(lineCount: nat) returns (spans: seq<LineNumberSpan>)
    ensures |spans| == lineCount
  {
    spans := [];
    var i := 1;
    while i <= lineCount
      invariant 1 <= i <= lineCount + 1
      invariant |spans| == i - 1
    {
      spans := spans + [LineNumberSpan];
      i := i + 1;
    }
  }

  /**
   * One code element under `loadSuccess`: it is highlighted, and when its
   * parent is a `pre` it gets a column with one span per "\n"-separated
   * line, put before its markup, which stays as it was.
   */
  method NumberBlock(e: CodeElement, highlight: string -> string) returns (b: NumberedBlock)
    ensures b.html == highlight(e.html)
    ensures b.numberColumn.Some? <==> InPre(e)
    ensures b.numberColumn.Some? ==> |b.numberColumn.value| == |Split(highlight(e.html), '\n')|
    ensures b.numberColumn.Some? ==> |b.numberColumn.value| == Count(highlight(e.html), '\n') + 1
  {
    var html := highlight(e.html);
    if InPre(e) {
      var lineCount := |Split(html, '\n')|;
      var spans := LineNumberColumn(lineCount);
      SplitCount(html, '\n');
      b := NumberedBlock(Some(spans), html);
    } else {
      b := NumberedBlock(None, html);
    }
  }
}

/**
 appendCompletionCertificate of server/pdf.ts: where the boxes and texts of the completion
 certificate are placed. Positions are exact numbers, counted upwards from the foot of a page.
 */
module Certificate {
  import opened Wrappers
  import Text
  import WrapText

  const PAGE_WIDTH: real := 595.28
  const PAGE_HEIGHT: real := 841.89
  const MARGIN: real := 50.0
  const BOTTOM_MARGIN: real := 60.0
  const CONTENT_WIDTH: real := PAGE_WIDTH - MARGIN - MARGIN
  const PAGE_TOP: real := PAGE_HEIGHT - 60.0

  const BOX_PADDING: real := 12.0
  const LINE_SPACING: real := 16.0
  const HEADER_BAR: real := 20.0
  const UA_LINE_HEIGHT: real := 11.0

  /** A signer's box with the baselines of its texts, from the top down. */
  datatype Box = Box(page: nat, top: real, bottom: real, baselines: seq<real>)

  /** A text or rule outside the boxes. */
  datatype Mark = Mark(page: nat, y: real)

  datatype Drawing = Drawing(header: seq<Mark>, boxes: seq<Box>, footer: seq<Mark>)

  function BoxHeight(uaLines: nat): real {
    HEADER_BAR + 4.0 * LINE_SPACING + uaLines as real * UA_LINE_HEIGHT + 4.0 + BOX_PADDING * 2.0
  }

  // ----- what a good layout is -----

  /** The later of two boxes on a page is at least ten points below the earlier one, and pages are used in order. */
  predicate Apart(boxes: seq<Box>) {
    forall i, j | 0 <= i < j < |boxes| ::
      && boxes[i].page <= boxes[j].page
      && (boxes[i].page == boxes[j].page ==> boxes[j].top <= boxes[i].bottom - 10.0)
  }

  predicate AllBelow(ys: seq<real>, n: nat, y: real)
    requires n <= |ys|
  {
    forall k | 0 <= k < n :: ys[k] > y
  }

  /** From the top down, with room for a line of ten points between any two. */
  predicate Descending(ys: seq<real>) { forall i, j | 0 <= i < j < |ys| :: ys[i] >= ys[j] + 11.0 }

  /** A box has its height, one baseline for each of its texts, from the top down, and all inside it. */
  predicate WellDrawn(b: Box, uaLines: nat) {
    && b.top - b.bottom == BoxHeight(uaLines)
    && |b.baselines| == 5 + uaLines
    && Descending(b.baselines)
    && forall k | 0 <= k < |b.baselines| :: b.bottom + 24.0 <= b.baselines[k] <= b.top - 15.0
  }

  /** A box keeps above the bottom margin exactly when its user agent takes at most 55 lines. */
  predicate BetweenMarginsIff(b: Box, uaLines: nat) {
    b.top <= PAGE_HEIGHT - 55.0 && (b.bottom >= BOTTOM_MARGIN <==> uaLines <= 55)
  }

  /** A box follows the one before on its page if it fits there with 20 points to spare, and starts the next page otherwise. */
  predicate Follows(a: Box, b: Box, uaLines: nat) {
    var y := a.bottom - 15.0;
    if y - (BoxHeight(uaLines) + 20.0) < BOTTOM_MARGIN then b.page == a.page + 1 && b.top == PAGE_TOP + 5.0
    else b.page == a.page && b.top == y + 5.0
  }

  predicate BoxesGood(boxes: seq<Box>, uaLines: seq<nat>) {
    && |boxes| <= |uaLines|
    && Apart(boxes)
    && (forall k | 0 <= k < |boxes| :: WellDrawn(boxes[k], uaLines[k]) && BetweenMarginsIff(boxes[k], uaLines[k]))
    && forall k | 0 < k < |boxes| :: Follows(boxes[k - 1], boxes[k], uaLines[k])
  }

  /** No box is on a later page, and those on this page are at least so far above. */
  predicate BoxesAbove(boxes: seq<Box>, page: nat, y: real) {
    forall k | 0 <= k < |boxes| :: boxes[k].page <= page && (boxes[k].page == page ==> boxes[k].bottom >= y)
  }

  predicate MarksAbove(marks: seq<Mark>, page: nat, y: real) {
    forall k | 0 <= k < |marks| :: marks[k].page <= page && (marks[k].page == page ==> marks[k].y >= y)
  }

  // ----- drawing -----

  method EnsureSpace(page: nat, yPos: real, needed: real) returns (page': nat, yPos': real)
    ensures if yPos - needed < BOTTOM_MARGIN then page' == page + 1 && yPos' == PAGE_TOP else page' == page && yPos' == yPos
  {
    if yPos - needed < BOTTOM_MARGIN { return page + 1, PAGE_TOP; }
    return page, yPos;
  }

  /** The texts of one box. */
  method DrawTexts(boxTop: real, uaLines: nat) returns (baselines: seq<real>)
    ensures WellDrawn(Box(0, boxTop, boxTop - BoxHeight(uaLines), baselines), uaLines)
  {
    var textY := boxTop - HEADER_BAR + 5.0;
    baselines := [textY];
    textY := textY - (HEADER_BAR + 2.0);
    baselines := baselines + [textY];
    textY := textY - LINE_SPACING;
    baselines := baselines + [textY];
    textY := textY - LINE_SPACING;
    baselines := baselines + [textY];
    textY := textY - LINE_SPACING;
    baselines := baselines + [textY];
    textY := textY - 14.0;
    var u := 0;
    while u < uaLines
      invariant u <= uaLines && |baselines| == 5 + u
      invariant textY == boxTop - 99.0 - u as real * UA_LINE_HEIGHT
      invariant Descending(baselines) && AllBelow(baselines, |baselines|, textY)
      invariant forall k | 0 <= k < |baselines| :: textY + UA_LINE_HEIGHT <= baselines[k] <= boxTop - 15.0
    {
      baselines := baselines + [textY];
      textY := textY - UA_LINE_HEIGHT;
      u := u + 1;
    }
  }

  /** One box, on this page or on a new one. */
  method DrawBox(page: nat, yPos: real, uaLines: nat) returns (b: Box)
    requires yPos <= PAGE_TOP
    ensures WellDrawn(b, uaLines) && BetweenMarginsIff(b, uaLines)
    ensures if yPos - (BoxHeight(uaLines) + 20.0) < BOTTOM_MARGIN then b.page == page + 1 && b.top == PAGE_TOP + 5.0
            else b.page == page && b.top == yPos + 5.0
  {
    var height := BoxHeight(uaLines);
    var page', yPos' := EnsureSpace(page, yPos, height + 20.0);
    var boxTop := yPos' + 5.0;
    var boxBottom := boxTop - height;
    var baselines := DrawTexts(boxTop, uaLines);
    b := Box(page', boxTop, boxBottom, baselines);
  }

  lemma OneMoreApart(boxes: seq<Box>, b: Box)
    requires Apart(boxes) && BoxesAbove(boxes, b.page, b.top + 10.0)
    ensures Apart(boxes + [b])
  {
  }

  /** Adding a box below all others of its page, or on a new page. */
  lemma OneMoreBox(boxes: seq<Box>, uaLines: seq<nat>, b: Box)
    requires |boxes| < |uaLines| && BoxesGood(boxes, uaLines)
    requires BoxesAbove(boxes, b.page, b.top + 10.0)
    requires WellDrawn(b, uaLines[|boxes|]) && BetweenMarginsIff(b, uaLines[|boxes|])
    requires boxes != [] ==> Follows(boxes[|boxes| - 1], b, uaLines[|boxes|])
    ensures BoxesGood(boxes + [b], uaLines)
  {
    OneMoreApart(boxes, b);
    var more := boxes + [b];
    forall k | 0 <= k < |more|
      ensures WellDrawn(more[k], uaLines[k]) && BetweenMarginsIff(more[k], uaLines[k])
    {
      if k < |boxes| { assert more[k] == boxes[k]; }
    }
    forall k | 0 < k < |more|
      ensures Follows(more[k - 1], more[k], uaLines[k])
    {
      assert more[k - 1] == boxes[k - 1];
      if k < |boxes| { assert more[k] == boxes[k]; }
    }
  }

  lemma OneMoreAbove(boxes: seq<Box>, b: Box)
    requires BoxesAbove(boxes, b.page, b.top + 10.0) && b.bottom <= b.top
    ensures BoxesAbove(boxes + [b], b.page, b.bottom)
  {
  }

  method DrawHeader(titleLines: nat) returns (header: seq<Mark>, yPos: real)
    requires titleLines >= 1
    ensures MarksAbove(header, 0, yPos + 20.0)
    ensures yPos <= PAGE_TOP && (forall k | 0 <= k < |header| :: header[k].page == 0 && header[k].y <= PAGE_TOP)
    ensures (forall k | 0 <= k < |header| :: header[k].y >= BOTTOM_MARGIN) <==> titleLines <= 43
  {
    yPos := PAGE_TOP;
    header := [Mark(0, yPos)];
    yPos := yPos - 8.0;
    header := header + [Mark(0, yPos)];
    yPos := yPos - 30.0;
    header := header + [Mark(0, yPos)];
    var i := 0;
    while i < titleLines
      invariant i <= titleLines && |header| == 3 + i
      invariant forall k | 0 <= k < |header| :: header[k].page == 0 && yPos - 14.0 * (titleLines as real - 1.0) <= header[k].y <= PAGE_TOP
    {
      header := header + [Mark(0, yPos - i as real * 14.0)];
      i := i + 1;
    }
    yPos := yPos - (20.0 + (titleLines as real - 1.0) * 14.0);
    header := header + [Mark(0, yPos)];
    yPos := yPos - 20.0;
    header := header + [Mark(0, yPos)];
    yPos := yPos - 14.0;
    header := header + [Mark(0, yPos)];
    yPos := yPos - 28.0;
    header := header + [Mark(0, yPos)];
    yPos := yPos - 5.0;
    header := header + [Mark(0, yPos)];
    assert header[|header| - 1].y == yPos;
    yPos := yPos - 20.0;
  }

  method DrawFooter(page: nat, yPos: real) returns (footer: seq<Mark>)
    ensures var (p, y) := if yPos - 60.0 < BOTTOM_MARGIN then (page + 1, PAGE_TOP) else (page, yPos);
            footer == [Mark(p, y - 10.0), Mark(p, y - 28.0), Mark(p, y - 42.0), Mark(p, y - 56.0)]
  {
    var p, y := EnsureSpace(page, yPos, 60.0);
    y := y - 10.0;
    footer := [Mark(p, y)];
    y := y - 18.0;
    footer := footer + [Mark(p, y)];
    y := y - 14.0;
    footer := footer + [Mark(p, y)];
    y := y - 14.0;
    footer := footer + [Mark(p, y)];
  }

  /** The boxes on the first page start below y. */
  predicate StartBelow(boxes: seq<Box>, y: real) {
    forall k | 0 <= k < |boxes| && boxes[k].page == 0 :: boxes[k].top <= y
  }

  method DrawBoxes(start: real, uaLines: seq<nat>) returns (boxes: seq<Box>, page: nat, yPos: real)
    requires start <= PAGE_TOP
    ensures |boxes| == |uaLines| && BoxesGood(boxes, uaLines) && StartBelow(boxes, start + 5.0)
    ensures BoxesAbove(boxes, page, yPos + 15.0)
  {
    page, boxes, yPos := 0, [], start;
    var i := 0;
    while i < |uaLines|
      invariant i <= |uaLines| && |boxes| == i && BoxesGood(boxes, uaLines)
      invariant yPos <= PAGE_TOP && BoxesAbove(boxes, page, yPos + 15.0)
      invariant (page == 0 ==> yPos <= start) && StartBelow(boxes, start + 5.0)
      invariant i > 0 ==> page == boxes[i - 1].page && yPos == boxes[i - 1].bottom - 15.0
    {
      var b := DrawBox(page, yPos, uaLines[i]);
      OneMoreBox(boxes, uaLines, b);
      OneMoreAbove(boxes, b);
      boxes, page, yPos := boxes + [b], b.page, b.bottom - 15.0;
      i := i + 1;
    }
  }

  /** The header lies above every box of the first page; it keeps above the bottom margin exactly with up to 43 title lines. */
  predicate HeaderGood(d: Drawing, titleLines: nat) {
    && ((forall k | 0 <= k < |d.header| :: d.header[k].y >= BOTTOM_MARGIN) <==> titleLines <= 43)
    && forall i | 0 <= i < |d.header| :: d.header[i].page == 0 && StartBelow(d.boxes, d.header[i].y - 15.0)
  }

  /** The footer lies above the bottom margin and below every box of its page. */
  predicate FooterGood(d: Drawing) {
    && |d.footer| == 4
    && forall k | 0 <= k < 4 :: d.footer[k].y >= BOTTOM_MARGIN + 4.0 && BoxesAbove(d.boxes, d.footer[k].page, d.footer[k].y + 25.0)
  }

  lemma StartLower(boxes: seq<Box>, low: real, high: real)
    requires StartBelow(boxes, low) && low <= high
    ensures StartBelow(boxes, high)
  {
  }

  lemma AboveLower(boxes: seq<Box>, page: nat, y: real, page': nat, y': real)
    requires BoxesAbove(boxes, page, y) && (page' > page || (page' == page && y' <= y))
    ensures BoxesAbove(boxes, page', y')
  {
  }

  /**
   For any number of signers: boxes on one page do not overlap, a page is left only when the next
   box does not fit, every text lies inside its box, a box stays above the bottom margin exactly
   when its user agent takes at most 55 lines, the boxes stay below the header, and the footer is
   below all boxes of its page and always above the bottom margin.
   */
  method LayOut(titleLines: nat, uaLines: seq<nat>) returns (d: Drawing)
    requires titleLines >= 1
    ensures |d.boxes| == |uaLines| && BoxesGood(d.boxes, uaLines) && HeaderGood(d, titleLines) && FooterGood(d)
  {
    var header, start := DrawHeader(titleLines);
    var boxes, page, yPos := DrawBoxes(start, uaLines);
    var footer := DrawFooter(page, yPos);
    d := Drawing(header, boxes, footer);
    forall i | 0 <= i < |header| ensures StartBelow(boxes, header[i].y - 15.0) {
      StartLower(boxes, start + 5.0, header[i].y - 15.0);
    }
    forall k | 0 <= k < 4 ensures BoxesAbove(boxes, footer[k].page, footer[k].y + 25.0) {
      AboveLower(boxes, page, yPos + 15.0, footer[k].page, footer[k].y + 25.0);
    }
  }

  // ----- the texts that are wrapped -----

  function UserAgentText(userAgent: Option<string>): string {
    var ua := if userAgent.None? || userAgent.value == "" then "N/A"
              else if |userAgent.value| > 120 then userAgent.value[..117] + "..."
              else userAgent.value;
    "UA: " + ua
  }

  /** A user agent is shown whole up to 120 characters, and cut to 117 and three dots beyond. */
  lemma UserAgentShown(ua: string)
    ensures UserAgentText(None) == UserAgentText(Some("")) == "UA: N/A"
    ensures 0 < |ua| <= 120 ==> UserAgentText(Some(ua)) == "UA: " + ua
    ensures |ua| > 120 ==> var s := UserAgentText(Some(ua)); |s| == 124 && s[..121] == "UA: " + ua[..117] && s[121..] == "..."
  {
    if |ua| > 120 { assert UserAgentText(Some(ua)) == ("UA: " + ua[..117]) + "..."; }
  }

  /** How many lines wrapText makes of a text. */
  function LineCount(text: string, width: WrapText.Width, max: real): nat {
    |WrapText.AllLines(Text.Split(text, '\n'), |Text.Split(text, '\n')|, width, max)|
  }

  function LineCounts(userAgents: seq<Option<string>>, width: WrapText.Width): (r: seq<nat>)
    ensures |r| == |userAgents|
    ensures forall i | 0 <= i < |userAgents| :: r[i] == LineCount(UserAgentText(userAgents[i]), width, CONTENT_WIDTH - 24.0)
  {
    seq(|userAgents|, i requires 0 <= i < |userAgents| => LineCount(UserAgentText(userAgents[i]), width, CONTENT_WIDTH - 24.0))
  }

  /** No text is wider than ten points a character, as in the eight points that user agents are set in. */
  ghost predicate Narrow(width: WrapText.Width) { forall s: string :: NarrowText(s, width) }

  predicate NarrowText(s: string, width: WrapText.Width) { width(s) <= 10.0 * |s| as real }

  /** The value of an HTTP header: there is no line feed in it. */
  predicate OneLine(userAgent: Option<string>) { userAgent.Some? ==> '\n' !in userAgent.value }

  lemma NarrowShortFits(width: WrapText.Width)
    requires Narrow(width)
    ensures WrapText.ShortFits(47, width, CONTENT_WIDTH - 24.0)
  {
    var max := CONTENT_WIDTH - 24.0;
    forall s: string ensures WrapText.FitsIfShort(s, 47, width, max) { assert NarrowText(s, width); }
  }

  lemma UserAgentTextShort(userAgent: Option<string>)
    requires OneLine(userAgent)
    ensures |UserAgentText(userAgent)| <= 124 && '\n' !in UserAgentText(userAgent)
  {
  }

  lemma CountOfOneLine(text: string, width: WrapText.Width, max: real)
    requires '\n' !in text
    ensures LineCount(text, width, max) == |WrapText.ParagraphLines(text, width, max)|
  {
    var paras := [text];
    assert WrapText.AllLines(paras, 1, width, max) == WrapText.AllLines(paras, 0, width, max) + WrapText.ParagraphLines(paras[0], width, max);
  }

  /** Since a user agent is cut to 120 characters, it takes at most six lines. */
  lemma UserAgentTakesFewLines(userAgent: Option<string>, width: WrapText.Width)
    requires Narrow(width) && OneLine(userAgent)
    ensures LineCount(UserAgentText(userAgent), width, CONTENT_WIDTH - 24.0) <= 6
  {
    var text := UserAgentText(userAgent);
    UserAgentTextShort(userAgent);
    NarrowShortFits(width);
    CountOfOneLine(text, width, CONTENT_WIDTH - 24.0);
    WrapText.ParagraphIsShort(text, width, CONTENT_WIDTH - 24.0, 47);
  }

  predicate BetweenMargins(boxes: seq<Box>) {
    forall k | 0 <= k < |boxes| :: BOTTOM_MARGIN <= boxes[k].bottom && boxes[k].top <= PAGE_HEIGHT - 55.0
  }

  lemma BoxesBetweenMargins(boxes: seq<Box>, userAgents: seq<Option<string>>, width: WrapText.Width)
    requires |boxes| == |userAgents| && BoxesGood(boxes, LineCounts(userAgents, width))
    requires Narrow(width) && forall i | 0 <= i < |userAgents| :: OneLine(userAgents[i])
    ensures BetweenMargins(boxes)
  {
    forall k | 0 <= k < |boxes|
      ensures BOTTOM_MARGIN <= boxes[k].bottom && boxes[k].top <= PAGE_HEIGHT - 55.0
    {
      UserAgentTakesFewLines(userAgents[k], width);
      assert BetweenMarginsIff(boxes[k], LineCounts(userAgents, width)[k]);
    }
  }

  /** Every part of a title between line feeds takes a line. */
  lemma TitleTakesItsLines(title: string, width: WrapText.Width, max: real)
    ensures LineCount(title, width, max) >= |Text.Split(title, '\n')|
  {
  }

  lemma {:induction false} JoinLength(parts: seq<string>)
    requires parts != [] && forall k | 0 <= k < |parts| :: |parts[k]| == 1
    ensures |Text.Join(parts, "\n")| == 2 * |parts| - 1
  {
    if |parts| > 1 { JoinLength(parts[1..]); }
  }

  /** For instance, a title of 44 letters on lines of their own is short enough and takes too many lines. */
  lemma ManyShortLines(width: WrapText.Width, max: real)
    ensures var title := Text.Join(seq(44, i => "x"), "\n");
            |title| <= 500 && LineCount(title, width, max) > 43
  {
    var parts := seq(44, i => "x");
    JoinLength(parts);
    Text.SplitJoin(parts, '\n');
    TitleTakesItsLines(Text.Join(parts, "\n"), width, max);
  }

  method CountLines(text: string, width: WrapText.Width, max: real) returns (n: nat)
    ensures n == LineCount(text, width, max) && n >= 1
  {
    var lines := WrapText.Wrap(text, width, max);
    n := |lines|;
  }

  method CountUserAgentLines(userAgents: seq<Option<string>>, width: WrapText.Width) returns (counts: seq<nat>)
    ensures counts == LineCounts(userAgents, width)
  {
    counts := [];
    var i := 0;
    while i < |userAgents|
      invariant i <= |userAgents| && |counts| == i
      invariant forall k | 0 <= k < i :: counts[k] == LineCounts(userAgents, width)[k]
    {
      var n := CountLines(UserAgentText(userAgents[i]), width, CONTENT_WIDTH - 24.0);
      counts := counts + [n];
      i := i + 1;
    }
  }

  /**
   The certificate of a document, with its title and the signers' user agents wrapped. Whatever the
   user agents, every box lies between the margins, if texts are no wider than ten points a character.
   */
  method AppendCertificate(title: string, userAgents: seq<Option<string>>, titleWidth: WrapText.Width, uaWidth: WrapText.Width) returns (d: Drawing)
    ensures |d.boxes| == |userAgents| && BoxesGood(d.boxes, LineCounts(userAgents, uaWidth))
    ensures HeaderGood(d, LineCount(title, titleWidth, CONTENT_WIDTH - 120.0)) && FooterGood(d)
    ensures Narrow(uaWidth) && (forall i | 0 <= i < |userAgents| :: OneLine(userAgents[i])) ==> BetweenMargins(d.boxes)
  {
    var titleLines := CountLines(title, titleWidth, CONTENT_WIDTH - 120.0);
    var uaLines := CountUserAgentLines(userAgents, uaWidth);
    d := LayOut(titleLines, uaLines);
    if Narrow(uaWidth) && forall i | 0 <= i < |userAgents| :: OneLine(userAgents[i]) {
      BoxesBetweenMargins(d.boxes, userAgents, uaWidth);
    }
  }
}

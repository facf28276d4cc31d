/** wrapText of server/pdf.ts: greedy line wrapping, and why no layout of the words has fewer lines. */
module WrapText {
  import opened Text
  import opened TextRuns

  type Width = string -> real

  // ----- the words of a paragraph -----

  function FirstSpace(s: string): (k: nat)
    ensures k <= |s| && NoSpace(s[..k]) && (k < |s| ==> IsSpace(s[k]))
  {
    if s == "" || IsSpace(s[0]) then 0
    else
      var k := FirstSpace(s[1..]);
      assert s[..k + 1] == [s[0]] + s[1..][..k];
      k + 1
  }

  /** split(/\s+/) */
  function Words(s: string): (r: seq<string>)
    ensures r != []
    decreases |s|
  {
    var k := FirstSpace(s);
    if k == |s| then [s]
    else
      var rest := TrimStart(s[k..]);
      TrimStartShorter(s[k..]);
      [s[..k]] + Words(rest)
  }

  lemma {:induction false} TrimStartShorter(s: string)
    ensures |TrimStart(s)| <= |s|
    ensures s != "" && IsSpace(s[0]) ==> |TrimStart(s)| < |s|
  {
    if s != "" && IsSpace(s[0]) { TrimStartShorter(s[1..]); }
  }

  /** No word holds white space, and only the first and the last can be empty. */
  lemma {:induction false} WordsShape(s: string)
    ensures forall i | 0 <= i < |Words(s)| :: NoSpace(Words(s)[i])
    ensures forall i | 0 < i < |Words(s)| - 1 :: Words(s)[i] != ""
    ensures s == "" || !IsSpace(s[0]) ==> Words(s)[0] != "" || |Words(s)| == 1
    decreases |s|
  {
    var k := FirstSpace(s);
    if k == |s| {
      assert s[..k] == s;
    } else {
      TrimStartShorter(s[k..]);
      WordsShape(TrimStart(s[k..]));
      assert Words(s) == [s[..k]] + Words(TrimStart(s[k..]));
    }
  }

  predicate Blank(s: string) { Trim(s) == "" }

  lemma {:induction false} NonEmptyWord(s: string) returns (i: nat)
    requires TrimStart(s) != ""
    ensures i < |Words(s)| && Words(s)[i] != ""
    decreases |s|
  {
    var k := FirstSpace(s);
    i := 0;
    if k == 0 {
      TrimStartShorter(s);
      i := NonEmptyWord(TrimStart(s));
      assert s[0..] == s && Words(s) == [s[..0]] + Words(TrimStart(s));
      i := i + 1;
    }
  }

  /** Where the non-empty words begin and end: only the first and the last word can be empty. */
  function From(ws: seq<string>): nat
    requires ws != []
  {
    if ws[0] == "" then 1 else 0
  }

  function To(ws: seq<string>): nat
    requires ws != []
  {
    if ws[|ws| - 1] == "" then |ws| - 1 else |ws|
  }

  lemma NonBlankHasWords(para: string)
    requires !Blank(para)
    ensures var ws := Words(para); From(ws) < To(ws) <= |ws| && forall i | From(ws) <= i < To(ws) :: ws[i] != ""
  {
    var i := NonEmptyWord(para);
    WordsShape(para);
  }

  // ----- layouts -----

  /** The line that holds words i to j. */
  function Line(ws: seq<string>, i: nat, j: nat): string
    requires i <= j <= |ws|
    decreases j
  {
    if i == j then "" else if i + 1 == j then ws[i] else Line(ws, i, j - 1) + " " + ws[j - 1]
  }

  /** It is the words with a space between them. */
  lemma {:induction false} LineIsJoin(ws: seq<string>, i: nat, j: nat)
    requires i <= j <= |ws|
    ensures Line(ws, i, j) == Join(ws[i..j], " ")
    decreases j
  {
    if i + 1 < j {
      var front := ws[i..j - 1];
      assert Line(ws, i, j - 1) == Join(front, " ") by { LineIsJoin(ws, i, j - 1); }
      assert ws[i..j] == front + [ws[j - 1]];
      JoinAppend(front, ws[j - 1], " ");
    } else if i + 1 == j {
      assert ws[i..j] == [ws[i]];
    }
  }

  predicate Fits(ws: seq<string>, i: nat, j: nat, width: Width, max: real)
    requires i <= j <= |ws|
  {
    j == i + 1 || width(Line(ws, i, j)) <= max
  }

  /** A line is given by where it ends; the lines together hold words i to end, each fitting or being one word. */
  predicate Layout(ws: seq<string>, i: nat, end: nat, ends: seq<nat>, width: Width, max: real)
    requires i <= end <= |ws|
    decreases ends
  {
    if ends == [] then i == end
    else i < ends[0] <= end && Fits(ws, i, ends[0], width, max) && Layout(ws, ends[0], end, ends[1..], width, max)
  }

  function Lines(ws: seq<string>, i: nat, end: nat, ends: seq<nat>, width: Width, max: real): seq<string>
    requires i <= end <= |ws| && Layout(ws, i, end, ends, width, max)
    decreases ends
  {
    if ends == [] then []
    else [Line(ws, i, ends[0])] + Lines(ws, ends[0], end, ends[1..], width, max)
  }

  /** How far a line that starts at word i and holds the words up to j can be extended. */
  function Extend(ws: seq<string>, i: nat, j: nat, end: nat, width: Width, max: real): (k: nat)
    requires i < j <= end <= |ws| && Fits(ws, i, j, width, max)
    ensures j <= k <= end && Fits(ws, i, k, width, max)
    ensures k < end ==> width(Line(ws, i, k + 1)) > max
    decreases end - j
  {
    if j < end && width(Line(ws, i, j + 1)) <= max then Extend(ws, i, j + 1, end, width, max) else j
  }

  function Greedy(ws: seq<string>, i: nat, end: nat, width: Width, max: real): (ends: seq<nat>)
    requires i <= end <= |ws|
    ensures Layout(ws, i, end, ends, width, max)
    decreases end - i
  {
    if i == end then []
    else
      var j := Extend(ws, i, i + 1, end, width, max);
      [j] + Greedy(ws, j, end, width, max)
  }

  function GreedyLines(ws: seq<string>, i: nat, end: nat, width: Width, max: real): seq<string>
    requires i <= end <= |ws|
  {
    Lines(ws, i, end, Greedy(ws, i, end, width, max), width, max)
  }

  // ----- greedy is optimal -----

  /** No stretch of words is wider than a longer one around it. */
  ghost predicate Monotone(ws: seq<string>, width: Width) {
    forall a, b, c, d {:trigger Line(ws, a, d), Line(ws, b, c)} | 0 <= a <= b < c <= d <= |ws| ::
      width(Line(ws, b, c)) <= width(Line(ws, a, d))
  }

  lemma {:induction false} ExtendReaches(ws: seq<string>, i: nat, j: nat, m: nat, end: nat, width: Width, max: real)
    requires i < j <= m <= end <= |ws| && Fits(ws, i, j, width, max)
    requires Monotone(ws, width) && (m == j || width(Line(ws, i, m)) <= max)
    ensures Extend(ws, i, j, end, width, max) >= m
    decreases m - j
  {
    if j < m {
      assert width(Line(ws, i, j + 1)) <= width(Line(ws, i, m));
      ExtendReaches(ws, i, j + 1, m, end, width, max);
    }
  }

  /** The first line of a layout that starts no later ends no later. */
  lemma GreedyAhead(ws: seq<string>, p: nat, e: nat, i: nat, end: nat, width: Width, max: real)
    requires p <= i < end <= |ws| && p < e <= end && Fits(ws, p, e, width, max) && Monotone(ws, width)
    ensures e <= Extend(ws, i, i + 1, end, width, max)
  {
    if i + 1 < e {
      assert width(Line(ws, i, e)) <= width(Line(ws, p, e));
      ExtendReaches(ws, i, i + 1, e, end, width, max);
    }
  }

  lemma {:induction false} GreedyStaysAhead(ws: seq<string>, p: nat, i: nat, end: nat, ends: seq<nat>, width: Width, max: real)
    requires p <= i <= end <= |ws| && Monotone(ws, width) && Layout(ws, p, end, ends, width, max)
    ensures |Greedy(ws, i, end, width, max)| <= |ends|
    decreases |ends|
  {
    if i < end {
      GreedyAhead(ws, p, ends[0], i, end, width, max);
      var j := Extend(ws, i, i + 1, end, width, max);
      GreedyStaysAhead(ws, ends[0], j, end, ends[1..], width, max);
    }
  }

  /** No layout of the same words has fewer lines. */
  lemma GreedyIsOptimal(ws: seq<string>, i: nat, end: nat, ends: seq<nat>, width: Width, max: real)
    requires i <= end <= |ws| && Monotone(ws, width) && Layout(ws, i, end, ends, width, max)
    ensures |Greedy(ws, i, end, width, max)| <= |ends|
  {
    GreedyStaysAhead(ws, i, i, end, ends, width, max);
  }

  lemma {:induction false} LineSplits(ws: seq<string>, i: nat, j: nat, k: nat)
    requires i < j < k <= |ws|
    ensures Line(ws, i, k) == Line(ws, i, j) + " " + Line(ws, j, k)
    decreases k
  {
    if j + 1 < k {
      LineSplits(ws, i, j, k - 1);
      Regroup(Line(ws, i, j), Line(ws, j, k - 1), ws[k - 1]);
    }
  }

  lemma Regroup(a: string, b: string, c: string)
    ensures (a + " " + b) + " " + c == a + " " + (b + " " + c)
  {
  }

  /** The lines of any layout, with a space between them, are the words with a space between them. */
  lemma {:induction false} LinesKeepWords(ws: seq<string>, i: nat, end: nat, ends: seq<nat>, width: Width, max: real)
    requires i < end <= |ws| && Layout(ws, i, end, ends, width, max)
    ensures |Lines(ws, i, end, ends, width, max)| == |ends|
    ensures Join(Lines(ws, i, end, ends, width, max), " ") == Line(ws, i, end)
    decreases |ends|
  {
    var j, rest := ends[0], ends[1..];
    var tail := Lines(ws, j, end, rest, width, max);
    assert Lines(ws, i, end, ends, width, max) == [Line(ws, i, j)] + tail;
    assert ([Line(ws, i, j)] + tail)[1..] == tail;
    if j == end {
      assert rest == [] by { EndsThere(ws, end, rest, width, max); }
    } else {
      LinesKeepWords(ws, j, end, rest, width, max);
      LineSplits(ws, i, j, end);
    }
  }

  lemma EndsThere(ws: seq<string>, end: nat, ends: seq<nat>, width: Width, max: real)
    requires end <= |ws| && Layout(ws, end, end, ends, width, max)
    ensures ends == []
  {
  }

  // ----- the loops -----

  /** A paragraph that ends in white space keeps one space at its end, if that fits. */
  function WithTrailing(lines: seq<string>, trailing: bool, width: Width, max: real): seq<string>
    requires lines != []
  {
    var last := lines[|lines| - 1];
    if trailing && width(last + " ") <= max then lines[|lines| - 1 := last + " "] else lines
  }

  lemma LinesNotEmpty(ws: seq<string>, i: nat, end: nat, width: Width, max: real)
    requires i < end <= |ws|
    ensures GreedyLines(ws, i, end, width, max) != []
  {
  }

  function ParagraphLines(para: string, width: Width, max: real): (r: seq<string>)
    ensures r != []
  {
    if Blank(para) then [""]
    else
      var ws := Words(para);
      NonBlankHasWords(para);
      LinesNotEmpty(ws, From(ws), To(ws), width, max);
      WithTrailing(GreedyLines(ws, From(ws), To(ws), width, max), To(ws) < |ws|, width, max)
  }

  lemma {:induction false} LinesFit(ws: seq<string>, i: nat, end: nat, ends: seq<nat>, width: Width, max: real, n: nat)
    requires i <= end <= |ws| && Layout(ws, i, end, ends, width, max) && n < |Lines(ws, i, end, ends, width, max)|
    ensures var line := Lines(ws, i, end, ends, width, max)[n]; width(line) <= max || line in ws
    decreases |ends|
  {
    if n > 0 {
      LinesFit(ws, ends[0], end, ends[1..], width, max, n - 1);
    } else if ends[0] == i + 1 {
      assert Line(ws, i, ends[0]) == ws[i];
    }
  }

  /** Every line of a paragraph fits, or is a single word. */
  lemma ParagraphFits(para: string, width: Width, max: real, n: nat)
    requires !Blank(para) && n < |ParagraphLines(para, width, max)|
    ensures var line := ParagraphLines(para, width, max)[n]; width(line) <= max || line in Words(para)
  {
    var ws := Words(para);
    NonBlankHasWords(para);
    LinesFit(ws, From(ws), To(ws), Greedy(ws, From(ws), To(ws), width, max), width, max, n);
  }

  /** No other way to lay out the words of a paragraph in order takes fewer lines. */
  lemma FewestLines(para: string, ends: seq<nat>, width: Width, max: real)
    requires !Blank(para) && Monotone(Words(para), width)
    requires From(Words(para)) < To(Words(para)) ==> Layout(Words(para), From(Words(para)), To(Words(para)), ends, width, max)
    ensures |ParagraphLines(para, width, max)| <= |ends|
  {
    var ws := Words(para);
    NonBlankHasWords(para);
    GreedyIsOptimal(ws, From(ws), To(ws), ends, width, max);
    GreedyCount(para, width, max);
  }

  lemma JoinLastSpace(lines: seq<string>)
    requires lines != []
    ensures Join(lines[|lines| - 1 := lines[|lines| - 1] + " "], " ") == Join(lines, " ") + " "
  {
    var front, last := lines[..|lines| - 1], lines[|lines| - 1];
    assert lines == front + [last] && lines[|lines| - 1 := last + " "] == front + [last + " "];
    if front != [] {
      JoinAppend(front, last, " ");
      JoinAppend(front, last + " ", " ");
      assert Join(front, " ") + " " + (last + " ") == (Join(front, " ") + " " + last) + " ";
    }
  }

  /** The non-empty words of a paragraph. */
  function OwnWords(para: string): seq<string>
    requires !Blank(para)
  {
    NonBlankHasWords(para);
    var ws := Words(para);
    ws[From(ws)..To(ws)]
  }

  /** The lines of a paragraph, with a space between them, are its words with a space between them, up to a space at the end. */
  lemma ParagraphKeepsWords(para: string, width: Width, max: real)
    requires !Blank(para)
    ensures var text, own := Join(ParagraphLines(para, width, max), " "), Join(OwnWords(para), " ");
            text == own || (text == own + " " && Words(para)[|Words(para)| - 1] == "")
  {
    var ws := Words(para);
    NonBlankHasWords(para);
    LinesKeepWords(ws, From(ws), To(ws), Greedy(ws, From(ws), To(ws), width, max), width, max);
    LineIsJoin(ws, From(ws), To(ws));
    LinesNotEmpty(ws, From(ws), To(ws), width, max);
    JoinLastSpace(GreedyLines(ws, From(ws), To(ws), width, max));
  }

  // ----- how many lines -----

  lemma LineNoShorter(ws: seq<string>, i: nat, j: nat, k: nat)
    requires i <= j <= k <= |ws|
    ensures |Line(ws, i, j)| <= |Line(ws, i, k)| && |Line(ws, j, k)| <= |Line(ws, i, k)|
  {
    if i < j < k { LineSplits(ws, i, j, k); }
  }

  lemma {:induction false} WordsNoLonger(s: string)
    ensures |Join(Words(s), " ")| <= |s|
    decreases |s|
  {
    var k := FirstSpace(s);
    if k < |s| {
      TrimStartShorter(s[k..]);
      var rest := TrimStart(s[k..]);
      WordsNoLonger(rest);
      assert ([s[..k]] + Words(rest))[1..] == Words(rest);
    }
  }

  /** Every text of at most c characters fits. */
  ghost predicate ShortFits(c: nat, width: Width, max: real) {
    forall s: string :: FitsIfShort(s, c, width, max)
  }

  predicate FitsIfShort(s: string, c: nat, width: Width, max: real) { |s| <= c ==> width(s) <= max }

  lemma OneLineMore(ws: seq<string>, i: nat, j: nat, end: nat, width: Width, max: real)
    requires i < end <= |ws| && j == Extend(ws, i, i + 1, end, width, max)
    ensures |Greedy(ws, i, end, width, max)| == 1 + |Greedy(ws, j, end, width, max)|
  {
  }

  lemma TooWideIsLong(s: string, c: nat, width: Width, max: real)
    requires ShortFits(c, width, max) && width(s) > max
    ensures |s| > c
  {
    assert FitsIfShort(s, c, width, max);
  }

  lemma NoWordsNoLines(ws: seq<string>, end: nat, width: Width, max: real)
    requires end <= |ws|
    ensures Greedy(ws, end, end, width, max) == []
  {
  }

  /** A line that is not the last holds more than c characters together with the one after it. */
  lemma TwoLinesAreLong(ws: seq<string>, i: nat, j: nat, k: nat, end: nat, width: Width, max: real, c: nat)
    requires i < j < end <= |ws| && j == Extend(ws, i, i + 1, end, width, max) && k == Extend(ws, j, j + 1, end, width, max)
    requires ShortFits(c, width, max)
    ensures |Line(ws, i, k)| > c
  {
    hide Line;
    TooWideIsLong(Line(ws, i, j + 1), c, width, max);
    LineNoShorter(ws, i, j + 1, k);
  }

  lemma LengthSplits(ws: seq<string>, i: nat, j: nat, k: nat)
    requires i < j < k <= |ws|
    ensures |Line(ws, i, k)| == |Line(ws, i, j)| + 1 + |Line(ws, j, k)|
  {
    LineSplits(ws, i, j, k);
  }

  lemma TwoLines(c: nat, n: nat, length: nat)
    requires n == 2 && length > c
    ensures (c + 2) * (n - 1) <= 2 * length
  {
  }

  lemma TwoLinesMore(c: nat, n: nat, rest: nat, length: nat)
    requires (c + 2) * (n - 3) <= 2 * rest && length >= rest + c + 2
    ensures (c + 2) * (n - 1) <= 2 * length
  {
    assert (c + 2) * (n - 1) == (c + 2) * (n - 3) + 2 * (c + 2);
  }

  /** So words of m characters in all take at most 1 + 2m / (c + 2) lines. */
  lemma {:induction false} GreedyIsShort(ws: seq<string>, i: nat, end: nat, width: Width, max: real, c: nat)
    requires i < end <= |ws| && ShortFits(c, width, max)
    ensures (c + 2) * (|Greedy(ws, i, end, width, max)| - 1) <= 2 * |Line(ws, i, end)|
    decreases end - i
  {
    var n := |Greedy(ws, i, end, width, max)|;
    var j := Extend(ws, i, i + 1, end, width, max);
    OneLineMore(ws, i, j, end, width, max);
    if j == end {
      NoWordsNoLines(ws, end, width, max);
      assert (c + 2) * (n - 1) == 0;
    } else {
      var k := Extend(ws, j, j + 1, end, width, max);
      OneLineMore(ws, j, k, end, width, max);
      TwoLinesAreLong(ws, i, j, k, end, width, max, c);
      if k == end {
        NoWordsNoLines(ws, end, width, max);
        TwoLines(c, n, |Line(ws, i, end)|);
      } else {
        GreedyIsShort(ws, k, end, width, max, c);
        LengthSplits(ws, i, k, end);
        TwoLinesMore(c, n, |Line(ws, k, end)|, |Line(ws, i, end)|);
      }
    }
  }

  lemma OwnWordsNoLonger(para: string)
    requires !Blank(para)
    ensures var ws := Words(para); From(ws) < To(ws) <= |ws| && |Line(ws, From(ws), To(ws))| <= |para|
  {
    var ws := Words(para);
    NonBlankHasWords(para);
    LineNoShorter(ws, From(ws), To(ws), |ws|);
    LineNoShorter(ws, 0, From(ws), |ws|);
    LineIsJoin(ws, 0, |ws|);
    assert ws[0..|ws|] == ws;
    WordsNoLonger(para);
  }

  lemma GreedyCount(para: string, width: Width, max: real)
    requires !Blank(para)
    ensures var ws := Words(para);
            From(ws) < To(ws) <= |ws| && |ParagraphLines(para, width, max)| == |Greedy(ws, From(ws), To(ws), width, max)|
  {
    var ws := Words(para);
    NonBlankHasWords(para);
    LinesKeepWords(ws, From(ws), To(ws), Greedy(ws, From(ws), To(ws), width, max), width, max);
  }

  /** A paragraph of m characters takes at most 1 + 2m / (c + 2) lines if every text of c characters fits. */
  lemma ParagraphIsShort(para: string, width: Width, max: real, c: nat)
    requires ShortFits(c, width, max)
    ensures (c + 2) * (|ParagraphLines(para, width, max)| - 1) <= 2 * |para|
  {
    if Blank(para) {
      assert (c + 2) * 0 == 0;
    } else {
      var ws := Words(para);
      OwnWordsNoLonger(para);
      GreedyCount(para, width, max);
      GreedyIsShort(ws, From(ws), To(ws), width, max, c);
    }
  }

  /** The lines of the first n paragraphs. */
  function AllLines(paras: seq<string>, n: nat, width: Width, max: real): (r: seq<string>)
    requires n <= |paras|
    ensures |r| >= n
  {
    if n == 0 then [] else AllLines(paras, n - 1, width, max) + ParagraphLines(paras[n - 1], width, max)
  }

  lemma {:induction false} LineNotEmpty(ws: seq<string>, i: nat, k: nat)
    requires i < k <= |ws| && ws[i] != ""
    ensures Line(ws, i, k) != ""
  {
  }

  /** The finished lines, and the line under way. */
  datatype Progress = Progress(lines: seq<string>, currentLine: string)

  /** The next word goes on the line under way if it fits there or if that is empty. */
  function Step(p: Progress, word: string, width: Width, max: real): Progress {
    var testLine := if p.currentLine != "" then p.currentLine + " " + word else word;
    if width(testLine) > max && p.currentLine != "" then Progress(p.lines + [p.currentLine], word)
    else Progress(p.lines, testLine)
  }

  /** After k words: the line under way holds the words from s on, and those before s are laid out as goal has them. */
  predicate UnderWay(ws: seq<string>, end: nat, k: nat, s: nat, p: Progress, goal: seq<string>, width: Width, max: real) {
    && s < k <= end <= |ws| && Fits(ws, s, k, width, max) && p.currentLine == Line(ws, s, k)
    && Extend(ws, s, s + 1, end, width, max) == Extend(ws, s, k, end, width, max)
    && p.lines + GreedyLines(ws, s, end, width, max) == goal
  }

  lemma LinesUnfold(ws: seq<string>, s: nat, k: nat, end: nat, width: Width, max: real)
    requires s < k <= end <= |ws| && Extend(ws, s, s + 1, end, width, max) == k
    ensures GreedyLines(ws, s, end, width, max) == [Line(ws, s, k)] + GreedyLines(ws, k, end, width, max)
  {
    var tail := Greedy(ws, k, end, width, max);
    assert Greedy(ws, s, end, width, max) == [k] + tail;
    assert ([k] + tail)[1..] == tail;
  }

  lemma WordKept(ws: seq<string>, end: nat, k: nat, s: nat, p: Progress, goal: seq<string>, width: Width, max: real)
    requires k < end <= |ws| && UnderWay(ws, end, k, s, p, goal, width, max) && width(Line(ws, s, k + 1)) <= max
    ensures UnderWay(ws, end, k + 1, s, Progress(p.lines, Line(ws, s, k + 1)), goal, width, max)
  {
  }

  lemma LinePushed(ws: seq<string>, end: nat, k: nat, s: nat, p: Progress, goal: seq<string>, width: Width, max: real)
    requires k < end <= |ws| && UnderWay(ws, end, k, s, p, goal, width, max) && width(Line(ws, s, k + 1)) > max
    ensures UnderWay(ws, end, k + 1, k, Progress(p.lines + [p.currentLine], ws[k]), goal, width, max)
  {
    LinesUnfold(ws, s, k, end, width, max);
    assert (p.lines + [Line(ws, s, k)]) + GreedyLines(ws, k, end, width, max) == p.lines + ([Line(ws, s, k)] + GreedyLines(ws, k, end, width, max));
  }

  lemma StepLine(ws: seq<string>, end: nat, k: nat, s: nat, p: Progress, goal: seq<string>, width: Width, max: real)
    requires k < end <= |ws| && UnderWay(ws, end, k, s, p, goal, width, max) && ws[s] != ""
    ensures Step(p, ws[k], width, max)
         == if width(Line(ws, s, k + 1)) > max then Progress(p.lines + [p.currentLine], ws[k]) else Progress(p.lines, Line(ws, s, k + 1))
  {
    LineNotEmpty(ws, s, k);
    assert Line(ws, s, k + 1) == Line(ws, s, k) + " " + ws[k];
  }

  /** One more word; the line under way starts where it did, or at that word. */
  lemma NextWord(ws: seq<string>, end: nat, k: nat, s: nat, p: Progress, goal: seq<string>, width: Width, max: real) returns (t: nat)
    requires k < end <= |ws| && UnderWay(ws, end, k, s, p, goal, width, max) && ws[s] != ""
    ensures s <= t <= k && UnderWay(ws, end, k + 1, t, Step(p, ws[k], width, max), goal, width, max)
  {
    StepLine(ws, end, k, s, p, goal, width, max);
    if width(Line(ws, s, k + 1)) > max {
      LinePushed(ws, end, k, s, p, goal, width, max);
      t := k;
    } else {
      WordKept(ws, end, k, s, p, goal, width, max);
      t := s;
    }
  }

  lemma FirstWord(ws: seq<string>, from: nat, end: nat, width: Width, max: real)
    requires from < end <= |ws|
    ensures UnderWay(ws, end, from + 1, from, Progress([], ws[from]), GreedyLines(ws, from, end, width, max), width, max)
  {
  }

  lemma WordsDone(ws: seq<string>, end: nat, s: nat, p: Progress, goal: seq<string>, width: Width, max: real)
    requires UnderWay(ws, end, end, s, p, goal, width, max) && ws[s] != ""
    ensures p.currentLine != "" && p.lines + [p.currentLine] == goal
  {
    LinesUnfold(ws, s, end, end, width, max);
    LineNotEmpty(ws, s, end);
  }

  /** After the first k words. */
  function After(ws: seq<string>, k: nat, width: Width, max: real): Progress
    requires k <= |ws|
  {
    if k == 0 then Progress([], "") else Step(After(ws, k - 1, width, max), ws[k - 1], width, max)
  }

  function Finished(p: Progress): seq<string> {
    if p.currentLine == "" then p.lines else p.lines + [p.currentLine]
  }

  lemma AfterNext(ws: seq<string>, k: nat, width: Width, max: real)
    requires k < |ws|
    ensures After(ws, k + 1, width, max) == Step(After(ws, k, width, max), ws[k], width, max)
  {
  }

  /** Some line is under way after k words. */
  lemma {:induction false} AfterUnderWay(ws: seq<string>, from: nat, end: nat, k: nat, goal: seq<string>, width: Width, max: real)
    returns (s: nat)
    requires from < k <= end <= |ws| && UnderWay(ws, end, from + 1, from, After(ws, from + 1, width, max), goal, width, max)
    requires forall i | from <= i < end :: ws[i] != ""
    ensures from <= s < k && UnderWay(ws, end, k, s, After(ws, k, width, max), goal, width, max)
    decreases k
  {
    hide UnderWay;
    if k == from + 1 {
      s := from;
    } else {
      s := AfterUnderWay(ws, from, end, k - 1, goal, width, max);
      s := NextWord(ws, end, k - 1, s, After(ws, k - 1, width, max), goal, width, max);
      AfterNext(ws, k - 1, width, max);
    }
  }

  lemma TrailingStep(p: Progress, goal: seq<string>, width: Width, max: real)
    requires p.currentLine != "" && p.lines + [p.currentLine] == goal
    ensures Finished(p) == WithTrailing(goal, false, width, max)
    ensures Finished(Step(p, "", width, max)) == WithTrailing(goal, true, width, max)
  {
    assert p.currentLine + " " + "" == p.currentLine + " ";
    assert goal[|goal| - 1 := p.currentLine + " "] == p.lines + [p.currentLine + " "];
  }

  lemma StartsWithFirst(ws: seq<string>, width: Width, max: real)
    requires ws != [] && From(ws) < To(ws)
    ensures After(ws, From(ws) + 1, width, max) == Progress([], ws[From(ws)])
  {
    assert After(ws, 0, width, max) == Progress([], "");
    if From(ws) == 1 { assert After(ws, 1, width, max) == Progress([], ""); }
  }

  /** The words are laid out greedily, the white space at the end of the paragraph apart. */
  lemma LoopIsGreedy(ws: seq<string>, width: Width, max: real)
    requires ws != [] && From(ws) < To(ws) && forall i | From(ws) <= i < To(ws) :: ws[i] != ""
    ensures GreedyLines(ws, From(ws), To(ws), width, max) != []
    ensures Finished(After(ws, |ws|, width, max)) == WithTrailing(GreedyLines(ws, From(ws), To(ws), width, max), To(ws) < |ws|, width, max)
  {
    var from, end := From(ws), To(ws);
    var goal, p := GreedyLines(ws, from, end, width, max), After(ws, end, width, max);
    assert p.currentLine != "" && p.lines + [p.currentLine] == goal by {
      StartsWithFirst(ws, width, max);
      FirstWord(ws, from, end, width, max);
      var s := AfterUnderWay(ws, from, end, end, goal, width, max);
      WordsDone(ws, end, s, p, goal, width, max);
    }
    TrailingStep(p, goal, width, max);
  }

  /** The loop over the words of a paragraph. */
  method WrapWords(ws: seq<string>, width: Width, max: real) returns (lines: seq<string>)
    ensures lines == Finished(After(ws, |ws|, width, max))
  {
    lines := [];
    var currentLine := "";
    var k := 0;
    while k < |ws|
      invariant k <= |ws| && Progress(lines, currentLine) == After(ws, k, width, max)
    {
      var testLine := if currentLine != "" then currentLine + " " + ws[k] else ws[k];
      var testWidth := width(testLine);
      if testWidth > max && currentLine != "" {
        lines := lines + [currentLine];
        currentLine := ws[k];
      } else {
        currentLine := testLine;
      }
      k := k + 1;
    }
    if currentLine != "" { lines := lines + [currentLine]; }
  }

  lemma ParagraphIsGreedy(para: string, width: Width, max: real)
    requires !Blank(para)
    ensures Finished(After(Words(para), |Words(para)|, width, max)) == ParagraphLines(para, width, max)
  {
    NonBlankHasWords(para);
    LoopIsGreedy(Words(para), width, max);
  }

  // ----- the lines hold the text -----

  function NonEmpty(ws: seq<string>): seq<string> {
    if ws == [] then [] else (if ws[0] == "" then [] else [ws[0]]) + NonEmpty(ws[1..])
  }

  /** The words are the runs of the text, with empty ones for white space at the ends. */
  lemma {:induction false} WordsAreRuns(s: string)
    ensures NonEmpty(Words(s)) == Runs(s)
    decreases |s|
  {
    var k := FirstSpace(s);
    if k == |s| {
      assert s[..k] == s;
      if s != "" { RunOfWord(s); }
      assert NonEmpty([s]) == if s == "" then [] else [s] by { assert [s][1..] == []; }
    } else {
      var rest := TrimStart(s[k..]);
      TrimStartShorter(s[k..]);
      WordsAreRuns(rest);
      RunsOfTrimStart(s[k..]);
      FirstWordRuns(s, k);
      assert ([s[..k]] + Words(rest))[1..] == Words(rest);
    }
  }

  lemma FirstWordRuns(s: string, k: nat)
    requires k < |s| && NoSpace(s[..k]) && IsSpace(s[k])
    ensures Runs(s) == (if s[..k] == "" then [] else [s[..k]]) + Runs(s[k..])
  {
    CutAt(s, k);
    RunsAround(s[..k], s[k], s[k + 1..]);
    RunsAround("", s[k], s[k + 1..]);
    assert s[k..] == "" + [s[k]] + s[k + 1..];
    if s[..k] != "" { RunOfWord(s[..k]); }
  }

  lemma {:induction false} NonEmptyBoth(a: seq<string>, b: seq<string>)
    ensures NonEmpty(a + b) == NonEmpty(a) + NonEmpty(b)
  {
    if a == [] {
      assert a + b == b;
    } else {
      assert (a + b)[1..] == a[1..] + b;
      NonEmptyBoth(a[1..], b);
    }
  }

  lemma {:induction false} NonEmptyAll(ws: seq<string>)
    requires forall i | 0 <= i < |ws| :: ws[i] != ""
    ensures NonEmpty(ws) == ws
  {
    if ws != [] { NonEmptyAll(ws[1..]); }
  }

  lemma EmptyWordsLeftOut(w: string)
    requires w == ""
    ensures NonEmpty([w]) == [] && NonEmpty([]) == []
  {
    assert [w][1..] == [];
  }

  lemma NonEmptyMiddle(ws: seq<string>, from: nat, end: nat)
    requires from <= end <= |ws| && from <= 1 && |ws| - 1 <= end
    requires (from == 1 ==> ws[0] == "") && (end < |ws| ==> ws[end] == "") && forall i | from <= i < end :: ws[i] != ""
    ensures NonEmpty(ws) == ws[from..end]
  {
    hide NonEmpty;
    EmptyWordsLeftOut("");
    NonEmptyAll(ws[from..end]);
    NonEmptyEdges(ws, from, end);
  }

  /** What is left of a text of words is left of its beginning, its middle and its end. */
  lemma NonEmptyEdges(ws: seq<string>, from: nat, end: nat)
    requires from <= end <= |ws| && from <= 1 && |ws| - 1 <= end
    requires (from == 1 ==> ws[0] == "") && (end < |ws| ==> ws[end] == "")
    requires NonEmpty([""]) == [] && NonEmpty([]) == []
    ensures NonEmpty(ws) == NonEmpty(ws[from..end])
  {
    hide NonEmpty;
    var own := ws[from..end];
    var front, back := if from == 1 then [""] else [], if end < |ws| then [""] else [];
    assert ws[..from] == front;
    assert ws[end..] == back;
    assert ws == (ws[..from] + own) + ws[end..];
    NonEmptyBoth(front + own, back);
    NonEmptyBoth(front, own);
  }

  lemma OwnWordsAreRuns(para: string)
    requires !Blank(para)
    ensures OwnWords(para) == Runs(para)
    ensures forall i | 0 <= i < |OwnWords(para)| :: OwnWords(para)[i] != "" && NoSpace(OwnWords(para)[i])
  {
    hide Runs, NonEmpty, Blank, Words;
    var ws := Words(para);
    NonBlankHasWords(para);
    WordsShape(para);
    WordsAreRuns(para);
    NonEmptyMiddle(ws, From(ws), To(ws));
  }

  /** Words i to end are words indeed. */
  predicate Solid(ws: seq<string>, i: nat, end: nat)
    requires i <= end <= |ws|
  {
    forall k | i <= k < end :: ws[k] != "" && NoSpace(ws[k])
  }

  lemma {:induction false} LineRuns(ws: seq<string>, i: nat, j: nat)
    requires i < j <= |ws| && Solid(ws, i, j)
    ensures Runs(Line(ws, i, j)) == ws[i..j] && Tidy(Line(ws, i, j))
    ensures Line(ws, i, j) != "" && !IsSpace(Line(ws, i, j)[|Line(ws, i, j)| - 1])
    decreases j
  {
    hide Runs, Tidy;
    var w := ws[j - 1];
    RunOfWord(w);
    WordIsTidy(w);
    if i + 1 == j {
      assert ws[i..j] == [w];
    } else {
      var front := Line(ws, i, j - 1);
      LineRuns(ws, i, j - 1);
      RunsAround(front, ' ', w);
      TidyJoined(front, w);
      assert front + [' '] + w == front + " " + w;
      assert ws[i..j] == ws[i..j - 1] + [w];
      assert (front + " " + w)[|front + " " + w| - 1] == w[|w| - 1];
    }
  }

  /** The lines of a layout hold its words, and are tidy. */
  lemma {:induction false} LinesHoldWords(ws: seq<string>, i: nat, end: nat, ends: seq<nat>, width: Width, max: real)
    requires i <= end <= |ws| && Layout(ws, i, end, ends, width, max) && Solid(ws, i, end)
    ensures AllRuns(Lines(ws, i, end, ends, width, max)) == ws[i..end]
    ensures AllTidy(Lines(ws, i, end, ends, width, max))
    decreases |ends|
  {
    if ends == [] {
      assert ws[i..end] == [];
    } else {
      FirstLine(ws, i, end, ends, width, max);
      hide *;
      SolidParts(ws, i, ends[0], end);
      LineRuns(ws, i, ends[0]);
      LinesHoldWords(ws, ends[0], end, ends[1..], width, max);
      LineInFront(Line(ws, i, ends[0]), Lines(ws, ends[0], end, ends[1..], width, max));
      SliceJoins(ws, i, ends[0], end);
    }
  }

  lemma SliceJoins(ws: seq<string>, i: nat, m: nat, end: nat)
    requires i <= m <= end <= |ws|
    ensures ws[i..end] == ws[i..m] + ws[m..end]
  {
  }

  lemma FirstLine(ws: seq<string>, i: nat, end: nat, ends: seq<nat>, width: Width, max: real)
    requires i <= end <= |ws| && Layout(ws, i, end, ends, width, max) && ends != []
    ensures i < ends[0] <= end && Layout(ws, ends[0], end, ends[1..], width, max)
    ensures Lines(ws, i, end, ends, width, max) == [Line(ws, i, ends[0])] + Lines(ws, ends[0], end, ends[1..], width, max)
  {
  }

  lemma SolidParts(ws: seq<string>, i: nat, m: nat, end: nat)
    requires i <= m <= end <= |ws| && Solid(ws, i, end)
    ensures Solid(ws, i, m) && Solid(ws, m, end)
  {
  }

  lemma LineInFront(line: string, tail: seq<string>)
    requires AllTidy(tail) && Tidy(line) && line != "" && !IsSpace(line[|line| - 1])
    ensures AllRuns([line] + tail) == Runs(line) + AllRuns(tail) && AllTidy([line] + tail)
  {
    hide Runs, Tidy, IsSpace;
    assert ([line] + tail)[1..] == tail;
  }

  /** Tidy, and with no white space at the end that another space would follow. */
  predicate AllTidy(lines: seq<string>) {
    forall k | 0 <= k < |lines| :: Tidy(lines[k]) && (lines[k] != "" ==> !IsSpace(lines[k][|lines[k]| - 1]))
  }

  lemma TrailingHolds(lines: seq<string>, trailing: bool, width: Width, max: real)
    requires lines != [] && AllTidy(lines) && lines[|lines| - 1] != ""
    ensures var r := WithTrailing(lines, trailing, width, max);
            AllRuns(r) == AllRuns(lines) && forall k | 0 <= k < |r| :: Tidy(r[k])
  {
    var n := |lines| - 1;
    var front, last := lines[..n], lines[n];
    assert lines == front + [last] && lines[n := last + " "] == front + [last + " "];
    AllRunsBoth(front, [last]);
    AllRunsBoth(front, [last + " "]);
    AllRunsOne(last);
    AllRunsOne(last + " ");
    RunsBehindSpace(last + " ");
    assert (last + " ")[..|last|] == last;
    TidyJoined(last, "");
    assert last + " " + "" == last + " ";
  }

  lemma BlankHasNoRuns(para: string)
    requires Blank(para)
    ensures Runs(para) == [] && AllRuns([""]) == []
  {
    RunsOfTrimStart(para);
    RunsOfTrimEnd(TrimStart(para));
    AllRunsOne("");
  }

  lemma LastLineNotEmpty(ws: seq<string>, i: nat, end: nat, ends: seq<nat>, width: Width, max: real)
    requires i < end <= |ws| && Layout(ws, i, end, ends, width, max) && Solid(ws, i, end)
    ensures var lines := Lines(ws, i, end, ends, width, max); lines != [] && lines[|lines| - 1] != ""
    decreases |ends|
  {
    LineRuns(ws, i, ends[0]);
    if ends[0] < end {
      LastLineNotEmpty(ws, ends[0], end, ends[1..], width, max);
    } else {
      EndsThere(ws, end, ends[1..], width, max);
    }
  }

  lemma NonBlankLines(para: string, width: Width, max: real)
    requires !Blank(para)
    ensures var ws := Words(para);
            && ws != [] && From(ws) < To(ws) <= |ws| && OwnWords(para) == ws[From(ws)..To(ws)]
            && ParagraphLines(para, width, max) == WithTrailing(GreedyLines(ws, From(ws), To(ws), width, max), To(ws) < |ws|, width, max)
  {
    NonBlankHasWords(para);
  }

  lemma SolidSlice(ws: seq<string>, from: nat, end: nat)
    requires from <= end <= |ws|
    requires var own := ws[from..end]; forall i | 0 <= i < |own| :: own[i] != "" && NoSpace(own[i])
    ensures Solid(ws, from, end)
  {
    var own := ws[from..end];
    assert forall k | from <= k < end :: ws[k] == own[k - from];
  }

  lemma GreedyLinesHold(ws: seq<string>, from: nat, end: nat, width: Width, max: real)
    requires from < end <= |ws| && Solid(ws, from, end)
    ensures var lines := GreedyLines(ws, from, end, width, max);
            AllRuns(lines) == ws[from..end] && AllTidy(lines) && lines != [] && lines[|lines| - 1] != ""
  {
    hide AllRuns, AllTidy, Layout, Lines, Greedy;
    var ends := Greedy(ws, from, end, width, max);
    LinesHoldWords(ws, from, end, ends, width, max);
    LastLineNotEmpty(ws, from, end, ends, width, max);
  }

  /** The lines of a paragraph have its runs, and are tidy. */
  lemma ParagraphHoldsText(para: string, width: Width, max: real)
    ensures AllRuns(ParagraphLines(para, width, max)) == Runs(para)
    ensures forall k | 0 <= k < |ParagraphLines(para, width, max)| :: Tidy(ParagraphLines(para, width, max)[k])
  {
    if Blank(para) {
      BlankHasNoRuns(para);
    } else {
      hide *;
      var ws := Words(para);
      NonBlankLines(para, width, max);
      OwnWordsAreRuns(para);
      SolidSlice(ws, From(ws), To(ws));
      GreedyLinesHold(ws, From(ws), To(ws), width, max);
      TrailingHolds(GreedyLines(ws, From(ws), To(ws), width, max), To(ws) < |ws|, width, max);
    }
  }

  lemma {:induction false} AllLinesHoldText(paras: seq<string>, n: nat, width: Width, max: real)
    requires n <= |paras|
    ensures AllRuns(AllLines(paras, n, width, max)) == AllRuns(paras[..n])
    ensures forall k | 0 <= k < |AllLines(paras, n, width, max)| :: Tidy(AllLines(paras, n, width, max)[k])
  {
    hide ParagraphLines, Runs, AllRuns, Tidy;
    if n == 0 {
      assert paras[..0] == [];
    } else {
      AllLinesHoldText(paras, n - 1, width, max);
      ParagraphHoldsText(paras[n - 1], width, max);
      AllRunsBoth(AllLines(paras, n - 1, width, max), ParagraphLines(paras[n - 1], width, max));
      AllRunsBoth(paras[..n - 1], [paras[n - 1]]);
      AllRunsOne(paras[n - 1]);
      assert paras[..n] == paras[..n - 1] + [paras[n - 1]];
    }
  }

  /**
   Nothing of a text is lost, changed or moved: characters that are neighbours stay so, on one
   line, and characters apart are kept apart by one space or by the end of a line.
   */
  lemma LinesHoldText(text: string, width: Width, max: real)
    ensures var lines := AllLines(Split(text, '\n'), |Split(text, '\n')|, width, max);
            && Runs(Join(lines, "\n")) == Runs(text)
            && WithoutSpace(Join(lines, "")) == WithoutSpace(text)
            && forall k | 0 <= k < |lines| :: Tidy(lines[k])
  {
    var paras := Split(text, '\n');
    var lines := AllLines(paras, |paras|, width, max);
    AllLinesHoldText(paras, |paras|, width, max);
    assert paras[..|paras|] == paras;
    RunsOfSplit(text, '\n');
    RunsOfJoined(lines, '\n');
    WithoutSpaceOfJoined(lines);
    RunsHoldTheText(text);
  }

  lemma OneMoreParagraph(paras: seq<string>, n: nat, width: Width, max: real, lines: seq<string>, own: seq<string>)
    requires n < |paras| && lines == AllLines(paras, n, width, max) && own == ParagraphLines(paras[n], width, max)
    ensures lines + own == AllLines(paras, n + 1, width, max)
  {
  }

  method WrapParagraph(para: string, width: Width, max: real) returns (lines: seq<string>)
    ensures lines == ParagraphLines(para, width, max)
  {
    if Blank(para) { return [""]; }
    lines := WrapWords(Words(para), width, max);
    ParagraphIsGreedy(para, width, max);
  }

  /** The loop over the paragraphs. */
  method WrapParagraphs(paragraphs: seq<string>, width: Width, max: real) returns (lines: seq<string>)
    ensures lines == AllLines(paragraphs, |paragraphs|, width, max)
  {
    hide ParagraphLines;
    lines := [];
    var p := 0;
    while p < |paragraphs|
      invariant p <= |paragraphs| && lines == AllLines(paragraphs, p, width, max)
    {
      var own := WrapParagraph(paragraphs[p], width, max);
      OneMoreParagraph(paragraphs, p, width, max, lines, own);
      lines := lines + own;
      p := p + 1;
    }
  }

  method Wrap(text: string, width: Width, max: real) returns (lines: seq<string>)
    ensures lines == AllLines(Split(text, '\n'), |Split(text, '\n')|, width, max)
    ensures Runs(Join(lines, "\n")) == Runs(text) && WithoutSpace(Join(lines, "")) == WithoutSpace(text)
    ensures forall k | 0 <= k < |lines| :: Tidy(lines[k])
  {
    LinesHoldText(text, width, max);
    lines := WrapParagraphs(Split(text, '\n'), width, max);
    return if |lines| > 0 then lines else [""];
  }
}

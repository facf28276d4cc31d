/**
 Reading a canonical JSON text character by character: pipes and backslashes occur inside string
 literals only, so no canonical text is what another one leaves behind a pipe.
 */
module JsonLexing {
  import opened Text
  import opened CanonicalJson

  /** Outside and inside a string literal, just behind a backslash, and after a character that cannot be there. */
  datatype Place = Outside | Inside | Escaped | Lost

  function Step(p: Place, c: char): Place {
    match p
    case Outside => if c == '"' then Inside else if c == '\\' || c == '|' then Lost else Outside
    case Inside => if c == '"' then Outside else if c == '\\' then Escaped else Inside
    case Escaped => Inside
    case Lost => Lost
  }

  function Scan(s: string, p: Place): Place {
    if s == "" then p else Scan(s[1..], Step(p, s[0]))
  }

  lemma {:induction false} ScanBoth(a: string, b: string, p: Place)
    ensures Scan(a + b, p) == Scan(b, Scan(a, p))
  {
    if a == "" {
      assert a + b == b;
    } else {
      assert (a + b)[0] == a[0] && (a + b)[1..] == a[1..] + b;
      ScanBoth(a[1..], b, Step(p, a[0]));
    }
  }

  lemma {:induction false} StaysLost(s: string)
    ensures Scan(s, Lost) == Lost
  {
    if s != "" { StaysLost(s[1..]); }
  }

  // ----- canonical texts -----

  lemma ScanOne(c: char, p: Place)
    ensures Scan([c], p) == Step(p, c)
  {
    assert [c][1..] == "";
  }

  lemma ScanPair(c: char, d: char, p: Place)
    ensures Scan([c, d], p) == Step(Step(p, c), d)
  {
    assert [c, d][1..] == [d];
    ScanOne(d, Step(p, c));
  }

  lemma EscapedCharKeepsInside(c: char)
    ensures Scan(EscapeChar(c), Inside) == Inside
  {
    var e := EscapeChar(c);
    if |e| == 1 {
      ScanOne(c, Inside);
    } else if |e| == 2 {
      ScanPair(e[0], e[1], Inside);
    } else {
      var n := c as int;
      assert n / 16 < 16 && n % 16 < 16;
      HexDigitPlain(n / 16);
      HexDigitPlain(n % 16);
      assert e == [e[0], e[1]] + [e[2], e[3]] + [e[4], e[5]];
      ScanBoth([e[0], e[1]] + [e[2], e[3]], [e[4], e[5]], Inside);
      ScanBoth([e[0], e[1]], [e[2], e[3]], Inside);
      ScanPair(e[0], e[1], Inside);
      ScanPair(e[2], e[3], Inside);
      ScanPair(e[4], e[5], Inside);
    }
  }

  lemma HexDigitPlain(n: nat)
    requires n < 16
    ensures HexDigit(n) != '"' && HexDigit(n) != '\\'
  {
  }

  lemma {:induction false} EscapeKeepsInside(s: string)
    ensures Scan(Escape(s), Inside) == Inside
  {
    if s != "" {
      EscapedCharKeepsInside(s[0]);
      EscapeKeepsInside(s[1..]);
      ScanBoth(EscapeChar(s[0]), Escape(s[1..]), Inside);
    }
  }

  lemma QuoteReturns(s: string)
    ensures Scan(Quote(s), Outside) == Outside
  {
    EscapeKeepsInside(s);
    ScanOne('"', Outside);
    ScanOne('"', Inside);
    ScanBoth("\"", Escape(s), Outside);
    ScanBoth("\"" + Escape(s), "\"", Outside);
  }

  predicate Returns(t: string) { Scan(t, Outside) == Outside }

  lemma BothReturn(a: string, b: string)
    requires Returns(a) && Returns(b)
    ensures Returns(a + b)
  {
    ScanBoth(a, b, Outside);
  }

  lemma {:induction false} PlainReturns(s: string)
    requires forall i | 0 <= i < |s| :: s[i] != '"' && s[i] != '\\' && s[i] != '|'
    ensures Returns(s)
  {
    if s != "" { PlainReturns(s[1..]); }
  }

  lemma {:induction false} JoinReturns(texts: seq<string>)
    requires forall i | 0 <= i < |texts| :: Returns(texts[i])
    ensures Returns(Join(texts, ","))
  {
    if |texts| > 1 {
      JoinReturns(texts[1..]);
      PlainReturns(",");
      BothReturn(texts[0], ",");
      BothReturn(texts[0] + ",", Join(texts[1..], ","));
    }
  }

  lemma BracketsReturn(open: string, inner: string, close: string)
    requires Returns(open) && Returns(inner) && Returns(close)
    ensures Returns(open + inner + close)
  {
    BothReturn(open, inner);
    BothReturn(open + inner, close);
  }

  lemma MemberReturns(e: Entry)
    requires Returns(e.text)
    ensures Returns(MemberText(e))
  {
    QuoteReturns(e.key);
    PlainReturns(":");
    BothReturn(Quote(e.key), ":");
    BothReturn(Quote(e.key) + ":", e.text);
  }

  lemma MembersReturn(es: seq<Entry>)
    requires forall i | 0 <= i < |es| :: Returns(es[i].text)
    ensures Returns("{" + Join(MemberTexts(es), ",") + "}")
  {
    forall i | 0 <= i < |es| ensures Returns(MemberTexts(es)[i]) { MemberReturns(es[i]); }
    JoinReturns(MemberTexts(es));
    PlainReturns("{");
    PlainReturns("}");
    BracketsReturn("{", Join(MemberTexts(es), ","), "}");
  }

  lemma SortedReturn(es: seq<Entry>)
    requires DistinctEntries(es) && forall i | 0 <= i < |es| :: Returns(es[i].text)
    ensures forall i | 0 <= i < |SortByKey(es)| :: Returns(SortByKey(es)[i].text)
  {
    var sorted := SortByKey(es);
    forall i | 0 <= i < |sorted|
      ensures Returns(sorted[i].text)
    {
      assert sorted[i] in sorted;
      var j :| 0 <= j < |es| && es[j] == sorted[i];
    }
  }

  /** A canonical text is read from outside to outside, without a pipe or a backslash in between. */
  lemma {:induction false} CanonicalReturns(v: Json)
    requires WellFormed(v)
    ensures Returns(Stringify(v))
    decreases v
  {
    match v
    case Str(s) => QuoteReturns(s);
    case Arr(items) =>
      forall i | 0 <= i < |items| ensures Returns(Texts(items)[i]) { CanonicalReturns(items[i]); }
      JoinReturns(Texts(items));
      PlainReturns("[");
      PlainReturns("]");
      BracketsReturn("[", Join(Texts(items), ","), "]");
    case Obj(ms) =>
      forall i | 0 <= i < |ms| ensures Returns(Entries(ms)[i].text) { CanonicalReturns(ms[i].value); }
      SortedReturn(Entries(ms));
      MembersReturn(SortByKey(Entries(ms)));
    case _ => PlainReturns(Stringify(v));
  }

  // ----- no canonical text behind a pipe -----

  /** Read from outside and from inside, a text never ends in the same place. */
  lemma {:induction false} StaysOpposite(s: string)
    ensures var a, b := Scan(s, Outside), Scan(s, Inside);
            a == Lost || b == Lost || (a == Outside && b == Inside) || (a == Inside && b == Outside)
  {
    if s != "" {
      var c, rest := s[0], s[1..];
      if c == '"' {
        StaysOpposite(rest);
      } else if c == '\\' || c == '|' {
        StaysLost(rest);
      } else {
        StaysOpposite(rest);
      }
    }
  }

  /** What stands behind a pipe of a text that is read to the outside is not itself such a text. */
  lemma NoTextBehindPipe(x: string, tail: string)
    requires Returns(x + "|" + tail)
    ensures !Returns(tail)
  {
    ScanBoth(x + "|", tail, Outside);
    ScanBoth(x, "|", Outside);
    ScanOne('|', Scan(x, Outside));
    StaysLost(tail);
    StaysOpposite(tail);
  }
}

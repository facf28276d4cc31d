/**
 What a canonical text says: a reader of JSON, written from the grammar, gives back what the value
 shows, and it accepts objects only if their keys come in increasing order.
 */
module JsonReading {
  import opened Wrappers
  import opened Text
  import opened CanonicalJson

  // ----- the order of keys -----

  /** Where two keys first differ the earlier one has the smaller character, or it is the beginning of the other. */
  predicate ComesBefore(a: string, b: string) { exists k | 0 <= k <= |a| :: DiffersAt(a, b, k) }

  predicate DiffersAt(a: string, b: string, k: nat) {
    && k <= |a| && k < |b| && (forall i | 0 <= i < k :: a[i] == b[i])
    && (k == |a| || a[k] < b[k])
  }

  lemma {:induction false} LessIsComesBefore(a: string, b: string)
    ensures Less(a, b) <==> ComesBefore(a, b)
  {
    if a == "" || b == "" || a[0] != b[0] {
      if Less(a, b) { assert DiffersAt(a, b, 0); }
    } else {
      LessIsComesBefore(a[1..], b[1..]);
      if k :| 0 <= k <= |a[1..]| && DiffersAt(a[1..], b[1..], k) {
        assert forall i | 0 < i <= k :: a[i] == a[1..][i - 1] && b[i] == b[1..][i - 1];
        assert DiffersAt(a, b, k + 1);
      }
      if k :| 0 <= k <= |a| && DiffersAt(a, b, k) {
        assert DiffersAt(a[1..], b[1..], k - 1);
      }
    }
  }

  // ----- the reader -----

  predicate StartsWith(s: string, p: string) { |p| <= |s| && s[..|p|] == p }

  /**
   Reads one value and gives the rest of the text: true, false, a number, a string, a list, an
   object, or nothing at all for null.
   */
  function ReadValue(s: string): (r: Option<(Doc, string)>)
    ensures r.Some? ==> |r.value.1| <= |s|
    decreases |s|, 0
  {
    if s == "" || Delimiter(s[0]) then Some((DNull, s))
    else if StartsWith(s, "true") then Some((DBool(true), s[4..]))
    else if StartsWith(s, "false") then Some((DBool(false), s[5..]))
    else if s[0] == '"' then
      var q := Unquote(s[1..]);
      if q.None? then None else Some((DStr(q.value.0), q.value.1))
    else if NumberChar(s[0]) then
      var n := NumberSpan(s);
      Some((DNum(s[..n]), s[n..]))
    else if StartsWith(s, "[]") then Some((DArr([]), s[2..]))
    else if s[0] == '[' then
      var items := ReadItems(s[1..]);
      if items.None? then None else Some((DArr(items.value.0), items.value.1))
    else if StartsWith(s, "{}") then Some((DObj(map[]), s[2..]))
    else if s[0] == '{' then
      var members := ReadMembers(s[1..], None);
      if members.None? then None else Some((DObj(members.value.0), members.value.1))
    else None
  }

  /** The items of a list up to and with its closing bracket. */
  function ReadItems(s: string): (r: Option<(seq<Doc>, string)>)
    ensures r.Some? ==> |r.value.1| <= |s|
    decreases |s|, 1
  {
    var v := ReadValue(s);
    if v.None? || v.value.1 == "" then None
    else if v.value.1[0] == ']' then Some(([v.value.0], v.value.1[1..]))
    else if v.value.1[0] == ',' then
      var rest := ReadItems(v.value.1[1..]);
      if rest.None? then None else Some(([v.value.0] + rest.value.0, rest.value.1))
    else None
  }

  /** The members of an object up to and with its closing brace; each key must come after the last one. */
  function ReadMembers(s: string, last: Option<string>): (r: Option<(map<string, Doc>, string)>)
    ensures r.Some? ==> |r.value.1| <= |s|
    decreases |s|, 1
  {
    if s == "" || s[0] != '"' then None
    else
      var key := Unquote(s[1..]);
      if key.None? || key.value.1 == "" || key.value.1[0] != ':' || (last.Some? && !ComesBefore(last.value, key.value.0)) then None
      else
        var v := ReadValue(key.value.1[1..]);
        if v.None? || v.value.1 == "" then None
        else if v.value.1[0] == '}' then Some((map[key.value.0 := v.value.0], v.value.1[1..]))
        else if v.value.1[0] == ',' then
          var rest := ReadMembers(v.value.1[1..], Some(key.value.0));
          if rest.None? then None else Some((rest.value.0[key.value.0 := v.value.0], rest.value.1))
        else None
  }

  // ----- reading back -----

  /** In front of a delimiter or at the end, the text is read as d, and nothing more is read. */
  ghost predicate ReadsAs(text: string, d: Doc) {
    forall rest {:trigger text + rest} | Delimited(rest) :: ReadValue(text + rest) == Some((d, rest))
  }

  lemma NullReads()
    ensures ReadsAs("", DNull)
  {
    forall rest | Delimited(rest) ensures ReadValue("" + rest) == Some((DNull, rest)) { assert "" + rest == rest; }
  }

  lemma BoolReads(b: bool)
    ensures ReadsAs(Stringify(Bool(b)), DBool(b))
  {
    var text := Stringify(Bool(b));
    forall rest | Delimited(rest) ensures ReadValue(text + rest) == Some((DBool(b), rest)) {
      var s := text + rest;
      assert s[..|text|] == text && s[|text|..] == rest;
      assert s[0] == text[0];
      assert !b ==> s[..4] != "true" by { assert s[..4][0] == text[0]; }
    }
  }

  lemma NumReads(text: string)
    requires NumberText(text)
    ensures ReadsAs(text, DNum(text))
  {
    forall rest | Delimited(rest) ensures ReadValue(text + rest) == Some((DNum(text), rest)) {
      var s := text + rest;
      SpanOfNumber(text, rest);
      hide ReadItems, ReadMembers, Unquote;
      assert s[0] == text[0] && NumberChar(s[0]);
      assert s[..|text|] == text && s[|text|..] == rest;
      assert |s| >= 4 ==> s[..4][0] == s[0];
      assert |s| >= 5 ==> s[..5][0] == s[0];
    }
  }

  lemma QuotedAhead(key: string, tail: string)
    ensures var s := Quote(key) + tail; s != "" && s[0] == '"' && Unquote(s[1..]) == Some((key, tail))
  {
    var s := Quote(key) + tail;
    assert s[1..] == Escape(key) + "\"" + tail;
    UnquoteQuoted(key, tail);
  }

  lemma StringReads(t: string)
    ensures ReadsAs(Quote(t), DStr(t))
  {
    hide ReadValue, Unquote, Quote;
    forall rest | Delimited(rest) ensures ReadValue(Quote(t) + rest) == Some((DStr(t), rest)) {
      QuotedAhead(t, rest);
      QuoteAheadReads(Quote(t) + rest, t, rest);
    }
  }

  lemma QuoteAheadReads(s: string, t: string, rest: string)
    requires s != "" && s[0] == '"' && Unquote(s[1..]) == Some((t, rest))
    ensures ReadValue(s) == Some((DStr(t), rest))
  {
    hide ReadItems, ReadMembers, Unquote;
    assert |s| >= 4 ==> s[..4][0] == s[0];
    assert |s| >= 5 ==> s[..5][0] == s[0];
  }

  // ----- lists -----

  lemma {:induction false} ItemsRead(texts: seq<string>, ds: seq<Doc>, rest: string)
    requires |texts| == |ds| > 0 && forall i | 0 <= i < |texts| :: ReadsAs(texts[i], ds[i])
    ensures ReadItems(Join(texts, ",") + "]" + rest) == Some((ds, rest))
  {
    hide ReadValue, ReadMembers;
    var s, behind := Join(texts, ",") + "]" + rest, Behind(texts, "]", rest);
    FirstAndBehind(texts, "]", rest);
    assert ReadsAs(texts[0], ds[0]);
    assert ReadValue(texts[0] + behind) == Some((ds[0], behind));
    if |texts| == 1 {
      assert behind == "]" + rest && behind[1..] == rest;
      assert ds == [ds[0]];
    } else {
      AfterFirst(",", Join(texts[1..], ",") + "]" + rest);
      ItemsRead(texts[1..], ds[1..], rest);
      assert ds == [ds[0]] + ds[1..];
    }
  }

  lemma ListReads(texts: seq<string>, ds: seq<Doc>)
    requires TextsFit(texts, ds) && forall i | 0 <= i < |texts| :: ReadsAs(texts[i], ds[i])
    ensures ReadsAs("[" + Join(texts, ",") + "]", Array(ds))
  {
    hide ReadValue;
    var text := "[" + Join(texts, ",") + "]";
    forall rest | Delimited(rest) ensures ReadValue(text + rest) == Some((Array(ds), rest)) {
      Bracketed("[", Join(texts, ","), "]", rest);
      ListReadsBefore(texts, ds, rest);
    }
  }

  /** Only the empty list and the list of one null start with both brackets. */
  lemma BothBracketsIff(texts: seq<string>, ds: seq<Doc>, rest: string)
    requires TextsFit(texts, ds)
    ensures StartsWith("[" + Join(texts, ",") + "]" + rest, "[]") <==> ds == [] || ds == [DNull]
  {
    var inner := Join(texts, ",");
    var s := "[" + inner + "]" + rest;
    Bracketed("[", inner, "]", rest);
    assert s[..2] == [s[0], s[1]] && s[1] == (inner + "]" + rest)[0];
    if |texts| > 0 {
      FirstAndBehind(texts, "]", rest);
      HeadOf(texts[0], Behind(texts, "]", rest));
      assert |texts| > 1 ==> Behind(texts, "]", rest)[0] == ',';
      assert |texts| == 1 ==> Behind(texts, "]", rest)[0] == ']';
    }
  }

  lemma ListReadsBefore(texts: seq<string>, ds: seq<Doc>, rest: string)
    requires TextsFit(texts, ds) && forall i | 0 <= i < |texts| :: ReadsAs(texts[i], ds[i])
    ensures ReadValue("[" + Join(texts, ",") + "]" + rest) == Some((Array(ds), rest))
  {
    hide ReadItems, ReadMembers, ReadsAs;
    var s := "[" + Join(texts, ",") + "]" + rest;
    Bracketed("[", Join(texts, ","), "]", rest);
    BothBracketsIff(texts, ds, rest);
    assert s[0] == '[';
    assert |s| >= 4 ==> s[..4][0] == s[0];
    assert |s| >= 5 ==> s[..5][0] == s[0];
    if ds == [] || ds == [DNull] {
      assert Join(texts, ",") == "";
      assert s == "[]" + rest && s[2..] == rest;
    } else {
      assert s[1..] == Join(texts, ",") + "]" + rest;
      ItemsRead(texts, ds, rest);
    }
  }

  // ----- objects -----

  /** What the entries show, under their own keys. */
  function Shown(es: seq<Entry>, m: map<string, Doc>): map<string, Doc>
    requires KeysIn(es, m)
  {
    map k | k in m && !KeyFree(es, k) :: m[k]
  }

  predicate Ascending(es: seq<Entry>) { forall i | 0 < i < |es| :: ComesBefore(es[i - 1].key, es[i].key) }

  lemma ShownSplits(es: seq<Entry>, m: map<string, Doc>)
    requires es != [] && KeysIn(es, m)
    ensures KeysIn(es[1..], m)
    ensures Shown(es, m) == Shown(es[1..], m)[es[0].key := m[es[0].key]]
  {
    assert forall i | 0 <= i < |es[1..]| :: es[1..][i] == es[i + 1];
    assert es == [es[0]] + es[1..];
    forall k | k in m
      ensures !KeyFree(es, k) <==> k == es[0].key || !KeyFree(es[1..], k)
    {
      if !KeyFree(es, k) {
        var i :| 0 <= i < |es| && es[i].key == k;
        assert i > 0 ==> es[1..][i - 1].key == k;
      }
      if !KeyFree(es[1..], k) {
        var i :| 0 <= i < |es[1..]| && es[1..][i].key == k;
        assert es[i + 1].key == k;
      }
    }
  }

  lemma MemberReads(e: Entry, behind: string)
    ensures var s := MemberText(e) + behind; s != "" && s[0] == '"' && Unquote(s[1..]) == Some((e.key, ":" + (e.text + behind)))
  {
    hide Unquote, Quote;
    MemberTextSplit(e, behind);
    QuotedAhead(e.key, ":" + (e.text + behind));
  }

  lemma {:induction false} MembersRead(es: seq<Entry>, m: map<string, Doc>, last: Option<string>, rest: string)
    requires es != [] && KeysIn(es, m) && Ascending(es) && (last.Some? ==> ComesBefore(last.value, es[0].key))
    requires forall i | 0 <= i < |es| :: ReadsAs(es[i].text, m[es[i].key])
    ensures ReadMembers(Join(MemberTexts(es), ",") + "}" + rest, last) == Some((Shown(es, m), rest))
    decreases |es|
  {
    hide ReadValue, ReadItems, Unquote, ComesBefore, MemberText;
    var texts := MemberTexts(es);
    var s, behind := Join(texts, ",") + "}" + rest, Behind(texts, "}", rest);
    FirstAndBehind(texts, "}", rest);
    MemberReads(es[0], behind);
    assert ReadsAs(es[0].text, m[es[0].key]);
    assert ReadValue(es[0].text + behind) == Some((m[es[0].key], behind));
    AfterFirst(":", es[0].text + behind);
    ShownSplits(es, m);
    if |es| == 1 {
      AfterFirst("}", rest);
      assert es[1..] == [] && Shown([], m) == map[];
    } else {
      assert texts[1..] == MemberTexts(es[1..]);
      AfterFirst(",", Join(texts[1..], ",") + "}" + rest);
      assert forall i | 0 <= i < |es[1..]| :: es[1..][i] == es[i + 1];
      MembersRead(es[1..], m, Some(es[0].key), rest);
    }
  }

  lemma SortedAscends(es: seq<Entry>)
    requires SortedKeys(es)
    ensures Ascending(es)
  {
    forall i | 0 < i < |es| ensures ComesBefore(es[i - 1].key, es[i].key) { LessIsComesBefore(es[i - 1].key, es[i].key); }
  }

  lemma ShownIsAll(es: seq<Entry>, m: map<string, Doc>)
    requires Shows(es, m)
    ensures KeysIn(es, m) && Shown(es, m) == m
  {
    forall k | k in m ensures !KeyFree(es, k) { var i :| 0 <= i < |es| && es[i].key == k; }
  }

  lemma ObjectReads(es: seq<Entry>, m: map<string, Doc>)
    requires SortedKeys(es) && Shows(es, m) && forall i | 0 <= i < |es| :: ReadsAs(es[i].text, m[es[i].key])
    ensures ReadsAs("{" + Join(MemberTexts(es), ",") + "}", DObj(m))
  {
    var inner := Join(MemberTexts(es), ",");
    SortedAscends(es);
    ShownIsAll(es, m);
    MembersStartWithQuote(es);
    hide ReadValue, ReadMembers, MemberTexts, Shown;
    forall rest | Delimited(rest) ensures ReadValue("{" + inner + "}" + rest) == Some((DObj(m), rest)) {
      if es == [] {
        assert m == map[] && inner == "";
        EmptyObjectReads(rest);
      } else {
        MembersRead(es, m, None, rest);
        BracesRead(inner, rest);
      }
    }
  }

  lemma EmptyObjectReads(rest: string)
    ensures ReadValue("{" + "" + "}" + rest) == Some((DObj(map[]), rest))
  {
    hide ReadMembers, ReadItems;
    var s := "{" + "" + "}" + rest;
    assert s == "{}" + rest && s[..2] == "{}" && s[2..] == rest && s[0] == '{';
    assert |s| >= 4 ==> s[..4][0] == s[0];
    assert |s| >= 5 ==> s[..5][0] == s[0];
  }

  /** Behind an opening brace the members are read. */
  lemma BracesRead(inner: string, rest: string)
    requires inner != "" && inner[0] == '"'
    ensures ReadValue("{" + inner + "}" + rest)
         == if ReadMembers(inner + "}" + rest, None).None? then None
            else Some((DObj(ReadMembers(inner + "}" + rest, None).value.0), ReadMembers(inner + "}" + rest, None).value.1))
  {
    hide ReadMembers, ReadItems;
    var s := "{" + inner + "}" + rest;
    Bracketed("{", inner, "}", rest);
    assert s[0] == '{' && s[..2] == [s[0], s[1]] && s[1] == '"';
    assert |s| >= 4 ==> s[..4][0] == s[0];
    assert |s| >= 5 ==> s[..5][0] == s[0];
  }

  // ----- all values -----

  /** The text of a value in front of a delimiter is read as what the value shows, and no further. */
  lemma {:induction false} StringifyReads(v: Json)
    requires WellFormed(v)
    ensures ReadsAs(Stringify(v), Visible(v))
    decreases v
  {
    match v
    case Undefined => NullReads();
    case Null => NullReads();
    case Bool(b) => BoolReads(b);
    case Num(text) => NumReads(text);
    case Str(s) => StringReads(s);
    case Arr(items) =>
      ItemFacts(items);
      forall i | 0 <= i < |items| ensures ReadsAs(Texts(items)[i], VisibleItems(items)[i]) { StringifyReads(items[i]); }
      ListReads(Texts(items), VisibleItems(items));
    case Obj(ms) =>
      EntriesShow(ms);
      forall i | 0 <= i < |ms| ensures ReadsAs(Entries(ms)[i].text, VisibleMembers(ms)[Entries(ms)[i].key]) { StringifyReads(ms[i].value); }
      SortedEntriesRead(Entries(ms), VisibleMembers(ms));
  }

  lemma SortedTextsRead(es: seq<Entry>, m: map<string, Doc>)
    requires DistinctEntries(es) && KeysIn(es, m) && forall i | 0 <= i < |es| :: ReadsAs(es[i].text, m[es[i].key])
    ensures KeysIn(SortByKey(es), m) && forall i | 0 <= i < |SortByKey(es)| :: ReadsAs(SortByKey(es)[i].text, m[SortByKey(es)[i].key])
  {
    hide ReadsAs;
    var sorted := SortByKey(es);
    forall i | 0 <= i < |sorted| ensures sorted[i].key in m && ReadsAs(sorted[i].text, m[sorted[i].key]) {
      assert sorted[i] in es;
      var j :| 0 <= j < |es| && es[j] == sorted[i];
    }
  }

  lemma SortedEntriesRead(es: seq<Entry>, m: map<string, Doc>)
    requires DistinctEntries(es) && Shows(es, m) && forall i | 0 <= i < |es| :: ReadsAs(es[i].text, m[es[i].key])
    ensures ReadsAs("{" + Join(MemberTexts(SortByKey(es)), ",") + "}", DObj(m))
  {
    hide ReadsAs;
    SortedShows(es, m);
    SortedTextsRead(es, m);
    ObjectReads(SortByKey(es), m);
  }

  /** So the whole canonical text of a value says exactly what the value shows. */
  lemma TextSaysTheValue(v: Json)
    requires WellFormed(v)
    ensures ReadValue(Stringify(v)) == Some((Visible(v), ""))
  {
    StringifyReads(v);
    assert Stringify(v) + "" == Stringify(v);
    assert Delimited("");
  }

  // ----- how characters are escaped -----

  /** Only quotes, backslashes and control characters are escaped, five of these by a letter. */
  lemma EscapesAreShort(c: char)
    ensures |EscapeChar(c)| == if c == '"' || c == '\\' || c == '\n' || c == '\r' || c == '\t' || c == '\U{0008}' || c == '\U{000C}' then 2
                               else if c < ' ' then 6 else 1
    ensures |EscapeChar(c)| == 1 ==> EscapeChar(c) == [c]
  {
  }
}

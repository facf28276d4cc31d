/**
 stableJsonStringify of server/auditLog.ts: JSON text with sorted keys, used inside record
 hashes. What the text determines, what it does not, and what survives the JSON column.
 */
module CanonicalJson {
  import opened Wrappers
  import opened Text

  /** A JavaScript value as metadata holds it; a finite number is given by its printed text. */
  datatype Json =
    | Undefined
    | Null
    | Bool(b: bool)
    | Num(text: string)
    | Str(s: string)
    | Arr(items: seq<Json>)
    | Obj(members: seq<Member>)

  datatype Member = Member(key: string, value: Json)

  // ----- well-formed values -----

  predicate NumberChar(c: char) { '0' <= c <= '9' || c == '-' || c == '+' || c == '.' || c == 'e' }

  predicate NumberText(s: string) { s != "" && forall i | 0 <= i < |s| :: NumberChar(s[i]) }

  predicate DistinctKeys(ms: seq<Member>) {
    forall i, j | 0 <= i < j < |ms| :: ms[i].key != ms[j].key
  }

  /** Number texts are number texts, and no object has a key twice. */
  predicate WellFormed(v: Json) {
    match v
    case Num(text) => NumberText(text)
    case Arr(items) => forall i | 0 <= i < |items| :: WellFormed(items[i])
    case Obj(ms) => DistinctKeys(ms) && forall i | 0 <= i < |ms| :: WellFormed(ms[i].value)
    case _ => true
  }

  // ----- quoting -----

  function HexDigit(n: nat): char
    requires n < 16
  {
    if n < 10 then ('0' as int + n) as char else ('a' as int + n - 10) as char
  }

  /** One character inside a JSON string literal. */
  function EscapeChar(c: char): (r: string)
    ensures r != ""
  {
    if c == '"' then "\\\""
    else if c == '\\' then "\\\\"
    else if c == '\U{0008}' then "\\b"
    else if c == '\U{000C}' then "\\f"
    else if c == '\n' then "\\n"
    else if c == '\r' then "\\r"
    else if c == '\t' then "\\t"
    else if (c as int) < 32 then ['\\', 'u', '0', '0', HexDigit(c as int / 16), HexDigit(c as int % 16)]
    else [c]
  }

  function Escape(s: string): string {
    if s == "" then "" else EscapeChar(s[0]) + Escape(s[1..])
  }

  function Quote(s: string): string { "\"" + Escape(s) + "\"" }

  function HexValue(c: char): int {
    if '0' <= c <= '9' then c as int - '0' as int
    else if 'a' <= c <= 'f' then c as int - 'a' as int + 10
    else -1
  }

  /** Reads one escaped character: the character and how much text it took. */
  function UnescapeChar(s: string): (r: Option<(char, nat)>)
    ensures r.Some? ==> 0 < r.value.1 <= |s|
  {
    if s == "" || s[0] == '"' then None
    else if s[0] != '\\' then Some((s[0], 1))
    else if |s| < 2 then None
    else if s[1] == '"' then Some(('"', 2))
    else if s[1] == '\\' then Some(('\\', 2))
    else if s[1] == 'b' then Some(('\U{0008}', 2))
    else if s[1] == 'f' then Some(('\U{000C}', 2))
    else if s[1] == 'n' then Some(('\n', 2))
    else if s[1] == 'r' then Some(('\r', 2))
    else if s[1] == 't' then Some(('\t', 2))
    else if s[1] == 'u' && |s| >= 6 && s[2] == s[3] == '0' && 0 <= HexValue(s[4]) && 0 <= HexValue(s[5]) then
      Some(((16 * HexValue(s[4]) + HexValue(s[5])) as char, 6))
    else None
  }

  /** Reads the rest of a string literal up to its closing quote. */
  function Unquote(s: string): (r: Option<(string, string)>)
    ensures r.Some? ==> |r.value.1| < |s|
  {
    if s != "" && s[0] == '"' then Some(("", s[1..]))
    else
      var c := UnescapeChar(s);
      if c.None? then None
      else
        var rest := Unquote(s[c.value.1..]);
        if rest.None? then None else Some(([c.value.0] + rest.value.0, rest.value.1))
  }

  lemma UnescapeEscaped(c: char, rest: string)
    ensures UnescapeChar(EscapeChar(c) + rest) == Some((c, |EscapeChar(c)|))
  {
    var e := EscapeChar(c);
    var s := e + rest;
    assert forall i | 0 <= i < |e| :: s[i] == e[i];
    if |e| == 6 {
      var n := c as int;
      assert n / 16 == 0 || n / 16 == 1;
      assert HexValue(HexDigit(n / 16)) == n / 16 && HexValue(HexDigit(n % 16)) == n % 16;
      assert 16 * (n / 16) + n % 16 == n;
    }
  }

  lemma UnquoteOne(c: char, tail: string, t: string, rest: string)
    requires Unquote(tail) == Some((t, rest))
    ensures Unquote(EscapeChar(c) + tail) == Some(([c] + t, rest))
  {
    var s := EscapeChar(c) + tail;
    UnescapeEscaped(c, tail);
    assert s[0] == EscapeChar(c)[0] != '"';
    assert s[|EscapeChar(c)|..] == tail;
  }

  lemma {:induction false} UnquoteQuoted(t: string, rest: string)
    ensures Unquote(Escape(t) + "\"" + rest) == Some((t, rest))
  {
    if t == "" {
      assert Escape(t) + "\"" + rest == "\"" + rest;
    } else {
      var tail := Escape(t[1..]) + "\"" + rest;
      UnquoteQuoted(t[1..], rest);
      UnquoteOne(t[0], tail, t[1..], rest);
      assert Escape(t) + "\"" + rest == EscapeChar(t[0]) + tail;
      assert t == [t[0]] + t[1..];
    }
  }

  // ----- sorting by key -----

  datatype Entry = Entry(key: string, text: string)

  /** The order of Array.prototype.sort on strings, by character. */
  predicate Less(a: string, b: string) {
    if a == "" then b != ""
    else if b == "" then false
    else if a[0] != b[0] then a[0] < b[0]
    else Less(a[1..], b[1..])
  }

  lemma {:induction false} LessTotal(a: string, b: string)
    ensures Less(a, b) || a == b || Less(b, a)
    ensures !(Less(a, b) && Less(b, a))
    ensures !Less(a, a)
  {
    if a != "" {
      LessTotal(a[1..], if b == "" then "" else b[1..]);
      if b != "" { assert a == [a[0]] + a[1..] && b == [b[0]] + b[1..]; }
    }
  }

  lemma {:induction false} LessTransitive(a: string, b: string, c: string)
    requires Less(a, b) && Less(b, c)
    ensures Less(a, c)
  {
    if a != "" && a[0] == b[0] && b[0] == c[0] {
      LessTransitive(a[1..], b[1..], c[1..]);
    }
  }

  predicate SortedKeys(es: seq<Entry>) {
    forall i, j | 0 <= i < j < |es| :: Less(es[i].key, es[j].key)
  }

  predicate KeyFree(es: seq<Entry>, key: string) { forall i | 0 <= i < |es| :: es[i].key != key }

  function Insert(e: Entry, es: seq<Entry>): (r: seq<Entry>)
    requires SortedKeys(es) && KeyFree(es, e.key)
    ensures SortedKeys(r)
    ensures forall x :: x in r <==> x == e || x in es
  {
    if es == [] then [e]
    else
      LessTotal(e.key, es[0].key);
      if Less(e.key, es[0].key) then
        assert SortedKeys([e] + es) by {
          forall j | 0 <= j < |es| ensures Less(e.key, es[j].key) {
            if j > 0 { LessTransitive(e.key, es[0].key, es[j].key); }
          }
        }
        [e] + es
      else
        var rest := Insert(e, es[1..]);
        assert es == [es[0]] + es[1..];
        assert SortedKeys([es[0]] + rest) by {
          forall j | 0 <= j < |rest| ensures Less(es[0].key, rest[j].key) {
            assert rest[j] in rest;
            if rest[j] != e {
              var i :| 0 <= i < |es[1..]| && es[1..][i] == rest[j];
              assert es[i + 1] == rest[j];
            }
          }
        }
        [es[0]] + rest
  }

  predicate DistinctEntries(es: seq<Entry>) {
    forall i, j | 0 <= i < j < |es| :: es[i].key != es[j].key
  }

  function SortByKey(es: seq<Entry>): (r: seq<Entry>)
    requires DistinctEntries(es)
    ensures SortedKeys(r)
    ensures forall x :: x in r <==> x in es
  {
    if es == [] then []
    else
      assert es == [es[0]] + es[1..];
      var rest := SortByKey(es[1..]);
      assert KeyFree(rest, es[0].key) by {
        forall i | 0 <= i < |rest| ensures rest[i].key != es[0].key {
          assert rest[i] in rest;
          var j :| 0 <= j < |es[1..]| && es[1..][j] == rest[i];
          assert es[j + 1] == rest[i];
        }
      }
      Insert(es[0], rest)
  }

  /** The first entry is the only one with the smallest key. */
  lemma HeadIsLeast(a: seq<Entry>, x: Entry)
    requires SortedKeys(a) && a != [] && x in a
    ensures x == a[0] || (Less(a[0].key, x.key) && x in a[1..])
    ensures a[0] !in a[1..]
  {
    LessTotal(a[0].key, a[0].key);
    assert a == [a[0]] + a[1..];
    assert forall i | 0 <= i < |a[1..]| :: Less(a[0].key, a[1..][i].key);
  }

  lemma SameTails(a: seq<Entry>, b: seq<Entry>)
    requires SortedKeys(a) && SortedKeys(b) && a != [] && b != [] && a[0] == b[0]
    requires forall x :: x in a <==> x in b
    ensures forall x :: x in a[1..] <==> x in b[1..]
  {
    HeadIsLeast(a, a[0]);
    HeadIsLeast(b, b[0]);
    assert a == [a[0]] + a[1..] && b == [b[0]] + b[1..];
    forall x
      ensures x in a[1..] <==> x in b[1..]
    {
      if x in a[1..] { assert x in a; }
      if x in b[1..] { assert x in b; }
    }
  }

  /** A key-sorted list is determined by its entries. */
  lemma {:induction false} SortedUnique(a: seq<Entry>, b: seq<Entry>)
    requires SortedKeys(a) && SortedKeys(b)
    requires forall x :: x in a <==> x in b
    ensures a == b
  {
    EmptyOrInhabited(a);
    EmptyOrInhabited(b);
    if a != [] {
      assert a[0] in b && b[0] in a;
      LessTotal(a[0].key, b[0].key);
      HeadIsLeast(a, b[0]);
      HeadIsLeast(b, a[0]);
      SameTails(a, b);
      SortedUnique(a[1..], b[1..]);
      assert a == [a[0]] + a[1..] && b == [b[0]] + b[1..];
    }
  }

  // ----- the canonical text -----

  function MemberText(e: Entry): string { Quote(e.key) + ":" + e.text }

  function MemberTexts(es: seq<Entry>): (r: seq<string>)
    ensures |r| == |es| && forall i | 0 <= i < |es| :: r[i] == MemberText(es[i])
  {
    seq(|es|, i requires 0 <= i < |es| => MemberText(es[i]))
  }

  function Texts(items: seq<Json>): (r: seq<string>)
    requires forall i | 0 <= i < |items| :: WellFormed(items[i])
    ensures |r| == |items| && forall i | 0 <= i < |items| :: r[i] == Stringify(items[i])
    decreases items, 1
  {
    seq(|items|, i requires 0 <= i < |items| => Stringify(items[i]))
  }

  function Entries(ms: seq<Member>): (r: seq<Entry>)
    requires forall i | 0 <= i < |ms| :: WellFormed(ms[i].value)
    ensures |r| == |ms| && forall i | 0 <= i < |ms| :: r[i] == Entry(ms[i].key, Stringify(ms[i].value))
    decreases ms, 1
  {
    seq(|ms|, i requires 0 <= i < |ms| => Entry(ms[i].key, Stringify(ms[i].value)))
  }

  /** stableJsonStringify */
  function Stringify(v: Json): string
    requires WellFormed(v)
    decreases v, 0
  {
    match v
    case Undefined => ""
    case Null => ""
    case Bool(b) => if b then "true" else "false"
    case Num(text) => text
    case Str(s) => Quote(s)
    case Arr(items) => "[" + Join(Texts(items), ",") + "]"
    case Obj(ms) => "{" + Join(MemberTexts(SortByKey(Entries(ms))), ",") + "}"
  }

  // ----- what the text shows -----

  /** A value up to key order, with null for both null and undefined. */
  datatype Doc = DNull | DBool(b: bool) | DNum(text: string) | DStr(s: string) | DArr(items: seq<Doc>) | DObj(members: map<string, Doc>)

  /** [null] and [] are printed alike. */
  function Array(items: seq<Doc>): Doc { if items == [DNull] then DArr([]) else DArr(items) }

  function VisibleItems(items: seq<Json>): (r: seq<Doc>)
    requires forall i | 0 <= i < |items| :: WellFormed(items[i])
    ensures |r| == |items| && forall i | 0 <= i < |items| :: r[i] == Visible(items[i])
    decreases items, 1
  {
    seq(|items|, i requires 0 <= i < |items| => Visible(items[i]))
  }

  function VisibleMembers(ms: seq<Member>): (m: map<string, Doc>)
    requires DistinctKeys(ms) && forall i | 0 <= i < |ms| :: WellFormed(ms[i].value)
    ensures forall i | 0 <= i < |ms| :: ms[i].key in m && m[ms[i].key] == Visible(ms[i].value)
    ensures forall k | k in m :: exists i | 0 <= i < |ms| :: ms[i].key == k
    decreases ms, 1
  {
    map i | 0 <= i < |ms| :: ms[i].key := Visible(ms[i].value)
  }

  function Visible(v: Json): Doc
    requires WellFormed(v)
    decreases v, 0
  {
    match v
    case Undefined => DNull
    case Null => DNull
    case Bool(b) => DBool(b)
    case Num(text) => DNum(text)
    case Str(s) => DStr(s)
    case Arr(items) => Array(VisibleItems(items))
    case Obj(ms) => DObj(VisibleMembers(ms))
  }

  // ----- no text is the beginning of another -----

  predicate Delimiter(c: char) { c == ',' || c == ']' || c == '}' }

  predicate Delimited(rest: string) { rest == "" || Delimiter(rest[0]) }

  /** In front of delimiters, the two texts can only agree if they show the same and end together. */
  ghost predicate Separated(t1: string, d1: Doc, t2: string, d2: Doc) {
    forall r1, r2 | Delimited(r1) && Delimited(r2) && t1 + r1 == t2 + r2 :: d1 == d2 && r1 == r2
  }

  /** Only null and undefined print as nothing; otherwise the first character tells the kind. */
  lemma FirstCharacter(v: Json)
    requires WellFormed(v)
    ensures Stringify(v) == "" <==> v.Null? || v.Undefined?
    ensures Visible(v) == DNull <==> v.Null? || v.Undefined?
    ensures Stringify(v) != "" ==>
              var c := Stringify(v)[0];
              && !Delimiter(c)
              && (c == 't' || c == 'f' <==> v.Bool?) && (NumberChar(c) <==> v.Num?)
              && (c == '"' <==> v.Str?) && (c == '[' <==> v.Arr?) && (c == '{' <==> v.Obj?)
  {
    if v.Num? { assert NumberChar(v.text[0]); }
  }

  lemma HeadOf(t: string, r: string)
    ensures t != "" ==> (t + r)[0] == t[0]
    ensures t == "" ==> t + r == r
  {
  }

  lemma KindsSeparated(v: Json, w: Json)
    requires WellFormed(v) && WellFormed(w)
    requires v.Null? || v.Undefined? || w.Null? || w.Undefined? || v.Bool? != w.Bool? || v.Num? != w.Num?
             || v.Str? != w.Str? || v.Arr? != w.Arr? || v.Obj? != w.Obj?
    ensures Separated(Stringify(v), Visible(v), Stringify(w), Visible(w))
  {
    FirstCharacter(v);
    FirstCharacter(w);
    var t1, t2 := Stringify(v), Stringify(w);
    forall r1, r2 | Delimited(r1) && Delimited(r2) && t1 + r1 == t2 + r2
      ensures Visible(v) == Visible(w) && r1 == r2
    {
      HeadOf(t1, r1);
      HeadOf(t2, r2);
    }
  }

  /** How many number characters the text starts with. */
  function NumberSpan(s: string): (n: nat)
    ensures n <= |s|
  {
    if s != "" && NumberChar(s[0]) then 1 + NumberSpan(s[1..]) else 0
  }

  lemma {:induction false} SpanOfNumber(text: string, rest: string)
    requires (forall i | 0 <= i < |text| :: NumberChar(text[i])) && Delimited(rest)
    ensures NumberSpan(text + rest) == |text|
  {
    if text == "" {
      assert text + rest == rest;
    } else {
      SpanOfNumber(text[1..], rest);
      assert (text + rest)[1..] == text[1..] + rest;
    }
  }

  lemma NumbersSeparated(a: string, b: string)
    requires NumberText(a) && NumberText(b)
    ensures Separated(a, DNum(a), b, DNum(b))
  {
    forall r1, r2 | Delimited(r1) && Delimited(r2) && a + r1 == b + r2
      ensures a == b && r1 == r2
    {
      var s := a + r1;
      SpanOfNumber(a, r1);
      SpanOfNumber(b, r2);
      assert a == s[..|a|] && b == s[..|b|] && r1 == s[|a|..] && r2 == s[|b|..];
    }
  }

  /** Quoted texts end where they end. */
  lemma QuotesSeparated(a: string, b: string, r1: string, r2: string)
    requires Quote(a) + r1 == Quote(b) + r2
    ensures a == b && r1 == r2
  {
    assert (Quote(a) + r1)[1..] == Escape(a) + "\"" + r1;
    assert (Quote(b) + r2)[1..] == Escape(b) + "\"" + r2;
    UnquoteQuoted(a, r1);
    UnquoteQuoted(b, r2);
  }

  lemma BoolsSeparated(a: bool, b: bool)
    ensures Separated(Stringify(Bool(a)), DBool(a), Stringify(Bool(b)), DBool(b))
  {
    var t1, t2 := Stringify(Bool(a)), Stringify(Bool(b));
    forall r1, r2 | Delimited(r1) && Delimited(r2) && t1 + r1 == t2 + r2
      ensures a == b && r1 == r2
    {
      assert (t1 + r1)[0] == t1[0] && (t2 + r2)[0] == t2[0];
      assert r1 == (t1 + r1)[|t1|..] && r2 == (t2 + r2)[|t2|..];
    }
  }

  /** The separator or closing character behind the first of several texts, and what follows it. */
  function Behind(texts: seq<string>, close: string, rest: string): string
    requires texts != []
  {
    if |texts| == 1 then close + rest else "," + (Join(texts[1..], ",") + close + rest)
  }

  lemma FirstAndBehind(texts: seq<string>, close: string, rest: string)
    requires texts != []
    ensures Join(texts, ",") + close + rest == texts[0] + Behind(texts, close, rest)
  {
  }

  lemma {:induction false} ItemsSeparated(ta: seq<string>, da: seq<Doc>, tb: seq<string>, db: seq<Doc>, r1: string, r2: string)
    requires |ta| == |da| > 0 && |tb| == |db| > 0
    requires forall i, j | 0 <= i < |ta| && 0 <= j < |tb| :: Separated(ta[i], da[i], tb[j], db[j])
    requires Join(ta, ",") + "]" + r1 == Join(tb, ",") + "]" + r2
    ensures da == db && r1 == r2
  {
    FirstAndBehind(ta, "]", r1);
    FirstAndBehind(tb, "]", r2);
    var b1, b2 := Behind(ta, "]", r1), Behind(tb, "]", r2);
    assert Separated(ta[0], da[0], tb[0], db[0]);
    assert b1 == b2 && da[0] == db[0];
    assert b1[1..] == b2[1..];
    if |ta| == 1 {
      assert b1[0] == ']';
      assert |tb| == 1;
      assert b1[1..] == r1 && b2[1..] == r2;
    } else {
      assert b1[0] == ',';
      assert |tb| > 1;
      assert b1[1..] == Join(ta[1..], ",") + "]" + r1 && b2[1..] == Join(tb[1..], ",") + "]" + r2;
      ItemsSeparated(ta[1..], da[1..], tb[1..], db[1..], r1, r2);
      assert da == [da[0]] + da[1..] && db == [db[0]] + db[1..];
    }
  }

  /** Exactly the nulls print as nothing, and no text starts like the end of something. */
  predicate TextsFit(texts: seq<string>, ds: seq<Doc>) {
    && |texts| == |ds|
    && forall i | 0 <= i < |texts| :: (texts[i] == "" <==> ds[i] == DNull) && (texts[i] != "" ==> !Delimiter(texts[i][0]))
  }

  /** An empty list can only be taken for a list of one null. */
  lemma EmptyListSeparated(texts: seq<string>, ds: seq<Doc>, r1: string, r2: string)
    requires TextsFit(texts, ds)
    requires "]" + r1 == Join(texts, ",") + "]" + r2
    ensures (ds == [] || ds == [DNull]) && r1 == r2
  {
    var s := "]" + r1;
    assert s[0] == ']' && s[1..] == r1;
    if texts != [] {
      FirstAndBehind(texts, "]", r2);
      assert s == texts[0] + Behind(texts, "]", r2);
      HeadOf(texts[0], Behind(texts, "]", r2));
      assert texts[0] == "";
      assert Behind(texts, "]", r2) == s;
      assert |texts| == 1;
    } else {
      assert Join(texts, ",") + "]" + r2 == "]" + r2;
    }
  }

  lemma ItemFacts(items: seq<Json>)
    requires forall i | 0 <= i < |items| :: WellFormed(items[i])
    ensures TextsFit(Texts(items), VisibleItems(items))
  {
    forall i | 0 <= i < |items| { FirstCharacter(items[i]); }
  }

  lemma ArraysSeparated(a: seq<Json>, b: seq<Json>)
    requires WellFormed(Arr(a)) && WellFormed(Arr(b))
    requires forall i, j | 0 <= i < |a| && 0 <= j < |b| ::
               Separated(Texts(a)[i], VisibleItems(a)[i], Texts(b)[j], VisibleItems(b)[j])
    ensures Separated(Stringify(Arr(a)), Visible(Arr(a)), Stringify(Arr(b)), Visible(Arr(b)))
  {
    ItemFacts(a);
    ItemFacts(b);
    BracketsSeparated(Texts(a), VisibleItems(a), Texts(b), VisibleItems(b));
  }

  lemma BracketsSeparated(ta: seq<string>, da: seq<Doc>, tb: seq<string>, db: seq<Doc>)
    requires TextsFit(ta, da) && TextsFit(tb, db)
    requires forall i, j | 0 <= i < |ta| && 0 <= j < |tb| :: Separated(ta[i], da[i], tb[j], db[j])
    ensures Separated("[" + Join(ta, ",") + "]", Array(da), "[" + Join(tb, ",") + "]", Array(db))
  {
    forall r1, r2 | Delimited(r1) && Delimited(r2) && "[" + Join(ta, ",") + "]" + r1 == "[" + Join(tb, ",") + "]" + r2
      ensures Array(da) == Array(db) && r1 == r2
    {
      Bracketed("[", Join(ta, ","), "]", r1);
      Bracketed("[", Join(tb, ","), "]", r2);
      ListsSeparated(ta, da, tb, db, r1, r2);
    }
  }

  lemma ListsSeparated(ta: seq<string>, da: seq<Doc>, tb: seq<string>, db: seq<Doc>, r1: string, r2: string)
    requires TextsFit(ta, da) && TextsFit(tb, db)
    requires forall i, j | 0 <= i < |ta| && 0 <= j < |tb| :: Separated(ta[i], da[i], tb[j], db[j])
    requires Join(ta, ",") + "]" + r1 == Join(tb, ",") + "]" + r2
    ensures Array(da) == Array(db) && r1 == r2
  {
    if ta == [] {
      Bracketed("[", "", "]", r1);
      EmptyListSeparated(tb, db, r1, r2);
    } else if tb == [] {
      Bracketed("[", "", "]", r2);
      EmptyListSeparated(ta, da, r2, r1);
    } else {
      ItemsSeparated(ta, da, tb, db, r1, r2);
    }
  }

  /** What the entries of an object show under each key. */
  predicate Shows(es: seq<Entry>, m: map<string, Doc>) {
    && (forall i | 0 <= i < |es| :: es[i].key in m)
    && forall k | k in m :: exists i | 0 <= i < |es| :: es[i].key == k
  }

  ghost predicate EntriesSeparated(ea: seq<Entry>, ma: map<string, Doc>, eb: seq<Entry>, mb: map<string, Doc>)
    requires Shows(ea, ma) && Shows(eb, mb)
  {
    forall i, j | 0 <= i < |ea| && 0 <= j < |eb| :: Separated(ea[i].text, ma[ea[i].key], eb[j].text, mb[eb[j].key])
  }

  predicate KeysIn(es: seq<Entry>, m: map<string, Doc>) { forall i | 0 <= i < |es| :: es[i].key in m }

  lemma {:induction false} MembersSeparated(ea: seq<Entry>, ma: map<string, Doc>, eb: seq<Entry>, mb: map<string, Doc>, r1: string, r2: string)
    requires KeysIn(ea, ma) && KeysIn(eb, mb) && ea != [] && eb != []
    requires forall i, j | 0 <= i < |ea| && 0 <= j < |eb| :: Separated(ea[i].text, ma[ea[i].key], eb[j].text, mb[eb[j].key])
    requires Join(MemberTexts(ea), ",") + "}" + r1 == Join(MemberTexts(eb), ",") + "}" + r2
    ensures |ea| == |eb| && r1 == r2
    ensures forall i | 0 <= i < |ea| :: ea[i].key == eb[i].key && ma[ea[i].key] == mb[eb[i].key]
  {
    var ta, tb := MemberTexts(ea), MemberTexts(eb);
    FirstAndBehind(ta, "}", r1);
    FirstAndBehind(tb, "}", r2);
    var b1, b2 := Behind(ta, "}", r1), Behind(tb, "}", r2);
    MemberSeparated(ea[0], ma[ea[0].key], eb[0], mb[eb[0].key], b1, b2);
    assert b1[1..] == b2[1..];
    if |ea| == 1 {
      assert b1[0] == '}';
      assert |eb| == 1;
      assert b1[1..] == r1 && b2[1..] == r2;
    } else {
      assert b1[0] == ',';
      assert |eb| > 1;
      assert ta[1..] == MemberTexts(ea[1..]) && tb[1..] == MemberTexts(eb[1..]);
      assert b1[1..] == Join(ta[1..], ",") + "}" + r1 && b2[1..] == Join(tb[1..], ",") + "}" + r2;
      MembersSeparated(ea[1..], ma, eb[1..], mb, r1, r2);
      assert forall i | 1 <= i < |ea| :: ea[i] == ea[1..][i - 1] && eb[i] == eb[1..][i - 1];
    }
  }

  lemma MemberSeparated(x: Entry, dx: Doc, y: Entry, dy: Doc, b1: string, b2: string)
    requires Separated(x.text, dx, y.text, dy) && Delimited(b1) && Delimited(b2)
    requires MemberText(x) + b1 == MemberText(y) + b2
    ensures x.key == y.key && dx == dy && b1 == b2
  {
    MemberTextSplit(x, b1);
    MemberTextSplit(y, b2);
    QuotesSeparated(x.key, y.key, ":" + (x.text + b1), ":" + (y.text + b2));
    AfterFirst(":", x.text + b1);
    AfterFirst(":", y.text + b2);
  }

  lemma MemberTextSplit(x: Entry, b: string)
    ensures MemberText(x) + b == Quote(x.key) + (":" + (x.text + b))
  {
  }

  lemma AfterFirst(c: string, t: string)
    requires |c| == 1
    ensures (c + t)[1..] == t && (c + t)[0] == c[0]
  {
  }

  lemma Bracketed(open: string, inner: string, close: string, r: string)
    requires |open| == 1 && |close| == 1
    ensures (open + inner + close + r)[1..] == inner + close + r
    ensures inner == "" ==> inner + close + r == close + r
    ensures (inner + close + r)[0] == if inner == "" then close[0] else inner[0]
  {
  }

  lemma BracesSeparated(ea: seq<Entry>, ma: map<string, Doc>, eb: seq<Entry>, mb: map<string, Doc>)
    requires Shows(ea, ma) && Shows(eb, mb) && EntriesSeparated(ea, ma, eb, mb)
    ensures Separated("{" + Join(MemberTexts(ea), ",") + "}", DObj(ma), "{" + Join(MemberTexts(eb), ",") + "}", DObj(mb))
  {
    var ja, jb := Join(MemberTexts(ea), ","), Join(MemberTexts(eb), ",");
    MembersStartWithQuote(ea);
    MembersStartWithQuote(eb);
    forall r1, r2 | Delimited(r1) && Delimited(r2) && "{" + ja + "}" + r1 == "{" + jb + "}" + r2
      ensures ma == mb && r1 == r2
    {
      Bracketed("{", ja, "}", r1);
      Bracketed("{", jb, "}", r2);
      if ea == [] || eb == [] {
        AfterFirst("}", r1);
        AfterFirst("}", r2);
        assert ma == map[] && mb == map[];
      } else {
        MembersSeparated(ea, ma, eb, mb, r1, r2);
        SameShown(ea, ma, eb, mb);
      }
    }
  }

  lemma MembersStartWithQuote(es: seq<Entry>)
    ensures var inner := Join(MemberTexts(es), ",");
            if es == [] then inner == "" else inner != "" && inner[0] == '"'
  {
    if es != [] { HeadOf(MemberTexts(es)[0], if |es| == 1 then "" else "," + Join(MemberTexts(es)[1..], ",")); }
  }

  lemma SameShown(ea: seq<Entry>, ma: map<string, Doc>, eb: seq<Entry>, mb: map<string, Doc>)
    requires Shows(ea, ma) && Shows(eb, mb) && |ea| == |eb|
    requires forall i | 0 <= i < |ea| :: ea[i].key == eb[i].key && ma[ea[i].key] == mb[eb[i].key]
    ensures ma == mb
  {
    forall k
      ensures k in ma <==> k in mb
      ensures k in ma && k in mb ==> ma[k] == mb[k]
    {
      if k in ma { var i :| 0 <= i < |ea| && ea[i].key == k; }
      if k in mb { var i :| 0 <= i < |eb| && eb[i].key == k; }
    }
  }

  lemma EntriesShow(ms: seq<Member>)
    requires WellFormed(Obj(ms))
    ensures DistinctEntries(Entries(ms)) && Shows(Entries(ms), VisibleMembers(ms))
  {
    var es, m := Entries(ms), VisibleMembers(ms);
    forall k | k in m
      ensures exists i | 0 <= i < |es| :: es[i].key == k
    {
      var i :| 0 <= i < |ms| && ms[i].key == k;
      assert es[i].key == k;
    }
  }

  lemma SortedShows(es: seq<Entry>, m: map<string, Doc>)
    requires DistinctEntries(es) && Shows(es, m)
    ensures Shows(SortByKey(es), m)
  {
    var sorted := SortByKey(es);
    forall i | 0 <= i < |sorted|
      ensures sorted[i].key in m
    {
      assert sorted[i] in es;
      var j :| 0 <= j < |es| && es[j] == sorted[i];
    }
    forall k | k in m
      ensures exists i | 0 <= i < |sorted| :: sorted[i].key == k
    {
      var j :| 0 <= j < |es| && es[j].key == k;
      assert es[j] in sorted;
    }
  }

  lemma SortedSeparated(ea: seq<Entry>, ma: map<string, Doc>, eb: seq<Entry>, mb: map<string, Doc>)
    requires DistinctEntries(ea) && DistinctEntries(eb) && Shows(ea, ma) && Shows(eb, mb)
    requires EntriesSeparated(ea, ma, eb, mb)
    ensures Shows(SortByKey(ea), ma) && Shows(SortByKey(eb), mb)
    ensures EntriesSeparated(SortByKey(ea), ma, SortByKey(eb), mb)
  {
    SortedShows(ea, ma);
    SortedShows(eb, mb);
    var sa, sb := SortByKey(ea), SortByKey(eb);
    forall i, j | 0 <= i < |sa| && 0 <= j < |sb|
      ensures Separated(sa[i].text, ma[sa[i].key], sb[j].text, mb[sb[j].key])
    {
      assert sa[i] in ea && sb[j] in eb;
      var x :| 0 <= x < |ea| && ea[x] == sa[i];
      var y :| 0 <= y < |eb| && eb[y] == sb[j];
      assert Separated(ea[x].text, ma[ea[x].key], eb[y].text, mb[eb[y].key]);
    }
  }

  /** Canonical texts are separated: none is the beginning of another that shows something else. */
  lemma {:induction false} TextsSeparated(v: Json, w: Json)
    requires WellFormed(v) && WellFormed(w)
    ensures Separated(Stringify(v), Visible(v), Stringify(w), Visible(w))
    decreases v
  {
    if v.Arr? && w.Arr? {
      forall i, j | 0 <= i < |v.items| && 0 <= j < |w.items|
        ensures Separated(Texts(v.items)[i], VisibleItems(v.items)[i], Texts(w.items)[j], VisibleItems(w.items)[j])
      {
        TextsSeparated(v.items[i], w.items[j]);
      }
      ArraysSeparated(v.items, w.items);
    } else if v.Obj? && w.Obj? {
      EntriesShow(v.members);
      EntriesShow(w.members);
      var ea, eb := Entries(v.members), Entries(w.members);
      var ma, mb := VisibleMembers(v.members), VisibleMembers(w.members);
      forall i, j | 0 <= i < |ea| && 0 <= j < |eb|
        ensures Separated(ea[i].text, ma[ea[i].key], eb[j].text, mb[eb[j].key])
      {
        TextsSeparated(v.members[i].value, w.members[j].value);
      }
      SortedSeparated(ea, ma, eb, mb);
      BracesSeparated(SortByKey(ea), ma, SortByKey(eb), mb);
    } else if v.Num? && w.Num? {
      NumbersSeparated(v.text, w.text);
    } else if v.Bool? && w.Bool? {
      BoolsSeparated(v.b, w.b);
    } else if v.Str? && w.Str? {
      forall r1, r2 | Quote(v.s) + r1 == Quote(w.s) + r2 ensures v.s == w.s && r1 == r2 {
        QuotesSeparated(v.s, w.s, r1, r2);
      }
    } else {
      KindsSeparated(v, w);
    }
  }

  // ----- what the text determines -----

  lemma SameTexts(a: seq<string>, b: seq<string>)
    requires |a| == |b| && forall i | 0 <= i < |a| :: a[i] == b[i]
    ensures Join(a, ",") == Join(b, ",")
  {
    assert a == b;
  }

  /** Values that show the same print the same, whatever the order of their keys. */
  lemma {:induction false} SameVisibleSameText(v: Json, w: Json)
    requires WellFormed(v) && WellFormed(w) && Visible(v) == Visible(w)
    ensures Stringify(v) == Stringify(w)
    decreases v
  {
    FirstCharacter(v);
    FirstCharacter(w);
    match v
    case Arr(items) => ArraysPrintAlike(items, w.items);
    case Obj(ms) => ObjectsPrintAlike(ms, w.members);
    case _ =>
  }

  lemma {:induction false} ArraysPrintAlike(a: seq<Json>, b: seq<Json>)
    requires WellFormed(Arr(a)) && WellFormed(Arr(b)) && Visible(Arr(a)) == Visible(Arr(b))
    ensures Stringify(Arr(a)) == Stringify(Arr(b))
    decreases a
  {
    var da, db := VisibleItems(a), VisibleItems(b);
    if da == db {
      forall i | 0 <= i < |a| ensures Texts(a)[i] == Texts(b)[i] {
        assert da[i] == db[i];
        SameVisibleSameText(a[i], b[i]);
      }
      SameTexts(Texts(a), Texts(b));
    } else {
      forall i | 0 <= i < |a| { FirstCharacter(a[i]); }
      forall i | 0 <= i < |b| { FirstCharacter(b[i]); }
      OneNullOrEmpty(a, b);
      OneNullOrEmpty(b, a);
    }
  }

  lemma OneNullOrEmpty(a: seq<Json>, b: seq<Json>)
    requires WellFormed(Arr(a)) && WellFormed(Arr(b)) && Visible(Arr(a)) == Visible(Arr(b))
    requires VisibleItems(a) != VisibleItems(b)
    requires forall i | 0 <= i < |a| :: Stringify(a[i]) == "" <==> Visible(a[i]) == DNull
    ensures Join(Texts(a), ",") == ""
  {
    var da, db := VisibleItems(a), VisibleItems(b);
    assert Array(da) == Array(db);
    assert da == [DNull] || da == [];
    assert a != [] ==> da[0] == Visible(a[0]) && Texts(a)[0] == Stringify(a[0]);
  }

  predicate KeysAmong(a: seq<Entry>, b: seq<Entry>) {
    forall i | 0 <= i < |a| :: !KeyFree(b, a[i].key)
  }

  /** Every entry of one list is in the other. */
  lemma EntriesWithin(a: seq<Entry>, b: seq<Entry>, x: Entry)
    requires x in a && KeysAmong(a, b)
    requires forall i, j | 0 <= i < |a| && 0 <= j < |b| && a[i].key == b[j].key :: a[i] == b[j]
    ensures x in b
  {
    var i :| 0 <= i < |a| && a[i] == x;
    var j :| 0 <= j < |b| && b[j].key == a[i].key;
    assert b[j] == x;
  }

  lemma KeysWithin(a: seq<Entry>, b: seq<Entry>, m: map<string, Doc>)
    requires Shows(a, m) && Shows(b, m)
    ensures KeysAmong(a, b)
  {
    forall i | 0 <= i < |a|
      ensures !KeyFree(b, a[i].key)
    {
      var j :| 0 <= j < |b| && b[j].key == a[i].key;
    }
  }

  lemma SortsAlike(a: seq<Entry>, b: seq<Entry>)
    requires DistinctEntries(a) && DistinctEntries(b) && KeysAmong(a, b) && KeysAmong(b, a)
    requires forall i, j | 0 <= i < |a| && 0 <= j < |b| && a[i].key == b[j].key :: a[i] == b[j]
    ensures SortByKey(a) == SortByKey(b)
  {
    forall x
      ensures x in SortByKey(a) <==> x in SortByKey(b)
    {
      if x in a { EntriesWithin(a, b, x); }
      if x in b { EntriesWithin(b, a, x); }
    }
    SortedUnique(SortByKey(a), SortByKey(b));
  }

  lemma {:induction false} ObjectsPrintAlike(a: seq<Member>, b: seq<Member>)
    requires WellFormed(Obj(a)) && WellFormed(Obj(b)) && VisibleMembers(a) == VisibleMembers(b)
    ensures Stringify(Obj(a)) == Stringify(Obj(b))
    decreases a
  {
    var ea, eb := Entries(a), Entries(b);
    EntriesShow(a);
    EntriesShow(b);
    forall i, j | 0 <= i < |ea| && 0 <= j < |eb| && ea[i].key == eb[j].key
      ensures ea[i] == eb[j]
    {
      assert Visible(a[i].value) == VisibleMembers(a)[a[i].key];
      assert Visible(b[j].value) == VisibleMembers(b)[b[j].key];
      SameVisibleSameText(a[i].value, b[j].value);
    }
    KeysWithin(ea, eb, VisibleMembers(a));
    KeysWithin(eb, ea, VisibleMembers(a));
    SortsAlike(ea, eb);
  }

  /**
   Two values have the same canonical text exactly when they show the same: equal up to the
   order of keys, up to null for undefined, and up to [null] for [].
   */
  lemma SameTextIffSameVisible(v: Json, w: Json)
    requires WellFormed(v) && WellFormed(w)
    ensures Stringify(v) == Stringify(w) <==> Visible(v) == Visible(w)
  {
    TextsSeparated(v, w);
    if Stringify(v) == Stringify(w) { assert Stringify(v) + "" == Stringify(w) + ""; }
    if Visible(v) == Visible(w) { SameVisibleSameText(v, w); }
  }
}

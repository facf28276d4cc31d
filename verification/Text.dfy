/** The string operations of the JavaScript library that the modelled code calls. */
module Text {
  /** Whitespace as String.trim and \s see it. */
  predicate IsSpace(c: char) {
    || c == ' ' || c == '\t' || c == '\n' || c == '\r'
    || c == '\U{000B}' || c == '\U{000C}' || c == '\U{00A0}' || c == '\U{FEFF}' || c == '\U{1680}'
    || '\U{2000}' <= c <= '\U{200A}'
    || c == '\U{2028}' || c == '\U{2029}' || c == '\U{202F}' || c == '\U{205F}' || c == '\U{3000}'
  }

  predicate NoSpace(s: string) { forall i | 0 <= i < |s| :: !IsSpace(s[i]) }

  function TrimStart(s: string): (r: string)
    ensures NoSpace(s) ==> r == s
    ensures r == "" || !IsSpace(r[0])
  {
    if s != "" && IsSpace(s[0]) then TrimStart(s[1..]) else s
  }

  function TrimEnd(s: string): (r: string)
    ensures NoSpace(s) ==> r == s
  {
    if s != "" && IsSpace(s[|s| - 1]) then TrimEnd(s[..|s| - 1]) else s
  }

  function Trim(s: string): (r: string)
    ensures NoSpace(s) ==> r == s
  {
    TrimEnd(TrimStart(s))
  }

  predicate AllSpace(s: string) { forall i | 0 <= i < |s| :: IsSpace(s[i]) }

  lemma {:induction false} TrimStartDrops(a: string, m: string)
    requires AllSpace(a) && (m == "" || !IsSpace(m[0]))
    ensures TrimStart(a + m) == m
  {
    if a == "" {
      assert a + m == m;
    } else {
      assert (a + m)[0] == a[0] && (a + m)[1..] == a[1..] + m;
      TrimStartDrops(a[1..], m);
    }
  }

  lemma {:induction false} TrimEndDrops(m: string, b: string)
    requires AllSpace(b) && (m == "" || !IsSpace(m[|m| - 1]))
    ensures TrimEnd(m + b) == m
  {
    if b == "" {
      assert m + b == m;
    } else {
      var n := |b| - 1;
      assert (m + b)[..|m + b| - 1] == m + b[..n];
      TrimEndDrops(m, b[..n]);
    }
  }

  /** Trimming takes the white space around a text away, and nothing else. */
  lemma TrimDrops(a: string, m: string, b: string)
    requires AllSpace(a) && AllSpace(b) && (m == "" || (!IsSpace(m[0]) && !IsSpace(m[|m| - 1])))
    ensures Trim(a + m + b) == m
  {
    assert a + m + b == a + (m + b);
    if m == "" {
      assert a + (m + b) == (a + b) + "" && AllSpace(a + b);
      TrimStartDrops(a + b, "");
    } else {
      TrimStartDrops(a, m + b);
    }
    TrimEndDrops(m, b);
  }

  /** toLowerCase on the ASCII letters; other characters are kept. */
  function LowerChar(c: char): char {
    if 'A' <= c <= 'Z' then (c as int + 32) as char else c
  }

  function Lower(s: string): (r: string)
    ensures |r| == |s|
    ensures forall i | 0 <= i < |s| :: r[i] == LowerChar(s[i])
  {
    seq(|s|, i requires 0 <= i < |s| => LowerChar(s[i]))
  }

  /** Capital letters become the small ones of the same place; nothing else changes. */
  lemma LowerOfLetters(i: nat)
    requires i < 26
    ensures LowerChar(('A' as int + i) as char) == ('a' as int + i) as char
    ensures forall c: char | c < 'A' || 'Z' < c :: LowerChar(c) == c
  {
  }

  function IndexFrom(s: string, c: char, from: nat): (k: int)
    requires from <= |s|
    ensures k == -1 || from <= k < |s|
    ensures k == -1 ==> forall i | from <= i < |s| :: s[i] != c
    ensures k >= 0 ==> s[k] == c && forall i | from <= i < k :: s[i] != c
    decreases |s| - from
  {
    if from == |s| then -1
    else if s[from] == c then from
    else IndexFrom(s, c, from + 1)
  }

  /** indexOf for one character. */
  function IndexOf(s: string, c: char): (k: int)
    ensures -1 <= k < |s|
    ensures k == -1 ==> forall i | 0 <= i < |s| :: s[i] != c
    ensures k >= 0 ==> s[k] == c && forall i | 0 <= i < k :: s[i] != c
  {
    IndexFrom(s, c, 0)
  }

  function LastIndexTo(s: string, c: char, to: nat): (k: int)
    requires to <= |s|
    ensures -1 <= k < to
    ensures k == -1 ==> forall i | 0 <= i < to :: s[i] != c
    ensures k >= 0 ==> s[k] == c && forall i | k < i < to :: s[i] != c
  {
    if to == 0 then -1
    else if s[to - 1] == c then to - 1
    else LastIndexTo(s, c, to - 1)
  }

  /** lastIndexOf for one character. */
  function LastIndexOf(s: string, c: char): (k: int)
    ensures -1 <= k < |s|
    ensures k == -1 ==> forall i | 0 <= i < |s| :: s[i] != c
    ensures k >= 0 ==> s[k] == c && forall i | k < i < |s| :: s[i] != c
  {
    LastIndexTo(s, c, |s|)
  }

  /** Removes every occurrence of one character. */
  function Without(s: string, c: char): (r: string)
    ensures forall i | 0 <= i < |r| :: r[i] != c
    ensures (forall i | 0 <= i < |s| :: s[i] != c) ==> r == s
  {
    if s == "" then ""
    else (if s[0] == c then "" else [s[0]]) + Without(s[1..], c)
  }

  lemma {:induction false} WithoutKeepsRest(s: string, c: char)
    ensures forall x :: x in Without(s, c) ==> x in s
  {
    if s != "" {
      WithoutKeepsRest(s[1..], c);
      assert s == [s[0]] + s[1..];
    }
  }

  function Join(parts: seq<string>, sep: string): string {
    if parts == [] then ""
    else if |parts| == 1 then parts[0]
    else parts[0] + sep + Join(parts[1..], sep)
  }

  /** split on one character. */
  function Split(s: string, c: char): (r: seq<string>)
    ensures r != []
    ensures c !in s ==> r == [s]
  {
    var k := IndexOf(s, c);
    if k == -1 then [s] else [s[..k]] + Split(s[k + 1..], c)
  }

  /** Splitting undoes joining when no part holds the separator. */
  lemma {:induction false} SplitJoin(parts: seq<string>, c: char)
    requires parts != []
    requires forall k | 0 <= k < |parts| :: c !in parts[k]
    ensures Split(Join(parts, [c]), c) == parts
  {
    var s := Join(parts, [c]);
    var k := IndexOf(s, c);
    if |parts| == 1 {
      assert k == -1;
    } else {
      var p := parts[0];
      assert s == p + [c] + Join(parts[1..], [c]);
      assert s[|p|] == c && s[..|p|] == p;
      assert forall i | 0 <= i < |p| :: s[i] == p[i];
      assert k == |p|;
      assert s[..k] == p && s[k + 1..] == Join(parts[1..], [c]);
      SplitJoin(parts[1..], c);
      assert parts == [p] + parts[1..];
    }
  }

  lemma {:induction false} JoinAppend(parts: seq<string>, last: string, sep: string)
    requires parts != []
    ensures Join(parts + [last], sep) == Join(parts, sep) + sep + last
  {
    if |parts| == 1 {
      assert (parts + [last])[1..] == [last];
    } else {
      assert (parts + [last])[1..] == parts[1..] + [last];
      JoinAppend(parts[1..], last, sep);
      assert parts[0] + sep + (Join(parts[1..], sep) + sep + last) == Join(parts, sep) + sep + last;
    }
  }
}

/** The runs of characters between white space: which characters of a text are neighbours, whatever the white space is. */
module TextRuns {
  import opened Text

  /** The text without its white space. */
  function WithoutSpace(s: string): string {
    if s == "" then "" else (if IsSpace(s[0]) then "" else [s[0]]) + WithoutSpace(s[1..])
  }

  /** One more character in front: it is white space, belongs to the first run, or is a run of its own. */
  function InFront(c: char, joins: bool, runs: seq<string>): (r: seq<string>)
    ensures !IsSpace(c) ==> r != []
  {
    if IsSpace(c) then runs
    else if joins && runs != [] then [[c] + runs[0]] + runs[1..]
    else [[c]] + runs
  }

  predicate SecondJoins(s: string) { |s| > 1 && !IsSpace(s[1]) }

  /** The maximal runs of characters that are no white space, in order. */
  function Runs(s: string): (r: seq<string>)
    ensures s != "" && !IsSpace(s[0]) ==> r != []
  {
    if s == "" then [] else InFront(s[0], SecondJoins(s), Runs(s[1..]))
  }

  lemma InFrontOfBoth(c: char, joins: bool, a: seq<string>, b: seq<string>)
    requires joins ==> a != []
    ensures InFront(c, joins, a + b) == InFront(c, joins, a) + b
  {
    if !IsSpace(c) && joins {
      assert (a + b)[0] == a[0] && (a + b)[1..] == a[1..] + b;
    }
  }

  /** White space separates: the runs are those before it and those behind it. */
  lemma {:induction false} RunsAround(a: string, c: char, b: string)
    requires IsSpace(c)
    ensures Runs(a + [c] + b) == Runs(a) + Runs(b)
  {
    var s := a + [c] + b;
    if a == "" {
      assert s[0] == c && s[1..] == b;
    } else {
      RunsAround(a[1..], c, b);
      assert s[1..] == a[1..] + [c] + b && s[0] == a[0] && s[1] == if |a| > 1 then a[1] else c;
      assert SecondJoins(s) == SecondJoins(a) && (SecondJoins(a) ==> Runs(a[1..]) != []);
      InFrontOfBoth(a[0], SecondJoins(a), Runs(a[1..]), Runs(b));
    }
  }

  lemma {:induction false} RunOfWord(w: string)
    requires w != "" && NoSpace(w)
    ensures Runs(w) == [w]
  {
    if |w| == 1 {
      assert w[1..] == "" && w == [w[0]];
    } else {
      assert NoSpace(w[1..]);
      RunOfWord(w[1..]);
      assert w == [w[0]] + w[1..];
    }
  }

  lemma RunsBehindSpace(s: string)
    requires s != "" && IsSpace(s[|s| - 1])
    ensures Runs(s) == Runs(s[..|s| - 1])
  {
    RunsAround(s[..|s| - 1], s[|s| - 1], "");
    assert s == s[..|s| - 1] + [s[|s| - 1]] + "";
  }

  lemma {:induction false} RunsOfTrimStart(s: string)
    ensures Runs(TrimStart(s)) == Runs(s)
  {
    if s != "" && IsSpace(s[0]) { RunsOfTrimStart(s[1..]); }
  }

  lemma {:induction false} RunsOfTrimEnd(s: string)
    ensures Runs(TrimEnd(s)) == Runs(s)
  {
    if s != "" && IsSpace(s[|s| - 1]) {
      RunsBehindSpace(s);
      RunsOfTrimEnd(s[..|s| - 1]);
    }
  }

  /** The runs of several texts, one after the other. */
  function AllRuns(texts: seq<string>): seq<string> { if texts == [] then [] else Runs(texts[0]) + AllRuns(texts[1..]) }

  lemma {:induction false} AllRunsBoth(a: seq<string>, b: seq<string>)
    ensures AllRuns(a + b) == AllRuns(a) + AllRuns(b)
  {
    if a == [] {
      assert a + b == b;
    } else {
      assert (a + b)[1..] == a[1..] + b;
      AllRunsBoth(a[1..], b);
    }
  }

  lemma AllRunsOne(t: string)
    ensures AllRuns([t]) == Runs(t)
  {
    assert [t][1..] == [] && AllRuns([]) == [];
  }

  /** Texts joined by white space keep their runs. */
  lemma {:induction false} RunsOfJoined(texts: seq<string>, c: char)
    requires IsSpace(c)
    ensures Runs(Join(texts, [c])) == AllRuns(texts)
  {
    if |texts| == 1 {
      AllRunsOne(texts[0]);
    } else if |texts| > 1 {
      RunsOfJoined(texts[1..], c);
      RunsAround(texts[0], c, Join(texts[1..], [c]));
    }
  }

  lemma CutAt(s: string, k: nat)
    requires k < |s|
    ensures s == s[..k] + [s[k]] + s[k + 1..]
  {
  }

  lemma {:induction false} RunsOfSplit(s: string, c: char)
    requires IsSpace(c)
    ensures AllRuns(Split(s, c)) == Runs(s)
    decreases |s|
  {
    hide Runs, AllRuns;
    var k := Text.IndexOf(s, c);
    if k == -1 {
      AllRunsOne(s);
    } else {
      CutAt(s, k);
      RunsOfSplit(s[k + 1..], c);
      RunsAround(s[..k], c, s[k + 1..]);
      AllRunsOne(s[..k]);
      AllRunsBoth([s[..k]], Split(s[k + 1..], c));
    }
  }

  // ----- the characters -----

  lemma {:induction false} WithoutSpaceBoth(a: string, b: string)
    ensures WithoutSpace(a + b) == WithoutSpace(a) + WithoutSpace(b)
  {
    if a == "" {
      assert a + b == b;
    } else {
      assert (a + b)[1..] == a[1..] + b;
      WithoutSpaceBoth(a[1..], b);
    }
  }

  /** The runs hold all characters but the white space, in order. */
  lemma {:induction false} RunsHoldTheText(s: string)
    ensures Join(Runs(s), "") == WithoutSpace(s)
  {
    if s != "" {
      RunsHoldTheText(s[1..]);
      var rest := Runs(s[1..]);
      if !IsSpace(s[0]) {
        if |s| > 1 && !IsSpace(s[1]) {
          JoinFirstLonger(s[0], rest);
        } else {
          JoinOneMore([s[0]], rest);
        }
      }
    }
  }

  lemma JoinFirstLonger(c: char, parts: seq<string>)
    requires parts != []
    ensures Join([[c] + parts[0]] + parts[1..], "") == [c] + Join(parts, "")
  {
    var more := [[c] + parts[0]] + parts[1..];
    assert more[1..] == parts[1..];
    if |parts| > 1 {
      assert ([c] + parts[0]) + "" + Join(parts[1..], "") == [c] + (parts[0] + "" + Join(parts[1..], ""));
    }
  }

  lemma JoinOneMore(t: string, parts: seq<string>)
    ensures Join([t] + parts, "") == t + Join(parts, "")
  {
    assert ([t] + parts)[1..] == parts;
    if parts == [] { assert [t] + parts == [t] && t + "" == t; } else { assert t + "" + Join(parts, "") == t + Join(parts, ""); }
  }

  lemma {:induction false} WithoutSpaceOfJoined(texts: seq<string>)
    ensures WithoutSpace(Join(texts, "")) == Join(AllRuns(texts), "")
  {
    if texts == [] {
    } else {
      WithoutSpaceOfJoined(texts[1..]);
      JoinOneMore(texts[0], texts[1..]);
      assert [texts[0]] + texts[1..] == texts;
      WithoutSpaceBoth(texts[0], Join(texts[1..], ""));
      RunsHoldTheText(texts[0]);
      JoinBoth(Runs(texts[0]), AllRuns(texts[1..]));
    }
  }

  lemma {:induction false} JoinBoth(a: seq<string>, b: seq<string>)
    ensures Join(a + b, "") == Join(a, "") + Join(b, "")
  {
    if a == [] {
      assert a + b == b;
    } else {
      JoinBoth(a[1..], b);
      JoinOneMore(a[0], a[1..] + b);
      JoinOneMore(a[0], a[1..]);
      assert a + b == [a[0]] + (a[1..] + b) && a == [a[0]] + a[1..];
    }
  }

  /** White space in the text is single spaces between other characters, or one at the end. */
  predicate Tidy(s: string) { forall k | 0 <= k < |s| && IsSpace(s[k]) :: s[k] == ' ' && k > 0 && !IsSpace(s[k - 1]) }

  lemma WordIsTidy(w: string)
    requires NoSpace(w)
    ensures Tidy(w)
  {
  }

  lemma TidyJoined(a: string, w: string)
    requires Tidy(a) && a != "" && !IsSpace(a[|a| - 1]) && NoSpace(w)
    ensures Tidy(a + " " + w)
  {
    var s := a + " " + w;
    assert forall k | 0 <= k < |a| :: s[k] == a[k];
    assert forall k | |a| < k < |s| :: s[k] == w[k - |a| - 1];
  }
}

/** The address parsers of server/clientIp.ts, and that they read back what section 2.2 of RFC 4291 prints. */
module IpAddress {
  import opened Wrappers
  import opened Bits
  import Text
  import opened Prefixes

  // ----- parseInt -----

  /** The value of a digit in any base up to 16, or -1. */
  function DigitValue(c: char): int {
    if '0' <= c <= '9' then c as int - '0' as int
    else if 'a' <= c <= 'f' then c as int - 'a' as int + 10
    else if 'A' <= c <= 'F' then c as int - 'A' as int + 10
    else -1
  }

  predicate IsDigit(c: char, radix: nat) { 0 <= DigitValue(c) < radix }

  predicate Digits(s: string, radix: nat) { forall i | 0 <= i < |s| :: IsDigit(s[i], radix) }

  function DigitSpan(s: string, radix: nat): (n: nat)
    ensures n <= |s| && Digits(s[..n], radix)
    ensures n < |s| ==> !IsDigit(s[n], radix)
  {
    if s == "" || !IsDigit(s[0], radix) then 0
    else
      var n := DigitSpan(s[1..], radix);
      assert s[..n + 1] == [s[0]] + s[1..][..n];
      n + 1
  }

  function DigitsValue(s: string, radix: nat): (n: int)
    requires Digits(s, radix)
    ensures n >= 0
  {
    if s == "" then 0 else radix * DigitsValue(s[..|s| - 1], radix) + DigitValue(s[|s| - 1])
  }

  /** parseInt(s, radix): None stands for NaN. */
  function ParseInt(s: string, radix: nat): Option<int> {
    var t := Text.TrimStart(s);
    var negative := t != "" && t[0] == '-';
    var u := if t != "" && (t[0] == '-' || t[0] == '+') then t[1..] else t;
    var v := if radix == 16 && |u| >= 2 && u[0] == '0' && (u[1] == 'x' || u[1] == 'X') then u[2..] else u;
    var n := DigitSpan(v, radix);
    if n == 0 then None
    else Some(if negative then -DigitsValue(v[..n], radix) else DigitsValue(v[..n], radix))
  }

  // ----- IPv4 -----

  /** Number(s), of which only integers and NaN are modelled, and parseInt(s, 16). */
  datatype Library = Library(number: string -> Option<int>, parseHex: string -> Option<int>)

  predicate InRange(n: Option<int>, max: int) { n.Some? && 0 <= n.value <= max }

  function Mapped(parts: seq<string>, f: string -> Option<int>): (r: seq<Option<int>>)
    ensures |r| == |parts| && forall i | 0 <= i < |parts| :: r[i] == f(parts[i])
  {
    seq(|parts|, i requires 0 <= i < |parts| => f(parts[i]))
  }

  function Values(ns: seq<Option<int>>): (r: seq<int>)
    requires forall i | 0 <= i < |ns| :: ns[i].Some?
    ensures |r| == |ns| && forall i | 0 <= i < |ns| :: r[i] == ns[i].value
  {
    seq(|ns|, i requires 0 <= i < |ns| => ns[i].value)
  }

  function ParseIPv4(js: Library, addr: string): (r: Option<seq<int>>)
    ensures r.Some? ==> |r.value| == 4 && Elements(r.value, 8)
  {
    var parts := Text.Split(addr, '.');
    var nums := Mapped(parts, js.number);
    if |parts| != 4 || exists i | 0 <= i < |nums| :: !InRange(nums[i], 255) then None
    else
      assert Pow2(8) == 256;
      Some(Values(nums))
  }

  // ----- IPv6 -----

  predicate PairAt(s: string, i: nat) { i + 1 < |s| && s[i] == ':' && s[i + 1] == ':' }

  function IndexOfPair(s: string, from: nat): (k: int)
    requires from <= |s|
    ensures k == -1 || (from <= k && PairAt(s, k))
    ensures k == -1 ==> forall i | from <= i < |s| :: !PairAt(s, i)
    ensures k >= 0 ==> forall i | from <= i < k :: !PairAt(s, i)
    decreases |s| - from
  {
    if from == |s| then -1
    else if PairAt(s, from) then from
    else IndexOfPair(s, from + 1)
  }

  /** split("::") */
  function SplitPair(s: string): (r: seq<string>)
    ensures |r| >= 1
  {
    var k := IndexOfPair(s, 0);
    if k == -1 then [s] else [s[..k]] + SplitPair(s[k + 2..])
  }

  const MAPPED_PREFIX: string := "::ffff:"

  predicate DottedDigits(s: string) {
    var parts := Text.Split(s, '.');
    |parts| == 4 && forall i | 0 <= i < 4 :: parts[i] != "" && Digits(parts[i], 10)
  }

  /** The text matches ^::ffff:(\d+\.\d+\.\d+\.\d+)$ in any case. */
  predicate IsMapped(addr: string) {
    |addr| >= 7 && Text.Lower(addr[..7]) == MAPPED_PREFIX && DottedDigits(addr[7..])
  }

  function Colons(half: string): seq<string> { if half == "" then [] else Text.Split(half, ':') }

  function Zeros(n: int): (r: seq<Option<int>>)
    ensures |r| == (if n < 0 then 0 else n) && forall i | 0 <= i < |r| :: r[i] == Some(0)
  {
    seq(if n < 0 then 0 else n, i => Some(0))
  }

  /** The groups left and right of so many zeros. */
  function ReadGroups(js: Library, left: seq<string>, zeros: int, right: seq<string>): (r: Option<seq<int>>)
    ensures r.Some? ==> |r.value| == 8 && Elements(r.value, 16)
  {
    var full := Mapped(left, js.parseHex) + Zeros(zeros) + Mapped(right, js.parseHex);
    if |full| != 8 || exists i | 0 <= i < |full| :: !InRange(full[i], 0xffff) then None
    else
      SixteenBits();
      Some(Values(full))
  }

  /** The groups of the parts around each double colon. */
  function ParseHalves(js: Library, halves: seq<string>): (r: Option<seq<int>>)
    requires halves != []
    ensures r.Some? ==> |r.value| == 8 && Elements(r.value, 16)
  {
    var left, right := Colons(halves[0]), if |halves| == 2 then Colons(halves[1]) else [];
    var missing := 8 - |left| - |right|;
    if |halves| > 2 || (|halves| == 1 && |left| != 8) || (|halves| == 2 && missing < 0) then None
    else ReadGroups(js, left, if |halves| == 2 then missing else 0, right)
  }

  /** The groups of an IPv4-mapped address, from its dotted part. */
  function ParseMapped(js: Library, dotted: string): (r: Option<seq<int>>)
    ensures r.Some? ==> |r.value| == 8 && Elements(r.value, 16)
  {
    var v4 := ParseIPv4(js, dotted);
    if v4.None? then None
    else
      var v := v4.value;
      SixteenBits();
      OrFillsLow(v[0], v[1], 8);
      OrFillsLow(v[2], v[3], 8);
      Some([0, 0, 0, 0, 0, 0xffff, Or(Shl(v[0], 8), v[1]), Or(Shl(v[2], 8), v[3])])
  }

  function ParseIPv6(js: Library, addr: string): (r: Option<seq<int>>)
    ensures r.Some? ==> |r.value| == 8 && Elements(r.value, 16)
  {
    if IsMapped(addr) then ParseMapped(js, addr[7..]) else ParseHalves(js, SplitPair(addr))
  }

  lemma SixteenBits()
    ensures Pow2(8) == 256 && Pow2(16) == 65536
  {
    assert Pow2(8) == 256;
    Pow2Adds(8, 8);
  }

  // ----- reading back -----

  /** One to four hexadecimal digits, in any case, leading zeros allowed. */
  predicate HexGroup(t: string) { 1 <= |t| <= 4 && Digits(t, 16) }

  predicate HexGroups(ts: seq<string>) { forall i | 0 <= i < |ts| :: HexGroup(ts[i]) }

  function GroupValue(t: string): int
    requires HexGroup(t)
  {
    DigitsValue(t, 16)
  }

  lemma {:induction false} AllDigits(s: string, radix: nat)
    requires Digits(s, radix)
    ensures DigitSpan(s, radix) == |s|
  {
    if s != "" { AllDigits(s[1..], radix); }
  }

  lemma SixteenTimes(k: nat)
    requires k > 0
    ensures Pow2(4 * k) == 16 * Pow2(4 * (k - 1))
  {
    Pow2Adds(4, 4 * (k - 1));
    assert Pow2(4) == 16;
  }

  lemma {:induction false} HexBound(t: string)
    requires Digits(t, 16)
    ensures 0 <= DigitsValue(t, 16) < Pow2(4 * |t|)
  {
    if t != "" {
      HexBound(t[..|t| - 1]);
      SixteenTimes(|t|);
    }
  }

  lemma DigitIsPlain(c: char)
    requires IsDigit(c, 16)
    ensures !Text.IsSpace(c) && c != '-' && c != '+' && c != 'x' && c != 'X' && c != ':' && c != '.'
  {
  }

  /** One to four hexadecimal digits are read as their value. */
  ghost predicate ReadsHex(js: Library) {
    forall t {:trigger js.parseHex(t)} | HexGroup(t) :: js.parseHex(t) == Some(GroupValue(t))
  }

  lemma GroupBound(t: string)
    requires HexGroup(t)
    ensures 0 <= GroupValue(t) <= 0xffff
  {
    HexBound(t);
    SixteenBits();
    Pow2Grows(4 * |t|, 16);
  }

  /** parseInt does. */
  lemma ParseIntReadsHex(t: string)
    requires HexGroup(t)
    ensures ParseInt(t, 16) == Some(GroupValue(t))
  {
    DigitIsPlain(t[0]);
    assert Text.TrimStart(t) == t;
    if |t| >= 2 { DigitIsPlain(t[1]); }
    AllDigits(t, 16);
    assert t[..|t|] == t;
  }

  lemma {:induction false} LeadingDigits(d: string, rest: string, radix: nat)
    requires Digits(d, radix) && (rest == "" || !IsDigit(rest[0], radix))
    ensures DigitSpan(d + rest, radix) == |d|
  {
    if d == "" {
      assert d + rest == rest;
    } else {
      assert (d + rest)[0] == d[0] && (d + rest)[1..] == d[1..] + rest;
      LeadingDigits(d[1..], rest, radix);
    }
  }

  predicate Sign(s: string) { s == "" || s == "+" || s == "-" }

  lemma SignedDigits(sign: string, d: string, rest: string)
    requires Sign(sign) && Digits(d, 10) && (rest == "" || !IsDigit(rest[0], 10))
    requires d != "" || sign != "" || rest == "" || (!Text.IsSpace(rest[0]) && rest[0] != '+' && rest[0] != '-')
    ensures var t := sign + d + rest;
            && (t == "" || !Text.IsSpace(t[0]))
            && var u := if t != "" && (t[0] == '-' || t[0] == '+') then t[1..] else t;
               u == d + rest && ((t != "" && t[0] == '-') <==> sign == "-")
  {
    var t := sign + d + rest;
    assert t == sign + (d + rest);
    if sign != "" { assert t[1..] == d + rest; } else { assert t == d + rest; }
    if d != "" { assert (d + rest)[0] == d[0] && IsDigit(d[0], 10); }
  }

  /**
   In base ten parseInt skips white space, takes a sign and the digits behind it, and ignores the
   rest; without a digit there it gives NaN.
   */
  lemma ParseIntReadsDecimal(space: string, sign: string, d: string, rest: string)
    requires Text.AllSpace(space) && Sign(sign) && Digits(d, 10) && (rest == "" || !IsDigit(rest[0], 10))
    requires d != "" || sign != "" || rest == "" || (!Text.IsSpace(rest[0]) && rest[0] != '+' && rest[0] != '-')
    ensures ParseInt(space + (sign + d + rest), 10)
         == if d == "" then None else Some(if sign == "-" then -DigitsValue(d, 10) else DigitsValue(d, 10))
  {
    hide *;
    var t, u := sign + d + rest, d + rest;
    SignedDigits(sign, d, rest);
    Text.TrimStartDrops(space, t);
    LeadingDigits(d, rest, 10);
    assert u[..|d|] == d;
    ParseTrimmed(space + t, t, u, d, sign == "-");
  }

  lemma ParseTrimmed(s: string, t: string, u: string, d: string, negative: bool)
    requires Text.TrimStart(s) == t && negative == (t != "" && t[0] == '-') && Digits(d, 10)
    requires u == (if t != "" && (t[0] == '-' || t[0] == '+') then t[1..] else t) && DigitSpan(u, 10) == |d| && u[..|d|] == d
    ensures ParseInt(s, 10) == if d == "" then None else Some(if negative then -DigitsValue(d, 10) else DigitsValue(d, 10))
  {
  }

  lemma {:induction false} Pow2Grows(m: nat, n: nat)
    requires m <= n
    ensures Pow2(m) <= Pow2(n)
  {
    if m < n { Pow2Grows(m, n - 1); }
  }

  lemma GroupIsPlain(t: string)
    requires HexGroup(t)
    ensures forall i | 0 <= i < |t| :: t[i] != ':' && t[i] != '.'
  {
    forall i | 0 <= i < |t| ensures t[i] != ':' && t[i] != '.' { DigitIsPlain(t[i]); }
  }

  /** No two colons in a row, none at either end, and no dot. */
  predicate Clean(s: string) {
    && (forall i | 0 <= i < |s| :: !PairAt(s, i) && s[i] != '.')
    && (s != "" ==> s[0] != ':' && s[|s| - 1] != ':')
  }

  lemma CleanJoin(a: string, b: string)
    requires Clean(a) && Clean(b) && a != "" && b != ""
    ensures Clean(a + ":" + b)
  {
    var s := a + ":" + b;
    assert forall i | 0 <= i < |a| :: s[i] == a[i];
    assert forall i | 0 <= i < |b| :: s[|a| + 1 + i] == b[i];
    forall i | 0 <= i < |s|
      ensures !PairAt(s, i) && s[i] != '.'
    {
      if i < |a| {
        assert !PairAt(a, i) && a[i] != '.';
      } else if i > |a| {
        assert !PairAt(b, i - |a| - 1) && b[i - |a| - 1] != '.';
      }
    }
  }

  lemma {:induction false} JoinedGroupsClean(ts: seq<string>)
    requires HexGroups(ts)
    ensures Clean(Text.Join(ts, ":"))
    ensures Text.Join(ts, ":") == "" <==> ts == []
  {
    if ts != [] {
      GroupIsPlain(ts[0]);
      if |ts| > 1 {
        JoinedGroupsClean(ts[1..]);
        CleanJoin(ts[0], Text.Join(ts[1..], ":"));
      }
    }
  }

  lemma ColonsOfJoined(ts: seq<string>)
    requires HexGroups(ts)
    ensures Colons(Text.Join(ts, ":")) == ts
  {
    JoinedGroupsClean(ts);
    if ts != [] {
      forall k | 0 <= k < |ts| ensures ':' !in ts[k] { GroupIsPlain(ts[k]); }
      Text.SplitJoin(ts, ':');
    }
  }

  lemma NoDotNotMapped(addr: string)
    requires forall i | 0 <= i < |addr| :: addr[i] != '.'
    ensures !IsMapped(addr)
  {
    if |addr| >= 7 {
      assert forall i | 0 <= i < |addr[7..]| :: addr[7..][i] != '.';
      assert |Text.Split(addr[7..], '.')| == 1;
    }
  }

  function ZeroGroups(n: nat): (r: seq<int>)
    ensures |r| == n && forall i | 0 <= i < n :: r[i] == 0
  {
    seq(n, i => 0)
  }

  function GroupValues(ts: seq<string>): (r: seq<int>)
    requires HexGroups(ts)
    ensures |r| == |ts| && forall i | 0 <= i < |ts| :: r[i] == GroupValue(ts[i])
  {
    seq(|ts|, i requires 0 <= i < |ts| => GroupValue(ts[i]))
  }

  /** Joined with colons, the texts come apart again, and they are read as the values. */
  ghost predicate Readable(js: Library, ts: seq<string>, vs: seq<int>) {
    && Clean(Text.Join(ts, ":")) && Colons(Text.Join(ts, ":")) == ts
    && ReadAs(js, ts, vs)
  }

  predicate ReadAs(js: Library, ts: seq<string>, vs: seq<int>) {
    |vs| == |ts| && forall i | 0 <= i < |ts| :: js.parseHex(ts[i]) == Some(vs[i]) && 0 <= vs[i] <= 0xffff
  }

  lemma GroupsReadable(js: Library, ts: seq<string>)
    requires ReadsHex(js) && HexGroups(ts)
    ensures Readable(js, ts, GroupValues(ts))
  {
    JoinedGroupsClean(ts);
    ColonsOfJoined(ts);
    forall i | 0 <= i < |ts|
      ensures js.parseHex(ts[i]) == Some(GroupValues(ts)[i]) && 0 <= GroupValues(ts)[i] <= 0xffff
    {
      GroupBound(ts[i]);
    }
  }

  lemma GroupsReadAs(js: Library, l: seq<string>, lv: seq<int>, zeros: nat, r: seq<string>, rv: seq<int>)
    requires ReadAs(js, l, lv) && ReadAs(js, r, rv) && |l| + zeros + |r| == 8
    ensures ReadGroups(js, l, zeros, r) == Some(lv + ZeroGroups(zeros) + rv)
  {
    var full, gs := Mapped(l, js.parseHex) + Zeros(zeros) + Mapped(r, js.parseHex), lv + ZeroGroups(zeros) + rv;
    forall i | 0 <= i < 8
      ensures InRange(full[i], 0xffff) && full[i].value == gs[i]
    {
      if i < |l| {
        assert full[i] == js.parseHex(l[i]);
      } else if i >= |l| + zeros {
        assert full[i] == js.parseHex(r[i - |l| - zeros]);
      }
    }
    assert Values(full) == gs;
  }

  lemma ReadableFull(js: Library, ts: seq<string>, vs: seq<int>)
    requires Readable(js, ts, vs) && |ts| == 8
    ensures ParseIPv6(js, Text.Join(ts, ":")) == Some(vs)
  {
    var s := Text.Join(ts, ":");
    assert !IsMapped(s) by { NoDotNotMapped(s); }
    assert SplitPair(s) == [s];
    assert ParseHalves(js, [s]) == ReadGroups(js, ts, 0, []);
    GroupsReadAs(js, ts, vs, 0, [], []);
    assert vs + ZeroGroups(0) + [] == vs;
  }

  /** Eight groups written out are read back. */
  lemma FullForm(js: Library, ts: seq<string>)
    requires ReadsHex(js) && HexGroups(ts) && |ts| == 8
    ensures ParseIPv6(js, Text.Join(ts, ":")) == Some(GroupValues(ts))
  {
    GroupsReadable(js, ts);
    ReadableFull(js, ts, GroupValues(ts));
  }

  lemma SplitAtOnlyPair(a: string, b: string)
    requires Clean(a) && Clean(b)
    ensures SplitPair(a + "::" + b) == [a, b]
  {
    var s := a + "::" + b;
    assert forall i | 0 <= i < |a| :: s[i] == a[i];
    assert PairAt(s, |a|);
    forall i | 0 <= i < |a| ensures !PairAt(s, i) { assert !PairAt(a, i); }
    assert IndexOfPair(s, 0) == |a|;
    assert s[..|a|] == a && s[|a| + 2..] == b;
    assert IndexOfPair(b, 0) == -1;
  }

  lemma HalvesAreGroups(js: Library, a: string, b: string)
    requires |Colons(a)| + |Colons(b)| <= 8
    ensures ParseHalves(js, [a, b]) == ReadGroups(js, Colons(a), 8 - |Colons(a)| - |Colons(b)|, Colons(b))
  {
  }

  lemma HalvesReadAs(js: Library, a: string, lv: seq<int>, b: string, rv: seq<int>, gs: seq<int>)
    requires ReadAs(js, Colons(a), lv) && ReadAs(js, Colons(b), rv) && |lv| + |rv| <= 8
    requires gs == lv + ZeroGroups(8 - |lv| - |rv|) + rv
    ensures ParseHalves(js, [a, b]) == Some(gs)
  {
    assert |Colons(a)| == |lv| && |Colons(b)| == |rv|;
    HalvesAreGroups(js, a, b);
    GroupsReadAs(js, Colons(a), lv, 8 - |lv| - |rv|, Colons(b), rv);
  }

  lemma AroundDoubleColon(js: Library, a: string, b: string, gs: seq<int>)
    requires Clean(a) && Clean(b) && ParseHalves(js, [a, b]) == Some(gs)
    ensures ParseIPv6(js, a + "::" + b) == Some(gs)
  {
    CleanNotMapped(a, b);
    SplitAtOnlyPair(a, b);
  }

  lemma ReadableAround(js: Library, l: seq<string>, lv: seq<int>, r: seq<string>, rv: seq<int>, gs: seq<int>)
    requires Readable(js, l, lv) && Readable(js, r, rv) && |l| + |r| <= 8 && gs == lv + ZeroGroups(8 - |l| - |r|) + rv
    ensures ParseIPv6(js, Text.Join(l, ":") + "::" + Text.Join(r, ":")) == Some(gs)
  {
    HalvesReadAs(js, Text.Join(l, ":"), lv, Text.Join(r, ":"), rv, gs);
    AroundDoubleColon(js, Text.Join(l, ":"), Text.Join(r, ":"), gs);
  }

  /** Two runs of groups around a double colon are read back with the zeros between them. */
  lemma CompressedForm(js: Library, l: seq<string>, r: seq<string>)
    requires ReadsHex(js) && HexGroups(l) && HexGroups(r) && |l| + |r| <= 8
    ensures ParseIPv6(js, Text.Join(l, ":") + "::" + Text.Join(r, ":"))
         == Some(GroupValues(l) + ZeroGroups(8 - |l| - |r|) + GroupValues(r))
  {
    GroupsReadable(js, l);
    GroupsReadable(js, r);
    ReadableAround(js, l, GroupValues(l), r, GroupValues(r), GroupValues(l) + ZeroGroups(8 - |l| - |r|) + GroupValues(r));
  }

  lemma CleanNotMapped(a: string, b: string)
    requires Clean(a) && Clean(b)
    ensures !IsMapped(a + "::" + b)
  {
    var s := a + "::" + b;
    forall i | 0 <= i < |s| ensures s[i] != '.' {
      if i < |a| { assert s[i] == a[i]; }
      if i >= |a| + 2 { assert s[i] == b[i - |a| - 2]; }
    }
    NoDotNotMapped(s);
  }

  // ----- printing -----

  function HexChar(n: nat): char
    requires n < 16
  {
    if n < 10 then ('0' as int + n) as char else ('a' as int + n - 10) as char
  }

  function HexText(n: nat): string { if n < 16 then [HexChar(n)] else HexText(n / 16) + [HexChar(n % 16)] }

  lemma {:induction false} HexTextReadsBack(n: nat, k: nat)
    requires n < Pow2(4 * k) && k > 0
    ensures 1 <= |HexText(n)| <= k && Digits(HexText(n), 16) && DigitsValue(HexText(n), 16) == n
  {
    var s := HexText(n);
    if n < 16 {
      assert s[..0] == "";
    } else {
      SixteenTimes(k);
      assert k > 1 by { assert Pow2(0) == 1; }
      HexTextReadsBack(n / 16, k - 1);
      assert s[..|s| - 1] == HexText(n / 16);
    }
  }

  function HexTexts(gs: seq<int>): (r: seq<string>)
    requires Elements(gs, 16)
    ensures |r| == |gs| && forall i | 0 <= i < |gs| :: r[i] == HexText(gs[i])
  {
    seq(|gs|, i requires 0 <= i < |gs| => HexText(gs[i]))
  }

  lemma HexTextsReadBack(gs: seq<int>)
    requires Elements(gs, 16)
    ensures HexGroups(HexTexts(gs)) && GroupValues(HexTexts(gs)) == gs
  {
    forall i | 0 <= i < |gs|
      ensures HexGroup(HexTexts(gs)[i]) && GroupValue(HexTexts(gs)[i]) == gs[i]
    {
      HexTextReadsBack(gs[i], 4);
    }
  }

  /** The text of an address whose run of len zeros from start on is written as a double colon. */
  function Print(gs: seq<int>, start: nat, len: nat): string
    requires |gs| == 8 && Elements(gs, 16) && start + len <= 8
  {
    if len == 0 then Text.Join(HexTexts(gs), ":")
    else Text.Join(HexTexts(gs[..start]), ":") + "::" + Text.Join(HexTexts(gs[start + len..]), ":")
  }

  lemma HexTextsReadable(js: Library, gs: seq<int>)
    requires ReadsHex(js) && Elements(gs, 16)
    ensures Readable(js, HexTexts(gs), gs)
  {
    HexTextsReadBack(gs);
    GroupsReadable(js, HexTexts(gs));
  }

  lemma ZeroRun(gs: seq<int>, start: nat, len: nat)
    requires start + len <= |gs| && forall i | start <= i < start + len :: gs[i] == 0
    ensures gs == gs[..start] + ZeroGroups(len) + gs[start + len..]
  {
  }

  /** Whatever run of zeros is shortened, or none, the address is read back. */
  lemma PrintParse(js: Library, gs: seq<int>, start: nat, len: nat)
    requires ReadsHex(js) && |gs| == 8 && Elements(gs, 16) && start + len <= 8
    requires forall i | start <= i < start + len :: gs[i] == 0
    ensures ParseIPv6(js, Print(gs, start, len)) == Some(gs)
  {
    hide Pow2, HexText, HexTexts, Readable, ReadsHex, ParseIPv6, Text.Join;
    if len == 0 {
      HexTextsReadable(js, gs);
      ReadableFull(js, HexTexts(gs), gs);
    } else {
      var l, r := gs[..start], gs[start + len..];
      HexTextsReadable(js, l);
      HexTextsReadable(js, r);
      ZeroRun(gs, start, len);
      ReadableAround(js, HexTexts(l), l, HexTexts(r), r, gs);
    }
  }

  // ----- IPv4 and IPv4-mapped addresses -----

  /** Number reads decimal digits as everyone does. */
  ghost predicate ReadsDigits(js: Library) {
    forall s {:trigger js.number(s)} | s != "" && Digits(s, 10) :: js.number(s) == Some(DigitsValue(s, 10))
  }

  predicate Octets(ds: seq<string>) {
    |ds| == 4 && forall i | 0 <= i < 4 :: ds[i] != "" && Digits(ds[i], 10) && DigitsValue(ds[i], 10) <= 255
  }

  lemma OctetHasNoDot(d: string)
    requires Digits(d, 10)
    ensures '.' !in d
  {
    forall i | 0 <= i < |d| ensures d[i] != '.' { assert IsDigit(d[i], 10); }
  }

  lemma SplitOctets(ds: seq<string>)
    requires Octets(ds)
    ensures Text.Split(Text.Join(ds, "."), '.') == ds && DottedDigits(Text.Join(ds, "."))
  {
    forall k | 0 <= k < 4 ensures '.' !in ds[k] { OctetHasNoDot(ds[k]); }
    Text.SplitJoin(ds, '.');
  }

  lemma MappedOctets(js: Library, ds: seq<string>)
    requires ReadsDigits(js) && Octets(ds)
    ensures forall i | 0 <= i < 4 :: InRange(Mapped(ds, js.number)[i], 255) && Mapped(ds, js.number)[i] == Some(DigitsValue(ds[i], 10))
  {
  }

  function OctetValues(ds: seq<string>): seq<int>
    requires Octets(ds)
  {
    [DigitsValue(ds[0], 10), DigitsValue(ds[1], 10), DigitsValue(ds[2], 10), DigitsValue(ds[3], 10)]
  }

  /** Four decimal numbers up to 255 with dots between them are read back. */
  lemma DottedForm(js: Library, ds: seq<string>)
    requires ReadsDigits(js) && Octets(ds)
    ensures ParseIPv4(js, Text.Join(ds, ".")) == Some(OctetValues(ds))
  {
    SplitOctets(ds);
    MappedOctets(js, ds);
    assert Values(Mapped(ds, js.number)) == OctetValues(ds);
  }

  /** Texts of decimal digits with dots between them are an address exactly if there are four and none is above 255. */
  lemma DottedIff(js: Library, ds: seq<string>)
    requires ReadsDigits(js) && ds != [] && forall i | 0 <= i < |ds| :: ds[i] != "" && Digits(ds[i], 10)
    ensures ParseIPv4(js, Text.Join(ds, ".")).Some? <==> |ds| == 4 && forall i | 0 <= i < 4 :: DigitsValue(ds[i], 10) <= 255
  {
    forall k | 0 <= k < |ds| ensures '.' !in ds[k] { OctetHasNoDot(ds[k]); }
    Text.SplitJoin(ds, '.');
    forall k | 0 <= k < |ds| ensures InRange(js.number(ds[k]), 255) <==> DigitsValue(ds[k], 10) <= 255 { OctetInRangeIff(js, ds[k]); }
    hide DigitsValue, InRange, Digits, Text.Split, Text.Join, ParseIPv4;
    PartsAreOctetsIff(js, Text.Join(ds, "."), ds);
  }

  lemma PartsAreOctetsIff(js: Library, s: string, parts: seq<string>)
    requires Text.Split(s, '.') == parts
    ensures ParseIPv4(js, s).Some? <==> |parts| == 4 && forall i | 0 <= i < 4 :: InRange(js.number(parts[i]), 255)
  {
    hide InRange, Text.Split;
    var nums := Mapped(parts, js.number);
    assert forall i | 0 <= i < |parts| :: nums[i] == js.number(parts[i]);
  }

  lemma OctetInRangeIff(js: Library, d: string)
    requires ReadsDigits(js) && d != "" && Digits(d, 10)
    ensures InRange(js.number(d), 255) <==> DigitsValue(d, 10) <= 255
  {
  }

  /** Groups of hexadecimal digits with single colons between them are an address exactly if there are eight. */
  lemma ColonsIff(js: Library, ts: seq<string>)
    requires ReadsHex(js) && HexGroups(ts)
    ensures ParseIPv6(js, Text.Join(ts, ":")).Some? <==> |ts| == 8
  {
    var s := Text.Join(ts, ":");
    JoinedGroupsClean(ts);
    ColonsOfJoined(ts);
    NoDotNotMapped(s);
    assert SplitPair(s) == [s];
    if |ts| == 8 { FullForm(js, ts); }
  }

  /** Around one double colon there may be up to eight groups. */
  lemma AroundColonsIff(js: Library, l: seq<string>, r: seq<string>)
    requires ReadsHex(js) && HexGroups(l) && HexGroups(r)
    ensures ParseIPv6(js, Text.Join(l, ":") + "::" + Text.Join(r, ":")).Some? <==> |l| + |r| <= 8
  {
    var a, b := Text.Join(l, ":"), Text.Join(r, ":");
    JoinedGroupsClean(l);
    JoinedGroupsClean(r);
    ColonsOfJoined(l);
    ColonsOfJoined(r);
    if |l| + |r| <= 8 {
      CompressedForm(js, l, r);
    } else {
      CleanNotMapped(a, b);
      SplitAtOnlyPair(a, b);
      assert ParseHalves(js, [a, b]) == None;
    }
  }

  lemma MappedDotted(js: Library, prefix: string, dotted: string)
    requires |prefix| == 7 && Text.Lower(prefix) == MAPPED_PREFIX && DottedDigits(dotted)
    ensures ParseIPv6(js, prefix + dotted) == ParseMapped(js, dotted)
  {
    assert (prefix + dotted)[..7] == prefix && (prefix + dotted)[7..] == dotted;
  }

  /** The groups of ::ffff: followed by two more. */
  function MappedGroupsOf(high: int, low: int): (r: seq<int>)
    ensures |r| == 8
  {
    [0, 0, 0, 0, 0, 0xffff, high, low]
  }

  lemma MappedValues(js: Library, dotted: string, v: seq<int>, high: int, low: int)
    requires |v| == 4 && Elements(v, 8) && ParseIPv4(js, dotted) == Some(v)
    requires high == 256 * v[0] + v[1] && low == 256 * v[2] + v[3]
    ensures ParseMapped(js, dotted) == Some(MappedGroupsOf(high, low))
  {
    SixteenBits();
    OrFillsLow(v[0], v[1], 8);
    OrFillsLow(v[2], v[3], 8);
  }

  lemma FfffIsAll()
    ensures HexGroup("ffff") && GroupValue("ffff") == 0xffff
  {
    var t := "ffff";
    assert t[..3] == "fff" && "fff"[..2] == "ff" && "ff"[..1] == "f" && "f"[..0] == "";
    assert DigitsValue("f", 16) == 15;
    assert DigitsValue("ff", 16) == 255;
    assert DigitsValue("fff", 16) == 4095;
  }

  lemma JoinThree(a: string, b: string, c: string, sep: string)
    ensures Text.Join([a, b, c], sep) == a + sep + (b + sep + c)
  {
    assert [a, b, c][1..] == [b, c] && [b, c][1..] == [c];
    assert Text.Join([b, c], sep) == b + sep + c;
  }

  lemma HexAddress(high: string, low: string)
    ensures Text.Join([], ":") + "::" + Text.Join(["ffff", high, low], ":") == MAPPED_PREFIX + high + ":" + low
  {
    JoinThree("ffff", high, low, ":");
    assert "" + "::" + ("ffff" + ":" + (high + ":" + low)) == MAPPED_PREFIX + high + ":" + low;
  }

  lemma HexAddressValues(high: string, low: string)
    requires HexGroup(high) && HexGroup(low)
    ensures HexGroups(["ffff", high, low])
    ensures GroupValues([]) + ZeroGroups(5) + GroupValues(["ffff", high, low]) == MappedGroupsOf(GroupValue(high), GroupValue(low))
  {
    FfffIsAll();
  }

  lemma MappedHex(js: Library, high: string, low: string)
    requires ReadsHex(js) && HexGroup(high) && HexGroup(low)
    ensures ParseIPv6(js, MAPPED_PREFIX + high + ":" + low) == Some(MappedGroupsOf(GroupValue(high), GroupValue(low)))
  {
    HexAddressValues(high, low);
    HexAddress(high, low);
    CompressedForm(js, [], ["ffff", high, low]);
  }

  lemma MappedOctetsForm(js: Library, prefix: string, ds: seq<string>, high: int, low: int)
    requires ReadsDigits(js) && Octets(ds) && |prefix| == 7 && Text.Lower(prefix) == MAPPED_PREFIX
    requires var v := OctetValues(ds); high == 256 * v[0] + v[1] && low == 256 * v[2] + v[3]
    ensures ParseIPv6(js, prefix + Text.Join(ds, ".")) == Some(MappedGroupsOf(high, low))
  {
    var dotted := Text.Join(ds, ".");
    assert DottedDigits(dotted) by { SplitOctets(ds); }
    assert ParseIPv6(js, prefix + dotted) == ParseMapped(js, dotted) by { MappedDotted(js, prefix, dotted); }
    DottedForm(js, ds);
    OctetElements(ds);
    MappedValues(js, dotted, OctetValues(ds), high, low);
  }

  lemma OctetElements(ds: seq<string>)
    requires Octets(ds)
    ensures Elements(OctetValues(ds), 8)
  {
    SixteenBits();
  }

  /** The dotted form of a mapped address and its hexadecimal form are the same address. */
  lemma MappedFormAgrees(js: Library, prefix: string, ds: seq<string>, high: string, low: string)
    requires ReadsHex(js) && ReadsDigits(js) && Octets(ds) && |prefix| == 7 && Text.Lower(prefix) == MAPPED_PREFIX
    requires HexGroup(high) && GroupValue(high) == 256 * OctetValues(ds)[0] + OctetValues(ds)[1]
    requires HexGroup(low) && GroupValue(low) == 256 * OctetValues(ds)[2] + OctetValues(ds)[3]
    ensures ParseIPv6(js, MAPPED_PREFIX + high + ":" + low) == ParseIPv6(js, prefix + Text.Join(ds, "."))
  {
    MappedOctetsForm(js, prefix, ds, GroupValue(high), GroupValue(low));
    MappedHex(js, high, low);
  }
}

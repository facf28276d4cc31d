/** shared/email.ts: e-mail addresses compared up to case, "+" aliases and Gmail dots. */
module Email {
  import opened Wrappers
  import opened Text

  predicate DotInsensitive(domain: string) {
    domain == "gmail.com" || domain == "googlemail.com"
  }

  /** The local part without its "+" alias and, for Gmail, without dots. */
  function BaseLocal(local: string, domain: string): string {
    var plus := IndexOf(local, '+');
    var base := if plus >= 0 then local[..plus] else local;
    if DotInsensitive(domain) then Without(base, '.') else base
  }

  /** The steps after trimming and lower-casing. */
  function NormalizeLowered(t: string): Option<string> {
    var at := LastIndexOf(t, '@');
    if at <= 0 || at == |t| - 1 then None
    else
      var domain := t[at + 1..];
      var local := BaseLocal(t[..at], domain);
      if local == "" then None
      else Some(local + "@" + domain)
  }

  function NormalizeEmail(email: string): Option<string> {
    if email == "" then None else NormalizeLowered(Lower(Trim(email)))
  }

  predicate EmailsMatch(a: string, b: string) {
    NormalizeEmail(a).Some? && NormalizeEmail(a) == NormalizeEmail(b)
  }

  /** The text after the last "@", or the whole text: SUBSTRING_INDEX(s, '@', -1). */
  function AfterLastAt(s: string): string { s[LastIndexOf(s, '@') + 1..] }

  /** Equality under MySQL's case-insensitive collation, for ASCII without trailing blanks. */
  predicate SqlEq(a: string, b: string) { Lower(a) == Lower(b) }

  lemma LowerKeepsAt(s: string)
    ensures forall i | 0 <= i < |s| :: Lower(s)[i] == '@' <==> s[i] == '@'
    ensures LastIndexOf(Lower(s), '@') == LastIndexOf(s, '@')
    ensures IndexOf(Lower(s), '@') == IndexOf(s, '@')
  {
    var t := Lower(s);
    LastIndexOfAt(t, LastIndexOf(s, '@'));
    IndexOfAt(t, IndexOf(s, '@'));
  }

  lemma LastIndexOfAt(t: string, k: int)
    requires -1 <= k < |t|
    requires k >= 0 ==> t[k] == '@'
    requires forall i | k < i < |t| :: t[i] != '@'
    ensures LastIndexOf(t, '@') == k
  {
  }

  lemma IndexOfAt(t: string, k: int)
    requires -1 <= k < |t|
    requires k >= 0 ==> t[k] == '@'
    requires forall i | 0 <= i < (if k == -1 then |t| else k) :: t[i] != '@'
    ensures IndexOf(t, '@') == k
  {
  }

  lemma LowerSlice(s: string, lo: nat, hi: nat)
    requires lo <= hi <= |s|
    ensures Lower(s[lo..hi]) == Lower(s)[lo..hi]
  {
    assert forall i | 0 <= i < hi - lo :: Lower(s[lo..hi])[i] == Lower(s)[lo..hi][i];
  }

  lemma LowerTwice(s: string)
    ensures Lower(Lower(s)) == Lower(s)
  {
    assert forall i | 0 <= i < |s| :: Lower(Lower(s))[i] == Lower(s)[i];
  }

  /** Two texts split at their last "@" are equal only if both halves are. */
  lemma SplitAtLast(local1: string, domain1: string, local2: string, domain2: string)
    requires '@' !in domain1 && '@' !in domain2
    requires local1 + "@" + domain1 == local2 + "@" + domain2
    ensures local1 == local2 && domain1 == domain2
  {
    var t := local1 + "@" + domain1;
    LastIndexOfAt(t, |local1|);
    LastIndexOfAt(t, |local2|);
    assert t[..|local1|] == local1 && t[..|local2|] == local2;
    assert t[|local1| + 1..] == domain1 && t[|local2| + 1..] == domain2;
  }

  lemma NormalizeWithoutSpace(a: string)
    requires NoSpace(a)
    ensures NormalizeEmail(a) == NormalizeLowered(Lower(a))
  {
  }

  /** Normal forms of lower-cased addresses agree exactly on domain and base of the local part. */
  lemma SameNormalForm(s: string, t: string)
    requires NormalizeLowered(s).Some? && NormalizeLowered(s) == NormalizeLowered(t)
    ensures var ls, lt := LastIndexOf(s, '@'), LastIndexOf(t, '@');
            s[ls + 1..] == t[lt + 1..] && BaseLocal(s[..ls], s[ls + 1..]) == BaseLocal(t[..lt], t[lt + 1..])
  {
    var ls, lt := LastIndexOf(s, '@'), LastIndexOf(t, '@');
    var ds, dt := s[ls + 1..], t[lt + 1..];
    assert forall i | 0 <= i < |ds| :: ds[i] == s[i + ls + 1];
    assert forall i | 0 <= i < |dt| :: dt[i] == t[i + lt + 1];
    SplitAtLast(BaseLocal(s[..ls], ds), ds, BaseLocal(t[..lt], dt), dt);
  }

  lemma LowerAfterLastAt(a: string)
    ensures Lower(AfterLastAt(a)) == AfterLastAt(Lower(a))
  {
    LowerKeepsAt(a);
    LowerSlice(a, LastIndexOf(a, '@') + 1, |a|);
  }

  // ----- when two addresses match -----

  /** The steps after trimming and lower-casing leave an address: something on both sides of the last "@". */
  predicate Addressable(t: string) {
    var at := LastIndexOf(t, '@');
    0 < at < |t| - 1 && BaseLocal(t[..at], t[at + 1..]) != ""
  }

  function DomainOf(t: string): string { AfterLastAt(t) }

  function BaseOf(t: string): string
    requires LastIndexOf(t, '@') >= 0
  {
    BaseLocal(t[..LastIndexOf(t, '@')], DomainOf(t))
  }

  lemma NormalForm(t: string)
    ensures NormalizeLowered(t).Some? <==> Addressable(t)
    ensures Addressable(t) ==> NormalizeLowered(t) == Some(BaseOf(t) + "@" + DomainOf(t))
  {
  }

  lemma LoweredMatchIff(s: string, t: string)
    ensures NormalizeLowered(s).Some? && NormalizeLowered(s) == NormalizeLowered(t)
       <==> Addressable(s) && Addressable(t) && DomainOf(s) == DomainOf(t) && BaseOf(s) == BaseOf(t)
  {
    NormalForm(s);
    NormalForm(t);
    if NormalizeLowered(s).Some? && NormalizeLowered(s) == NormalizeLowered(t) { SameNormalForm(s, t); }
  }

  /** Two addresses match exactly when, trimmed and lower-cased, they agree in domain and base of the local part. */
  lemma EmailsMatchIff(a: string, b: string)
    ensures var s, t := Lower(Trim(a)), Lower(Trim(b));
            EmailsMatch(a, b) <==> Addressable(s) && Addressable(t) && DomainOf(s) == DomainOf(t) && BaseOf(s) == BaseOf(t)
  {
    var s, t := Lower(Trim(a)), Lower(Trim(b));
    LoweredMatchIff(s, t);
    EmptyIsNoAddress(a);
    EmptyIsNoAddress(b);
  }

  lemma EmptyIsNoAddress(a: string)
    ensures NormalizeEmail(a) == NormalizeLowered(Lower(Trim(a)))
  {
    if a == "" { assert Lower(Trim(a)) == ""; }
  }

  /** Matching addresses live in one domain. */
  lemma MatchMeansSameDomain(a: string, b: string)
    requires NoSpace(a) && NoSpace(b) && EmailsMatch(a, b)
    ensures SqlEq(AfterLastAt(a), AfterLastAt(b))
  {
    EmailsMatchIff(a, b);
    assert Trim(a) == a && Trim(b) == b;
    LowerAfterLastAt(a);
    LowerAfterLastAt(b);
  }

  // ----- aliases -----

  /** A "+" with any tag behind it is cut off again, or comes after an earlier one. */
  lemma BaseLocalIgnoresTag(l: string, tag: string, domain: string)
    ensures BaseLocal(l + "+" + tag, domain) == BaseLocal(l, domain)
  {
    var m := l + "+" + tag;
    var p, q := IndexOf(l, '+'), IndexOf(m, '+');
    assert m[|l|] == '+';
    assert forall i | 0 <= i < |l| :: m[i] == l[i];
    if p >= 0 {
      assert q == p;
      assert m[..p] == l[..p];
    } else {
      assert q == |l|;
      assert m[..|l|] == l;
    }
  }

  /** Text put in before the last "@" leaves it the last one. */
  lemma InsertBeforeAt(t: string, k: nat, x: string)
    requires k <= LastIndexOf(t, '@') && '@' !in x
    ensures var at, m := LastIndexOf(t, '@'), t[..k] + x + t[k..];
            && LastIndexOf(m, '@') == at + |x| && m[..at + |x|] == t[..k] + x + t[k..at] && m[at + |x| + 1..] == t[at + 1..]
  {
    var at, m := LastIndexOf(t, '@'), t[..k] + x + t[k..];
    assert forall i | k + |x| <= i < |m| :: m[i] == t[i - |x|];
    LastIndexOfAt(m, at + |x|);
  }

  lemma LowerInsert(t: string, k: nat, x: string)
    requires k <= |t|
    ensures Lower(t[..k] + x + t[k..]) == Lower(t)[..k] + Lower(x) + Lower(t)[k..]
  {
    var l, r := Lower(t[..k] + x + t[k..]), Lower(t)[..k] + Lower(x) + Lower(t)[k..];
    assert |l| == |r|;
    forall i | 0 <= i < |l| ensures l[i] == r[i] {}
  }

  /** The address with "+" and a tag put in before its last "@". */
  function Alias(a: string, tag: string): string
    requires LastIndexOf(a, '@') >= 0
  {
    a[..LastIndexOf(a, '@')] + ("+" + tag) + a[LastIndexOf(a, '@')..]
  }

  function EmptyAlias(a: string): string
    requires LastIndexOf(a, '@') >= 0
  {
    Alias(a, "")
  }

  lemma NoSpaceInsert(t: string, k: nat, x: string)
    requires k <= |t| && NoSpace(t) && NoSpace(x)
    ensures NoSpace(t[..k] + x + t[k..])
  {
  }

  lemma EmptyAliasChars(a: string)
    requires LastIndexOf(a, '@') >= 0
    ensures NoSpace(a) ==> NoSpace(EmptyAlias(a))
    ensures AfterLastAt(EmptyAlias(a)) == AfterLastAt(a)
  {
    InsertBeforeAt(a, LastIndexOf(a, '@'), "+");
    assert "+" + "" == "+";
  }

  lemma NormalizableHasAt(a: string)
    requires NoSpace(a) && NormalizeEmail(a).Some?
    ensures LastIndexOf(a, '@') >= 0
  {
    NormalizeWithoutSpace(a);
    LowerKeepsAt(a);
  }

  lemma LowerNoAt(x: string)
    requires '@' !in x
    ensures '@' !in Lower(x)
  {
    LowerKeepsAt(x);
  }

  /** The normal form depends on what stands after the last "@" and on the base of what stands before it. */
  lemma NormalizedByParts(m: string, p: nat, t: string, q: nat)
    requires LastIndexOf(m, '@') == p && LastIndexOf(t, '@') == q && 0 < q <= p
    requires m[p + 1..] == t[q + 1..] && BaseLocal(m[..p], t[q + 1..]) == BaseLocal(t[..q], t[q + 1..])
    ensures NormalizeLowered(m) == NormalizeLowered(t)
  {
    hide BaseLocal;
    assert |m| - (p + 1) == |t| - (q + 1);
  }

  lemma AliasOfLowered(t: string, tag: string)
    requires LastIndexOf(t, '@') > 0 && '@' !in tag
    ensures NormalizeLowered(Alias(t, tag)) == NormalizeLowered(t)
  {
    hide BaseLocal, NormalizeLowered;
    var at := LastIndexOf(t, '@');
    InsertBeforeAt(t, at, "+" + tag);
    assert t[..at] + ("+" + tag) + t[at..at] == t[..at] + "+" + tag;
    BaseLocalIgnoresTag(t[..at], tag, t[at + 1..]);
    NormalizedByParts(Alias(t, tag), at + 1 + |tag|, t, at);
  }

  lemma LowerOfAlias(a: string, tag: string)
    requires LastIndexOf(a, '@') >= 0
    ensures LastIndexOf(Lower(a), '@') == LastIndexOf(a, '@') && Lower(Alias(a, tag)) == Alias(Lower(a), Lower(tag))
  {
    LowerKeepsAt(a);
    LowerInsert(a, LastIndexOf(a, '@'), "+" + tag);
    assert Lower("+" + tag) == "+" + Lower(tag);
  }

  /** Any "+" alias is another spelling of the same mailbox. */
  lemma AliasMatches(a: string, tag: string)
    requires NoSpace(a) && NoSpace(tag) && '@' !in tag && NormalizeEmail(a).Some? && LastIndexOf(a, '@') >= 0
    ensures EmailsMatch(Alias(a, tag), a)
  {
    NormalizeWithoutSpace(a);
    LowerKeepsAt(a);
    assert LastIndexOf(Lower(a), '@') > 0;
    hide NormalizeLowered, NormalizeEmail;
    NoSpaceInsert(a, LastIndexOf(a, '@'), "+" + tag);
    NormalizeWithoutSpace(Alias(a, tag));
    LowerOfAlias(a, tag);
    LowerNoAt(tag);
    AliasOfLowered(Lower(a), Lower(tag));
  }

  // ----- dots -----

  lemma {:induction false} WithoutBoth(a: string, b: string, c: char)
    ensures Without(a + b, c) == Without(a, c) + Without(b, c)
  {
    if a == "" {
      assert a + b == b;
    } else {
      assert (a + b)[0] == a[0] && (a + b)[1..] == a[1..] + b;
      WithoutBoth(a[1..], b, c);
    }
  }

  lemma WithoutInserted(l: string, k: nat)
    requires k <= |l|
    ensures Without(l[..k] + "." + l[k..], '.') == Without(l, '.')
  {
    var a, b := l[..k], l[k..];
    assert l == a + b;
    assert Without(".", '.') == "" by { assert "."[1..] == ""; }
    assert Without(a + ".", '.') == Without(a, '.') by { WithoutBoth(a, ".", '.'); }
    WithoutBoth(a + ".", b, '.');
    WithoutBoth(a, b, '.');
  }

  /** A dot in the local part is ignored exactly for Gmail, or behind a "+". */
  lemma BaseLocalIgnoresDotIff(l: string, k: nat, domain: string)
    requires k <= |l|
    ensures BaseLocal(l[..k] + "." + l[k..], domain) == BaseLocal(l, domain)
       <==> DotInsensitive(domain) || 0 <= IndexOf(l, '+') < k
  {
    var m := l[..k] + "." + l[k..];
    var p, q := IndexOf(l, '+'), IndexOf(m, '+');
    assert forall i | 0 <= i < |m| :: m[i] == if i < k then l[i] else if i == k then '.' else l[i - 1];
    if 0 <= p < k {
      assert m[p] == '+' && q == p;
      assert m[..p] == l[..p];
    } else {
      var base := if p >= 0 then l[..p] else l;
      assert p >= 0 ==> m[p + 1] == '+';
      assert q == if p >= 0 then p + 1 else -1;
      assert (if q >= 0 then m[..q] else m) == base[..k] + "." + base[k..];
      WithoutInserted(base, k);
    }
  }

  /** A dot put into the local part of an address changes the mailbox unless it is Gmail's, or the dot stands in an alias. */
  lemma DotMatchesIff(a: string, k: nat)
    requires NoSpace(a) && NormalizeEmail(a).Some? && k <= LastIndexOf(a, '@')
    ensures EmailsMatch(a[..k] + "." + a[k..], a) <==> DotInsensitive(Lower(AfterLastAt(a))) || 0 <= IndexOf(a, '+') < k
  {
    var t := Lower(a);
    NoSpaceInsert(a, k, ".");
    NormalizeWithoutSpace(a);
    NormalizeWithoutSpace(a[..k] + "." + a[k..]);
    LowerInsert(a, k, ".");
    assert Lower(".") == ".";
    LowerKeepsAt(a);
    LowerAfterLastAt(a);
    DotOfLoweredIff(t, k);
    PlusOfLowered(a);
  }

  lemma PlusOfLowered(a: string)
    ensures IndexOf(Lower(a), '+') == IndexOf(a, '+')
  {
    assert forall i | 0 <= i < |a| :: Lower(a)[i] == '+' <==> a[i] == '+';
  }

  lemma DotOfLoweredIff(t: string, k: nat)
    requires NormalizeLowered(t).Some? && k <= LastIndexOf(t, '@')
    ensures NormalizeLowered(t[..k] + "." + t[k..]) == NormalizeLowered(t)
       <==> DotInsensitive(AfterLastAt(t)) || 0 <= IndexOf(t, '+') < k
  {
    hide BaseLocal, DotInsensitive;
    var at, m := LastIndexOf(t, '@'), t[..k] + "." + t[k..];
    var l, domain := t[..at], t[at + 1..];
    InsertBeforeAt(t, k, ".");
    InsertedBefore(t, at, k);
    BaseLocalIgnoresDotIff(l, k, domain);
    LoweredMatchIff(m, t);
    IndexOfPrefix(t, at, k);
  }

  lemma InsertedBefore(t: string, at: nat, k: nat)
    requires k <= at <= |t|
    ensures (t[..k] + "." + t[k..])[..at + 1] == t[..at][..k] + "." + t[..at][k..]
  {
    assert t[..at][..k] == t[..k] && t[..at][k..] == t[k..at];
  }

  /** Whether a "+" comes before k can be seen from any longer beginning. */
  lemma IndexOfPrefix(t: string, n: nat, k: nat)
    requires k <= n <= |t|
    ensures 0 <= IndexOf(t, '+') < k <==> 0 <= IndexOf(t[..n], '+') < k
  {
    var l := t[..n];
    assert forall i | 0 <= i < n :: l[i] == t[i];
  }

  lemma {:induction false} WithoutKeepsPlusFree(s: string)
    requires forall i | 0 <= i < |s| :: s[i] != '+'
    ensures forall i | 0 <= i < |Without(s, '.')| :: Without(s, '.')[i] != '+'
  {
    if s != "" { WithoutKeepsPlusFree(s[1..]); }
  }

  /** What normalising leaves out of the local part never comes back. */
  lemma BaseLocalTwice(l: string, domain: string)
    ensures BaseLocal(BaseLocal(l, domain), domain) == BaseLocal(l, domain)
    ensures forall x :: x in BaseLocal(l, domain) ==> x in l
  {
    var plus := IndexOf(l, '+');
    var base := if plus >= 0 then l[..plus] else l;
    var r := BaseLocal(l, domain);
    assert forall i | 0 <= i < |base| :: base[i] == l[i];
    WithoutKeepsRest(base, '.');
    WithoutKeepsPlusFree(base);
    assert IndexOf(r, '+') == -1;
  }

  /** A base with a domain behind it is its own normal form. */
  lemma NormalizedAgain(base: string, domain: string)
    requires base != "" && domain != "" && '@' !in domain && BaseLocal(base, domain) == base
    ensures NormalizeLowered(base + "@" + domain) == Some(base + "@" + domain)
  {
    hide BaseLocal;
    var n := base + "@" + domain;
    LastIndexOfAt(n, |base|);
    assert n[..|base|] == base && n[|base| + 1..] == domain;
  }

  lemma NormalFormChars(t: string)
    requires Addressable(t)
    ensures LastIndexOf(t, '@') >= 0 && BaseOf(t) != "" && DomainOf(t) != "" && '@' !in DomainOf(t)
    ensures BaseLocal(BaseOf(t), DomainOf(t)) == BaseOf(t)
    ensures forall x | x in BaseOf(t) + "@" + DomainOf(t) :: x in t
  {
    BaseLocalTwice(t[..LastIndexOf(t, '@')], DomainOf(t));
    hide BaseLocal;
    assert t[LastIndexOf(t, '@')] == '@';
  }

  /** Normalising is idempotent on addresses without whitespace. */
  lemma NormalizeIdempotent(a: string)
    requires NoSpace(a) && NormalizeEmail(a).Some?
    ensures NormalizeEmail(NormalizeEmail(a).value) == NormalizeEmail(a)
  {
    hide BaseLocal, NormalizeLowered, NormalizeEmail, Addressable, BaseOf, DomainOf;
    var t := Lower(a);
    NormalizeWithoutSpace(a);
    NormalForm(t);
    NormalFormChars(t);
    var n := BaseOf(t) + "@" + DomainOf(t);
    CharsOfLowered(a, n);
    NormalizeWithoutSpace(n);
    NormalizedAgain(BaseOf(t), DomainOf(t));
  }

  /** A text made of characters of a lower-cased address needs no more lower-casing. */
  lemma CharsOfLowered(a: string, n: string)
    requires NoSpace(a)
    requires forall x | x in n :: x in Lower(a)
    ensures NoSpace(n) && Lower(n) == n
  {
    forall i | 0 <= i < |n|
      ensures !IsSpace(n[i]) && LowerChar(n[i]) == n[i]
    {
      assert n[i] in n;
      var j :| 0 <= j < |a| && Lower(a)[j] == n[i];
      assert !IsSpace(a[j]) && n[i] == LowerChar(a[j]);
    }
  }

  // ----- the normal form written out -----

  lemma BaseOfParts(base: string, tag: string, domain: string)
    requires '+' !in base && (tag == "" || tag[0] == '+')
    ensures BaseLocal(base + tag, domain) == if domain == "gmail.com" || domain == "googlemail.com" then Without(base, '.') else base
  {
    var l := base + tag;
    assert forall i | 0 <= i < |base| :: l[i] == base[i];
    assert l[..|base|] == base;
    assert tag == "" ==> l == base;
    assert tag != "" ==> l[|base|] == '+';
  }

  /** Taking a character out keeps all others, where they stand. */
  lemma WithoutKeepsOthers(a: string, x: char, b: string, c: char)
    ensures Without(a + [x] + b, c) == Without(a, c) + (if x == c then "" else [x]) + Without(b, c)
  {
    WithoutBoth(a + [x], b, c);
    WithoutBoth(a, [x], c);
    assert [x][1..] == "";
  }

  /** A lower-cased address, part by part. */
  lemma LoweredParts(base: string, tag: string, domain: string)
    requires '+' !in base && (tag == "" || tag[0] == '+') && '@' !in domain && domain != ""
    ensures var kept := if domain == "gmail.com" || domain == "googlemail.com" then Without(base, '.') else base;
            NormalizeLowered(base + tag + "@" + domain) == if kept == "" then None else Some(kept + "@" + domain)
  {
    hide BaseLocal;
    var t := base + tag + "@" + domain;
    LastIndexOfAt(t, |base + tag|);
    assert t[..|base + tag|] == base + tag && t[|base + tag| + 1..] == domain;
    BaseOfParts(base, tag, domain);
  }

  lemma LowerJoins(a: string, b: string)
    ensures Lower(a + b) == Lower(a) + Lower(b)
  {
  }

  /**
   White space around an address, its capitals, a tag from "+" on and, in the two Gmail domains, its
   dots are left out, and nothing else is; an address of which nothing is left is none.
   */
  lemma NormalizesTo(before: string, base: string, tag: string, domain: string, after: string)
    requires AllSpace(before) && AllSpace(after) && NoSpace(base + tag) && NoSpace(domain)
    requires '+' !in base && (tag == "" || tag[0] == '+') && '@' !in domain && domain != ""
    ensures var gmail := Lower(domain) == "gmail.com" || Lower(domain) == "googlemail.com";
            var kept := if gmail then Without(Lower(base), '.') else Lower(base);
            NormalizeEmail(before + (base + tag + "@" + domain) + after) == if kept == "" then None else Some(kept + "@" + Lower(domain))
  {
    var m := base + tag + "@" + domain;
    assert forall i | 0 <= i < |base + tag| :: m[i] == (base + tag)[i];
    TrimDrops(before, m, after);
    EmptyIsNoAddress(before + m + after);
    LowerJoins(base, tag);
    LowerJoins(base + tag, "@");
    LowerJoins(base + tag + "@", domain);
    LowerKeepsAt(domain);
    assert Lower("@") == "@";
    hide NormalizeLowered, NormalizeEmail, Trim;
    LowerKeepsPlus(base);
    LoweredParts(Lower(base), Lower(tag), Lower(domain));
  }

  lemma LowerKeepsPlus(s: string)
    ensures '+' in Lower(s) <==> '+' in s
  {
    if i :| 0 <= i < |s| && s[i] == '+' { assert Lower(s)[i] == '+'; }
    if i :| 0 <= i < |Lower(s)| && Lower(s)[i] == '+' { assert s[i] == '+'; }
  }

  /** A text without "@", or with nothing behind the last one, has no normal form. */
  lemma NoAddressWithoutDomain(before: string, m: string, after: string)
    requires AllSpace(before) && AllSpace(after) && (m == "" || (!IsSpace(m[0]) && !IsSpace(m[|m| - 1])))
    requires '@' !in m || m[|m| - 1] == '@'
    ensures NormalizeEmail(before + m + after) == None
  {
    TrimDrops(before, m, after);
    EmptyIsNoAddress(before + m + after);
    LowerKeepsAt(m);
  }
}

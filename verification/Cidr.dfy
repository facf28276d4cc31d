/** parseCidr and ipInCidr of server/clientIp.ts: the mask loop is equality of prefixes. */
module Cidr {
  import opened Wrappers
  import opened Bits
  import opened Prefixes
  import opened IpAddress
  import Decimal
  import Text

  datatype Version = V4 | V6

  datatype CidrRange = CidrRange(ip: seq<int>, prefixLen: nat, version: Version)

  function BitsPerElement(v: Version): nat { if v.V4? then 8 else 16 }

  function Length(v: Version): nat { if v.V4? then 4 else 8 }

  function ParseIp(js: Library, version: Version, s: string): (r: Option<seq<int>>)
    ensures r.Some? ==> |r.value| == Length(version) && Elements(r.value, BitsPerElement(version))
  {
    if version.V4? then ParseIPv4(js, s) else ParseIPv6(js, s)
  }

  predicate ValidRange(r: CidrRange) {
    && |r.ip| == Length(r.version) && Elements(r.ip, BitsPerElement(r.version))
    && r.prefixLen <= Length(r.version) * BitsPerElement(r.version)
  }

  function WithPrefix(ip: seq<int>, version: Version, prefix: string): Option<CidrRange> {
    var max := Length(version) * BitsPerElement(version);
    var n := if prefix == "" then Some(max) else ParseInt(prefix, 10);
    if !InRange(n, max) then None else Some(CidrRange(ip, n.value, version))
  }

  function ParseCidr(js: Library, cidr: string): (r: Option<CidrRange>)
    ensures r.Some? ==> ValidRange(r.value)
  {
    var parts := Text.Split(cidr, '/');
    ReadParts(js, parts[0], if |parts| > 1 then parts[1] else "")
  }

  function ReadParts(js: Library, addr: string, prefix: string): (r: Option<CidrRange>)
    ensures r.Some? ==> ValidRange(r.value)
  {
    if addr == "" then None
    else if ParseIPv4(js, addr).Some? then WithPrefix(ParseIPv4(js, addr).value, V4, prefix)
    else if ParseIPv6(js, addr).Some? then WithPrefix(ParseIPv6(js, addr).value, V6, prefix)
    else None
  }

  /** The address is one of the range's version and has the range's prefix. */
  predicate Inside(js: Library, ipStr: string, cidr: CidrRange)
    requires ValidRange(cidr)
  {
    var w := BitsPerElement(cidr.version);
    var ip := ParseIp(js, cidr.version, ipStr);
    ip.Some? && Prefix(ip.value, w, cidr.prefixLen) == Prefix(cidr.ip, w, cidr.prefixLen)
  }

  /** The mask for the top bits of an element of w bits. */
  function Mask(w: nat, bits: nat): int
    requires bits <= w
  {
    if bits == w then Shl(1, w) - 1 else Shl(Shl(1, bits) - 1, w - bits)
  }

  /** The bits before element i. */
  function Offset(i: nat, w: nat): nat { if i == 0 then 0 else Offset(i - 1, w) + w }

  lemma {:induction false} OffsetIsProduct(i: nat, w: nat)
    ensures Offset(i, w) == i * w
  {
    if i > 0 {
      OffsetIsProduct(i - 1, w);
      assert i * w == (i - 1) * w + w;
    }
  }

  /** What one round of the loop establishes, remaining being the bits of the prefix from element i on. */
  lemma Round(xs: seq<int>, ys: seq<int>, w: nat, p: nat, i: nat, remaining: nat, bits: nat)
    requires Elements(xs, w) && Elements(ys, w) && |xs| == |ys| && i < |xs| && p <= |xs| * w
    requires p == Offset(i, w) + remaining && Number(xs, w, i) == Number(ys, w, i)
    requires bits == if remaining < w then remaining else w
    ensures Mask(w, bits) >= 0
    ensures And(xs[i], Mask(w, bits)) != And(ys[i], Mask(w, bits)) ==> Prefix(xs, w, p) != Prefix(ys, w, p)
    ensures And(xs[i], Mask(w, bits)) == And(ys[i], Mask(w, bits)) ==>
              if remaining == bits then Prefix(xs, w, p) == Prefix(ys, w, p)
              else p == Offset(i + 1, w) + (remaining - bits) && Number(xs, w, i + 1) == Number(ys, w, i + 1)
  {
    OffsetIsProduct(i, w);
    OffsetIsProduct(i + 1, w);
    MaskIsOnes(w, bits);
    if remaining == bits {
      LastElementDecides(xs, ys, w, p, i, bits);
    } else {
      WholeElementStep(xs, ys, w, p, i);
    }
  }

  lemma MaskIsOnes(w: nat, bits: nat)
    requires bits <= w
    ensures Mask(w, bits) == Shl(Pow2(bits) - 1, w - bits)
    ensures bits == w ==> Mask(w, bits) == Pow2(w) - 1
  {
    assert Shl(Pow2(bits) - 1, 0) == Pow2(bits) - 1;
  }

  /** The loop over the elements, masking the one in which the prefix ends. */
  method SamePrefix(xs: seq<int>, ys: seq<int>, w: nat, prefixLen: nat) returns (same: bool)
    requires Elements(xs, w) && Elements(ys, w) && |xs| == |ys| && prefixLen <= |xs| * w
    ensures same <==> Prefix(xs, w, prefixLen) == Prefix(ys, w, prefixLen)
  {
    var remainingBits: nat, i := prefixLen, 0;
    NoBitsNoDifference(xs, ys, w);
    while i < |xs| && remainingBits > 0
      invariant i <= |xs|
      invariant remainingBits > 0 ==> prefixLen == Offset(i, w) + remainingBits && Number(xs, w, i) == Number(ys, w, i)
      invariant remainingBits == 0 ==> Prefix(xs, w, prefixLen) == Prefix(ys, w, prefixLen)
    {
      var bits := if remainingBits < w then remainingBits else w;
      Round(xs, ys, w, prefixLen, i, remainingBits, bits);
      if And(xs[i], Mask(w, bits)) != And(ys[i], Mask(w, bits)) { return false; }
      remainingBits := remainingBits - bits;
      i := i + 1;
    }
    PrefixUsedUp(|xs|, w, prefixLen, i, remainingBits);
    return true;
  }

  lemma PrefixUsedUp(n: nat, w: nat, p: nat, i: nat, remaining: nat)
    requires p <= n * w && (remaining > 0 ==> i == n && p == Offset(i, w) + remaining)
    ensures remaining == 0
  {
    OffsetIsProduct(n, w);
  }

  method IpInCidr(js: Library, ipStr: string, cidr: CidrRange) returns (inside: bool)
    requires ValidRange(cidr)
    ensures inside <==> Inside(js, ipStr, cidr)
  {
    var ip := ParseIp(js, cidr.version, ipStr);
    if ip.None? || |ip.value| != |cidr.ip| { return false; }
    inside := SamePrefix(ip.value, cidr.ip, BitsPerElement(cidr.version), cidr.prefixLen);
  }

  /** Of two ranges of one version, the longer one is inside the other, or they share no address. */
  lemma NestedOrDisjoint(js: Library, a: CidrRange, b: CidrRange)
    requires ValidRange(a) && ValidRange(b) && a.version == b.version && a.prefixLen <= b.prefixLen
    ensures (forall s :: Inside(js, s, b) ==> Inside(js, s, a)) || forall s :: !(Inside(js, s, a) && Inside(js, s, b))
  {
    if x :| Inside(js, x, a) && Inside(js, x, b) {
      var w := BitsPerElement(a.version);
      var ip := ParseIp(js, a.version, x).value;
      forall s | Inside(js, s, b)
        ensures Inside(js, s, a)
      {
        LongerPrefixDetermines(ParseIp(js, a.version, s).value, ip, w, a.prefixLen, b.prefixLen);
      }
    }
  }

  /** Which of the two it is can be told from the ranges: nested when the longer one starts with the shorter one's prefix. */
  lemma NestedIff(js: Library, a: CidrRange, b: CidrRange, s: string)
    requires ValidRange(a) && ValidRange(b) && a.version == b.version && a.prefixLen <= b.prefixLen && Inside(js, s, b)
    ensures var w := BitsPerElement(a.version);
            Inside(js, s, a) <==> Prefix(a.ip, w, a.prefixLen) == Prefix(b.ip, w, a.prefixLen)
  {
    LongerPrefixDetermines(ParseIp(js, a.version, s).value, b.ip, BitsPerElement(a.version), a.prefixLen, b.prefixLen);
  }

  // ----- ranges read back -----

  lemma {:induction false} NatTextIsDigits(n: nat)
    ensures Digits(Decimal.NatText(n), 10) && DigitsValue(Decimal.NatText(n), 10) == n
  {
    var s := Decimal.NatText(n);
    if n < 10 {
      assert s[..0] == "";
    } else {
      NatTextIsDigits(n / 10);
      assert s[..|s| - 1] == Decimal.NatText(n / 10);
    }
  }

  lemma ParseIntReadsNat(n: nat)
    ensures ParseInt(Decimal.NatText(n), 10) == Some(n)
  {
    var s := Decimal.NatText(n);
    NatTextIsDigits(n);
    assert IsDigit(s[0], 10);
    assert Text.TrimStart(s) == s;
    AllDigits(s, 10);
    assert s[..|s|] == s;
  }

  /** The two parts around the only slash. */
  lemma SplitAtSlash(addr: string, prefix: string)
    requires '/' !in addr && '/' !in prefix
    ensures Text.Split(addr + "/" + prefix, '/') == [addr, prefix] && Text.Split(addr, '/') == [addr]
  {
    var parts := [addr, prefix];
    assert parts[1..] == [prefix];
    assert Text.Join(parts, "/") == addr + "/" + prefix;
    Text.SplitJoin(parts, '/');
  }

  /** The text is read as an address of this version, and not first as one of the other. */
  predicate ReadAsVersion(js: Library, addr: string, ip: seq<int>, version: Version) {
    addr != "" && '/' !in addr && ParseIp(js, version, addr) == Some(ip) && (version.V6? ==> ParseIPv4(js, addr).None?)
  }

  lemma PartsReadAs(js: Library, addr: string, ip: seq<int>, version: Version, prefix: string)
    requires ReadAsVersion(js, addr, ip, version)
    ensures ReadParts(js, addr, prefix) == WithPrefix(ip, version, prefix)
  {
  }

  lemma CidrOfParts(js: Library, addr: string, prefix: string)
    requires '/' !in addr && '/' !in prefix
    ensures ParseCidr(js, addr + "/" + prefix) == ReadParts(js, addr, prefix) && ParseCidr(js, addr) == ReadParts(js, addr, "")
  {
    SplitAtSlash(addr, prefix);
  }

  lemma PrefixReadsBack(r: CidrRange)
    requires ValidRange(r)
    ensures WithPrefix(r.ip, r.version, Decimal.NatText(r.prefixLen)) == Some(r)
  {
    ParseIntReadsNat(r.prefixLen);
  }

  /** An address with a slash and a prefix length is that range; without a length it is the one address. */
  lemma AddressAndLength(js: Library, addr: string, r: CidrRange)
    requires ValidRange(r) && ReadAsVersion(js, addr, r.ip, r.version)
    ensures ParseCidr(js, addr + "/" + Decimal.NatText(r.prefixLen)) == Some(r)
    ensures ParseCidr(js, addr) == ParseCidr(js, addr + "/") == Some(r.(prefixLen := Length(r.version) * BitsPerElement(r.version)))
  {
    var prefix := Decimal.NatText(r.prefixLen);
    PrefixReadsBack(r);
    PartsReadAs(js, addr, r.ip, r.version, prefix);
    PartsReadAs(js, addr, r.ip, r.version, "");
    CidrOfParts(js, addr, prefix);
    CidrOfParts(js, addr, "");
    assert addr + "/" + "" == addr + "/";
  }

  /** Of what stands behind the slash only a leading number counts, and it must not be negative or too large. */
  lemma LengthIff(js: Library, addr: string, ip: seq<int>, version: Version, sign: string, d: string, rest: string)
    requires ReadAsVersion(js, addr, ip, version) && '/' !in rest
    requires Sign(sign) && d != "" && Digits(d, 10) && (rest == "" || !IsDigit(rest[0], 10))
    ensures var n, max := DigitsValue(d, 10), if version.V4? then 32 else 128;
            ParseCidr(js, addr + "/" + (sign + d + rest)) == (if n == 0 || (sign != "-" && n <= max) then Some(CidrRange(ip, n, version)) else None)
  {
    NoSlash(sign, d, rest);
    var n := DigitsValue(d, 10);
    hide *;
    PlainDecimal(sign, d, rest);
    LengthOf(js, addr, ip, version, sign + d + rest, if sign == "-" then -n else n);
  }

  lemma PlainDecimal(sign: string, d: string, rest: string)
    requires Sign(sign) && d != "" && Digits(d, 10) && (rest == "" || !IsDigit(rest[0], 10))
    ensures ParseInt(sign + d + rest, 10) == Some(if sign == "-" then -DigitsValue(d, 10) else DigitsValue(d, 10))
  {
    hide ParseInt, Digits, DigitsValue, IsDigit, Sign;
    ParseIntReadsDecimal("", sign, d, rest);
    assert "" + (sign + d + rest) == sign + d + rest;
  }

  lemma LengthOf(js: Library, addr: string, ip: seq<int>, version: Version, prefix: string, n: int)
    requires ReadAsVersion(js, addr, ip, version) && '/' !in prefix && prefix != "" && ParseInt(prefix, 10) == Some(n)
    ensures ParseCidr(js, addr + "/" + prefix) == if 0 <= n <= (if version.V4? then 32 else 128) then Some(CidrRange(ip, n, version)) else None
  {
    hide ParseInt, ParseIp, ReadParts, ParseCidr;
    PartsReadAs(js, addr, ip, version, prefix);
    CidrOfParts(js, addr, prefix);
  }

  lemma NoSlash(sign: string, d: string, rest: string)
    requires Sign(sign) && d != "" && Digits(d, 10) && '/' !in rest
    ensures '/' !in sign + d + rest && sign + d + rest != ""
  {
    forall i | 0 <= i < |d| ensures d[i] != '/' { assert IsDigit(d[i], 10); }
  }

  /** A text that is no address of either version is no range, whatever stands behind a slash. */
  lemma NoAddressNoRange(js: Library, addr: string, prefix: string)
    requires '/' !in addr && '/' !in prefix && ParseIPv4(js, addr).None? && ParseIPv6(js, addr).None?
    ensures ParseCidr(js, addr).None? && ParseCidr(js, addr + "/" + prefix).None?
  {
    CidrOfParts(js, addr, prefix);
  }

  function NatTexts(ns: seq<int>): (r: seq<string>)
    requires forall i | 0 <= i < |ns| :: ns[i] >= 0
    ensures |r| == |ns| && forall i | 0 <= i < |ns| :: r[i] == Decimal.NatText(ns[i])
  {
    seq(|ns|, i requires 0 <= i < |ns| => Decimal.NatText(ns[i]))
  }

  /** The text of an address; of a version 6 address the run of len zeros from start on is shortened. */
  function PrintIp(r: CidrRange, start: nat, len: nat): string
    requires ValidRange(r) && (r.version.V6? ==> start + len <= 8)
  {
    if r.version.V4? then Text.Join(NatTexts(r.ip), ".") else Print(r.ip, start, len)
  }

  lemma {:induction false} JoinWithout(parts: seq<string>, sep: string, c: char)
    requires c !in sep && forall i | 0 <= i < |parts| :: c !in parts[i]
    ensures c !in Text.Join(parts, sep)
  {
    if |parts| > 1 { JoinWithout(parts[1..], sep, c); }
  }

  lemma PrintedV4(js: Library, ip: seq<int>)
    requires ReadsDigits(js) && |ip| == 4 && Elements(ip, 8)
    ensures ReadAsVersion(js, Text.Join(NatTexts(ip), "."), ip, V4)
  {
    var ds := NatTexts(ip);
    SixteenBits();
    forall i | 0 <= i < 4
      ensures ds[i] != "" && Digits(ds[i], 10) && DigitsValue(ds[i], 10) == ip[i] <= 255 && '/' !in ds[i]
    {
      NatTextIsDigits(ip[i]);
    }
    DottedForm(js, ds);
    assert OctetValues(ds) == ip;
    JoinWithout(ds, ".", '/');
  }

  lemma HexHasNoPunctuation(n: nat)
    requires n < Pow2(16)
    ensures '/' !in HexText(n) && '.' !in HexText(n)
  {
    var s := HexText(n);
    HexTextReadsBack(n, 4);
    assert forall i | 0 <= i < |s| :: IsDigit(s[i], 16);
  }

  lemma JoinedHex(gs: seq<int>)
    requires Elements(gs, 16)
    ensures '/' !in Text.Join(HexTexts(gs), ":") && '.' !in Text.Join(HexTexts(gs), ":")
  {
    forall i | 0 <= i < |gs| ensures '/' !in HexTexts(gs)[i] && '.' !in HexTexts(gs)[i] { HexHasNoPunctuation(gs[i]); }
    JoinWithout(HexTexts(gs), ":", '/');
    JoinWithout(HexTexts(gs), ":", '.');
  }

  lemma NoDotNoV4(js: Library, addr: string)
    requires '.' !in addr
    ensures ParseIPv4(js, addr).None?
  {
    assert Text.Split(addr, '.') == [addr];
  }

  lemma PrintedV6(js: Library, ip: seq<int>, start: nat, len: nat)
    requires ReadsHex(js) && |ip| == 8 && Elements(ip, 16) && start + len <= 8
    requires forall i | start <= i < start + len :: ip[i] == 0
    ensures ReadAsVersion(js, Print(ip, start, len), ip, V6)
  {
    PrintParse(js, ip, start, len);
    PrintHasNoPunctuation(ip, start, len);
    NoDotNoV4(js, Print(ip, start, len));
    EmptyIsNoAddress(js);
  }

  lemma PrintHasNoPunctuation(ip: seq<int>, start: nat, len: nat)
    requires |ip| == 8 && Elements(ip, 16) && start + len <= 8
    ensures '/' !in Print(ip, start, len) && '.' !in Print(ip, start, len)
  {
    JoinedHex(ip);
    JoinedHex(ip[..start]);
    JoinedHex(ip[start + len..]);
  }

  lemma EmptyIsNoAddress(js: Library)
    ensures ParseIPv6(js, "") == None
  {
    assert SplitPair("") == [""];
    assert ParseHalves(js, [""]) == None;
  }

  /** Every range, printed in any of the allowed ways, is read back; without a length, its address is. */
  lemma RangeReadsBack(js: Library, r: CidrRange, start: nat, len: nat)
    requires ReadsHex(js) && ReadsDigits(js) && ValidRange(r)
    requires r.version.V6? ==> start + len <= 8 && forall i | start <= i < start + len :: r.ip[i] == 0
    ensures ParseCidr(js, PrintIp(r, start, len) + "/" + Decimal.NatText(r.prefixLen)) == Some(r)
    ensures ParseCidr(js, PrintIp(r, start, len)) == ParseCidr(js, PrintIp(r, start, len) + "/")
         == Some(r.(prefixLen := Length(r.version) * BitsPerElement(r.version)))
  {
    if r.version.V4? {
      PrintedV4(js, r.ip);
    } else {
      PrintedV6(js, r.ip, start, len);
    }
    AddressAndLength(js, PrintIp(r, start, len), r);
  }
}

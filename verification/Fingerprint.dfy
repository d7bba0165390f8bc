/** Device fingerprints (src/core/devices/fingerprint.ts): masking an address to its subnet
    and composing the text that is hashed. The hash itself is a parameter. */
module Fingerprint {
  import opened Lists
  import opened Text

  datatype Mode = UserAgentAndSubnet | UserAgent

  function ModeText(mode: Mode): string {
    match mode
    case UserAgentAndSubnet => "userAgent+ipSubnet"
    case UserAgent => "userAgent"
  }

  const IPV4_PREFIX_OCTETS := 3
  const IPV6_PREFIX_GROUPS := 4

  // ------------------------------------------------------------ the code

  predicate IsDigit(c: char) {
    '0' <= c <= '9'
  }

  predicate IsHexDigit(c: char) {
    IsDigit(c) || 'a' <= c <= 'f' || 'A' <= c <= 'F'
  }

  function LowerChar(c: char): char {
    if 'A' <= c <= 'Z' then c + 32 as char else c
  }

  /** Lower-casing, on the characters the address gate lets through. */
  function Lower(s: string): string {
    Mapped(s, LowerChar)
  }

  /** Where `::` first stands; the length of the text when it does not occur. */
  function FirstDouble(s: string): (i: nat)
    ensures i <= |s|
    ensures i == |s| || (i + 1 < |s| && s[i] == ':' && s[i + 1] == ':')
  {
    if |s| < 2 then |s|
    else if s[0] == ':' && s[1] == ':' then 0
    else
      1 + FirstDouble(s[1..])
  }

  /** `s.split("::")` */
  function SplitDouble(s: string): (parts: seq<string>)
    ensures |parts| > 0
    decreases |s|
  {
    var i := FirstDouble(s);
    if i == |s| then [s] else [s[..i]] + SplitDouble(s[i + 2..])
  }

  /** Removing leading zeros, keeping at least one character. */
  function StripZeros(g: string): string {
    if |g| > 1 && g[0] == '0' then StripZeros(g[1..]) else g
  }

  function Groups(part: string): seq<string> {
    if part == [] then [] else Split(part, ':')
  }

  function Zeros(n: nat): seq<string> {
    seq(n, _ => "0")
  }

  function ExpandIpv6(ip: string): (r: Option<seq<string>>)
    ensures r.Some? ==> |r.value| == 8
  {
    var lower := Lower(ip);
    if lower == [] || exists c :: c in lower && !(IsHexDigit(c) || c == ':') then None
    else
      var groups := Assembled(SplitDouble(lower));
      if groups.None? then None else Some(Mapped(groups.value, StripZeros))
  }

  function Assembled(parts: seq<string>): (r: Option<seq<string>>)
    requires |parts| > 0
    ensures r.Some? ==> |r.value| == 8
  {
    if |parts| > 2 then None
    else
      var head := Groups(parts[0]);
      var tail := if |parts| == 2 then Groups(parts[1]) else [];
      var filled := if |parts| == 2 then 8 - |head| - |tail| else 8 - |head|;
      if filled < 0 then None
      else
        var groups := head + (if |parts| == 2 then Zeros(filled) else []) + tail;
        if |groups| != 8 then None else Some(groups)
  }

  predicate IsOctetText(s: string) {
    1 <= |s| <= 3 && forall k :: 0 <= k < |s| ==> IsDigit(s[k])
  }

  predicate LooksLikeIpv4(s: string) {
    var parts := Split(s, '.');
    |parts| == 4 && forall k :: 0 <= k < 4 ==> IsOctetText(parts[k])
  }

  function MaskIp(ip: Option<string>, mode: Mode): string {
    if mode == UserAgent then ""
    else
      var trimmed := Trim(if ip.Some? then ip.value else "");
      if trimmed == [] then "invalid"
      else if LooksLikeIpv4(trimmed) then
        var octets := OctetValues(Split(trimmed, '.'));
        if exists n :: n in octets && n > 255 then "invalid"
        else Join(Numerals(octets[..IPV4_PREFIX_OCTETS], 10), ".") + ".0/24"
      else
        var expanded := ExpandIpv6(trimmed);
        if expanded.None? then "invalid"
        else Join(expanded.value[..IPV6_PREFIX_GROUPS], ":") + "::/64"
  }

  function Composite(mode: Mode, userAgent: Option<string>, ip: Option<string>): string {
    ModeText(mode) + "|" + Trim(if userAgent.Some? then userAgent.value else "") + "|" + MaskIp(ip, mode)
  }

  // ------------------------------------------------------------ numerals

  function DigitValue(c: char): nat {
    if IsDigit(c) then c as nat - '0' as nat
    else if 'a' <= c <= 'f' then c as nat - 'a' as nat + 10
    else if 'A' <= c <= 'F' then c as nat - 'A' as nat + 10
    else 0
  }

  function DigitChar(d: nat): char
    requires d < 16
  {
    if d < 10 then '0' + d as char else 'a' + (d - 10) as char
  }

  /** The number a digit string denotes. */
  function Value(s: string, base: nat): nat {
    if s == [] then 0 else Value(s[..|s| - 1], base) * base + DigitValue(s[|s| - 1])
  }

  /** The shortest lower-case digit string of a number. */
  function Numeral(n: nat, base: nat): string
    requires base == 10 || base == 16
  {
    if n < base then [DigitChar(n)] else Numeral(n / base, base) + [DigitChar(n % base)]
  }

  lemma ValueSnoc(s: string, c: char, base: nat)
    ensures Value(s + [c], base) == Value(s, base) * base + DigitValue(c)
  {
    assert (s + [c])[..|s|] == s;
  }

  lemma ValueOfDigit(d: nat)
    requires d < 16
    ensures DigitValue(DigitChar(d)) == d
  {
  }

  lemma DecimalStep(n: nat)
    requires n >= 10 && Value(Numeral(n / 10, 10), 10) == n / 10
    ensures Value(Numeral(n, 10), 10) == n
  {
    ValueSnoc(Numeral(n / 10, 10), DigitChar(n % 10), 10);
    ValueOfDigit(n % 10);
  }

  lemma HexStep(n: nat)
    requires n >= 16 && Value(Numeral(n / 16, 16), 16) == n / 16
    ensures Value(Numeral(n, 16), 16) == n
  {
    ValueSnoc(Numeral(n / 16, 16), DigitChar(n % 16), 16);
    ValueOfDigit(n % 16);
  }

  lemma {:induction false} ValueOfNumeral(n: nat, base: nat)
    requires base == 10 || base == 16
    ensures Value(Numeral(n, base), base) == n
    decreases n
  {
    if n < base {
      ValueSnoc([], DigitChar(n), base);
      ValueOfDigit(n);
      assert [] + [DigitChar(n)] == [DigitChar(n)];
    } else if base == 10 {
      ValueOfNumeral(n / 10, 10);
      DecimalStep(n);
    } else {
      ValueOfNumeral(n / 16, 16);
      HexStep(n);
    }
  }

  predicate IsLowerHex(s: string) {
    forall k :: 0 <= k < |s| ==> IsDigit(s[k]) || 'a' <= s[k] <= 'f'
  }

  lemma {:induction false} StripSnoc(f: string, c: char)
    requires |f| > 0
    ensures StripZeros(f + [c]) == if StripZeros(f) == "0" then [c] else StripZeros(f) + [c]
  {
    if |f| > 1 && f[0] == '0' {
      StripSnoc(f[1..], c);
      assert (f + [c])[1..] == f[1..] + [c];
    } else if f[0] == '0' {
      assert (f + [c])[1..] == [c];
      assert f == "0";
    }
  }

  lemma NumeralSnoc(v: nat, d: nat)
    requires 0 < v && d < 16
    ensures Numeral(v * 16 + d, 16) == Numeral(v, 16) + [DigitChar(d)]
  {
    assert (v * 16 + d) / 16 == v && (v * 16 + d) % 16 == d;
  }

  lemma DigitCharOfValue(c: char)
    requires IsDigit(c) || 'a' <= c <= 'f'
    ensures DigitValue(c) < 16 && DigitChar(DigitValue(c)) == c
  {
  }

  lemma NumeralIsZero(v: nat)
    ensures Numeral(v, 16) == "0" <==> v == 0
  {
    ValueOfNumeral(v, 16);
    ValueSnoc([], '0', 16);
    assert [] + ['0'] == "0";
  }

  /** Without its leading zeros a group is the shortest numeral of its value. */
  lemma {:induction false} StrippedIsNumeral(g: string)
    requires |g| > 0 && IsLowerHex(g)
    ensures StripZeros(g) == Numeral(Value(g, 16), 16)
  {
    var n := |g| - 1;
    var f, c := g[..n], g[n];
    assert g == f + [c];
    ValueSnoc(f, c, 16);
    DigitCharOfValue(c);
    if n == 0 {
      assert f == [] && Value(f, 16) == 0;
      assert StripZeros(g) == g == [c];
    } else {
      StrippedIsNumeral(f);
      StripSnoc(f, c);
      NumeralIsZero(Value(f, 16));
      if Value(f, 16) > 0 {
        NumeralSnoc(Value(f, 16), DigitValue(c));
      }
    }
  }

  lemma {:induction false} LoweredGroup(g: string)
    requires forall k :: 0 <= k < |g| ==> IsHexDigit(g[k])
    ensures IsLowerHex(Lower(g)) && Value(Lower(g), 16) == Value(g, 16)
  {
    if g != [] {
      var n := |g| - 1;
      LoweredGroup(g[..n]);
      assert Lower(g)[..n] == Lower(g[..n]);
    }
  }

  // ------------------------------------------------------------ address texts

  /** One group of an address text (section 2.2 of RFC 4291): one to four hexadecimal digits
      of either case. */
  predicate IsGroup(g: string) {
    1 <= |g| <= 4 && forall k :: 0 <= k < |g| ==> IsHexDigit(g[k])
  }

  predicate AreGroups(gs: seq<string>) {
    forall k :: 0 <= k < |gs| ==> IsGroup(gs[k])
  }

  function GroupValues(gs: seq<string>): seq<nat> {
    Mapped(gs, (g: string) => Value(g, 16))
  }

  ghost predicate FullForm(text: string, gs: seq<string>) {
    |gs| == 8 && AreGroups(gs) && text == Join(gs, ":")
  }

  ghost predicate ShortForm(text: string, head: seq<string>, tail: seq<string>) {
    |head| + |tail| <= 7 && AreGroups(head) && AreGroups(tail)
    && text == Join(head, ":") + "::" + Join(tail, ":")
  }

  /** `text` is a form 1 or form 2 text of the address with these eight groups. */
  ghost predicate DenotesV6(text: string, address: seq<nat>) {
    || (exists gs :: FullForm(text, gs) && address == GroupValues(gs))
    || (exists head, tail :: ShortForm(text, head, tail)
                             && address == ShortAddress(head, tail))
  }

  function Naughts(n: nat): seq<nat> {
    seq(n, _ => 0)
  }

  /** The groups around a `::`, which stands for as many zero groups as are missing. */
  function ShortAddress(head: seq<string>, tail: seq<string>): seq<nat>
    requires |head| + |tail| <= 7
  {
    GroupValues(head) + Naughts(8 - |head| - |tail|) + GroupValues(tail)
  }

  predicate IsLowGroup(g: string) {
    |g| > 0 && IsLowerHex(g)
  }

  predicate AreLowGroups(gs: seq<string>) {
    forall k :: 0 <= k < |gs| ==> IsLowGroup(gs[k])
  }

  function Lowered(gs: seq<string>): seq<string> {
    Mapped(gs, Lower)
  }

  lemma LowerConcat(s: string, t: string)
    ensures Lower(s + t) == Lower(s) + Lower(t)
  {
  }

  lemma {:induction false} LowerJoin(gs: seq<string>)
    ensures Lower(Join(gs, ":")) == Join(Lowered(gs), ":")
  {
    if |gs| > 1 {
      LowerJoin(gs[1..]);
      LowerConcat(gs[0] + ":", Join(gs[1..], ":"));
      LowerConcat(gs[0], ":");
      assert Lower(":") == ":";
      assert Lowered(gs)[1..] == Lowered(gs[1..]);
    } else if |gs| == 1 {
      assert Lowered(gs) == [Lower(gs[0])];
    }
  }

  lemma LoweredGroups(gs: seq<string>)
    requires AreGroups(gs)
    ensures AreLowGroups(Lowered(gs)) && GroupValues(Lowered(gs)) == GroupValues(gs)
  {
    forall k | 0 <= k < |gs|
      ensures IsLowGroup(Lower(gs[k])) && Value(Lower(gs[k]), 16) == Value(gs[k], 16)
    {
      assert IsGroup(gs[k]);
      LoweredGroup(gs[k]);
    }
  }

  /** No `::` inside, no `:` at either end. */
  predicate Tight(s: string) {
    FirstDouble(s) == |s| && (s != [] ==> s[0] != ':' && s[|s| - 1] != ':')
  }

  predicate GateLetsThrough(s: string) {
    forall k :: 0 <= k < |s| ==> IsHexDigit(s[k]) || s[k] == ':'
  }

  lemma {:induction false} WordBeforeColon(g: string, rest: string)
    requires IsLowerHex(g) && Tight(rest) && rest != []
    ensures FirstDouble(g + ":" + rest) == |g + ":" + rest|
  {
    var s := g + ":" + rest;
    if g == [] {
      assert s[1..] == rest;
    } else {
      WordBeforeColon(g[1..], rest);
      assert s[1..] == g[1..] + ":" + rest;
    }
  }

  lemma {:induction false} WordHasNoDouble(g: string)
    requires IsLowerHex(g)
    ensures FirstDouble(g) == |g|
  {
    if |g| >= 2 {
      WordHasNoDouble(g[1..]);
    }
  }

  lemma {:induction false} JoinIsTight(gs: seq<string>)
    requires AreLowGroups(gs)
    ensures Tight(Join(gs, ":")) && GateLetsThrough(Join(gs, ":"))
    ensures Join(gs, ":") == [] <==> gs == []
  {
    if |gs| == 1 {
      assert IsLowGroup(gs[0]);
      WordHasNoDouble(gs[0]);
    } else if |gs| > 1 {
      assert IsLowGroup(gs[0]);
      JoinIsTight(gs[1..]);
      WordBeforeColon(gs[0], Join(gs[1..], ":"));
    }
  }

  lemma {:induction false} DoubleAfterTight(a: string, b: string)
    requires FirstDouble(a) == |a| && (a != [] ==> a[|a| - 1] != ':')
    ensures FirstDouble(a + "::" + b) == |a|
  {
    var s := a + "::" + b;
    if a != [] {
      DoubleAfterTight(a[1..], b);
      assert s[1..] == a[1..] + "::" + b;
    }
  }

  lemma SplitDoubleOfShort(a: string, b: string)
    requires Tight(a) && Tight(b)
    ensures SplitDouble(a + "::" + b) == [a, b]
  {
    DoubleAfterTight(a, b);
    var s := a + "::" + b;
    assert s[..|a|] == a && s[|a| + 2..] == b;
    assert SplitDouble(b) == [b];
  }

  lemma GroupsOfJoin(gs: seq<string>)
    requires AreLowGroups(gs)
    ensures Groups(Join(gs, ":")) == gs
  {
    JoinIsTight(gs);
    if gs != [] {
      forall k | 0 <= k < |gs| ensures ':' !in gs[k] {
        assert IsLowGroup(gs[k]);
      }
      SplitOfJoin(gs, ':');
    }
  }

  lemma StrippedGroups(gs: seq<string>, address: seq<nat>)
    requires AreLowGroups(gs) && address == GroupValues(gs)
    ensures Mapped(gs, StripZeros) == Canonical(address)
  {
    forall k | 0 <= k < |gs| ensures StripZeros(gs[k]) == Numeral(address[k], 16) {
      assert IsLowGroup(gs[k]);
      StrippedIsNumeral(gs[k]);
    }
  }

  /** The canonical text of each group. */
  function Canonical(address: seq<nat>): seq<string> {
    Mapped(address, (n: nat) => Numeral(n, 16))
  }

  lemma FullFormExpands(text: string, gs: seq<string>)
    requires FullForm(text, gs)
    ensures ExpandIpv6(text) == Some(Canonical(GroupValues(gs)))
  {
    var low := Lowered(gs);
    LowerJoin(gs);
    LoweredGroups(gs);
    JoinIsTight(low);
    GroupsOfJoin(low);
    var lower := Lower(text);
    assert lower == Join(low, ":");
    GateOpens(text);
    assert SplitDouble(lower) == [lower];
    assert low + [] + [] == low;
    StrippedGroups(low, GroupValues(gs));
  }

  lemma PartsAssemble(a: string, b: string, h: seq<string>, t: seq<string>)
    requires Groups(a) == h && Groups(b) == t && |h| + |t| <= 7
    ensures Assembled([a, b]) == Some(h + Zeros(8 - |h| - |t|) + t)
  {
    var parts := [a, b];
    assert parts[0] == a && parts[1] == b;
  }

  lemma GroupValuesConcat(a: seq<string>, b: seq<string>)
    ensures GroupValues(a + b) == GroupValues(a) + GroupValues(b)
  {
  }

  lemma ZeroGroups(n: nat)
    ensures AreLowGroups(Zeros(n)) && GroupValues(Zeros(n)) == Naughts(n)
  {
    assert "0" == [] + ['0'];
    ValueSnoc([], '0', 16);
    assert IsLowGroup("0");
  }

  lemma FilledGroups(h: seq<string>, t: seq<string>)
    requires AreLowGroups(h) && AreLowGroups(t) && |h| + |t| <= 7
    ensures AreLowGroups(h + Zeros(8 - |h| - |t|) + t)
    ensures GroupValues(h + Zeros(8 - |h| - |t|) + t) == ShortAddress(h, t)
  {
    var zeros := Zeros(8 - |h| - |t|);
    ZeroGroups(|zeros|);
    GroupValuesConcat(h + zeros, t);
    GroupValuesConcat(h, zeros);
  }

  lemma LowShortFormAddress(text: string, h: seq<string>, t: seq<string>)
    requires AreLowGroups(h) && AreLowGroups(t) && |h| + |t| <= 7
    requires Lower(text) == Join(h, ":") + "::" + Join(t, ":")
    ensures ExpandIpv6(text) == Some(Canonical(ShortAddress(h, t)))
  {
    LowShortFormExpands(text, h, t);
    FilledGroups(h, t);
    StrippedGroups(h + Zeros(8 - |h| - |t|) + t, ShortAddress(h, t));
  }

  lemma ShortTextLowers(text: string, head: seq<string>, tail: seq<string>)
    requires ShortForm(text, head, tail)
    ensures Lower(text) == Join(Lowered(head), ":") + "::" + Join(Lowered(tail), ":")
  {
    LowerJoin(head);
    LowerJoin(tail);
    LowerConcat(Join(head, ":") + "::", Join(tail, ":"));
    LowerConcat(Join(head, ":"), "::");
    assert Lower("::") == "::";
  }

  lemma ShortFormExpands(text: string, head: seq<string>, tail: seq<string>)
    requires ShortForm(text, head, tail)
    ensures ExpandIpv6(text) == Some(Canonical(ShortAddress(head, tail)))
  {
    LoweredAddress(head, tail);
    ShortTextLowers(text, head, tail);
    LowShortFormAddress(text, Lowered(head), Lowered(tail));
  }

  lemma LoweredAddress(head: seq<string>, tail: seq<string>)
    requires AreGroups(head) && AreGroups(tail) && |head| + |tail| <= 7
    ensures AreLowGroups(Lowered(head)) && AreLowGroups(Lowered(tail))
    ensures ShortAddress(Lowered(head), Lowered(tail)) == ShortAddress(head, tail)
  {
    LoweredGroups(head);
    LoweredGroups(tail);
  }

  lemma LowShortFormExpands(text: string, h: seq<string>, t: seq<string>)
    requires AreLowGroups(h) && AreLowGroups(t) && |h| + |t| <= 7
    requires Lower(text) == Join(h, ":") + "::" + Join(t, ":")
    ensures ExpandIpv6(text) == Some(Mapped(h + Zeros(8 - |h| - |t|) + t, StripZeros))
  {
    var a, b := Join(h, ":"), Join(t, ":");
    JoinIsTight(h);
    JoinIsTight(t);
    SplitDoubleOfShort(a, b);
    GroupsOfJoin(h);
    GroupsOfJoin(t);
    PartsAssemble(a, b, h, t);
    assert GateLetsThrough(a + "::" + b);
    GateOpens(text);
  }

  lemma GateOpens(text: string)
    requires Lower(text) != [] && GateLetsThrough(Lower(text))
    ensures var groups := Assembled(SplitDouble(Lower(text)));
            ExpandIpv6(text) == if groups.None? then None else Some(Mapped(groups.value, StripZeros))
  {
    forall c | c in Lower(text) ensures IsHexDigit(c) || c == ':' {
      var k :| 0 <= k < |Lower(text)| && Lower(text)[k] == c;
    }
  }

  /** Every form 1 or form 2 text of an address expands to the same eight groups: any case,
      any leading zeros, any legal place and width of the `::`. */
  lemma ExpandRecoversAddress(text: string, address: seq<nat>)
    requires DenotesV6(text, address)
    ensures ExpandIpv6(text) == Some(Canonical(address))
  {
    if gs :| FullForm(text, gs) && address == GroupValues(gs) {
      FullFormExpands(text, gs);
    } else {
      var head, tail :| ShortForm(text, head, tail)
                        && address == ShortAddress(head, tail);
      ShortFormExpands(text, head, tail);
    }
  }

  // ------------------------------------------------------------ which texts are accepted

  function Colons(s: string): nat {
    if s == [] then 0 else (if s[0] == ':' then 1 else 0) + Colons(s[1..])
  }

  /** How many groups a part of a text holds, empty ones included. */
  function GroupsIn(part: string): nat {
    if part == [] then 0 else Colons(part) + 1
  }

  /** Hexadecimal digits and colons only, and eight groups, or one `::` with at most eight
      groups around it. Nothing is asked of the groups themselves. */
  predicate Accepted(text: string) {
    && text != [] && GateLetsThrough(text)
    && var i := FirstDouble(text);
       if i == |text| then Colons(text) == 7
       else FirstDouble(text[i + 2..]) == |text[i + 2..]| && GroupsIn(text[..i]) + GroupsIn(text[i + 2..]) <= 8
  }

  lemma {:induction false} SplitCountsColons(s: string)
    ensures |Split(s, ':')| == Colons(s) + 1
  {
    if s != [] {
      SplitCountsColons(s[1..]);
    }
  }

  lemma GroupsAreCounted(part: string)
    ensures |Groups(part)| == GroupsIn(part)
  {
    SplitCountsColons(part);
  }

  lemma {:induction false} LowerKeepsColons(s: string)
    ensures FirstDouble(Lower(s)) == FirstDouble(s) && Colons(Lower(s)) == Colons(s)
  {
    if s != [] {
      LowerKeepsColons(s[1..]);
      assert Lower(s)[1..] == Lower(s[1..]);
    }
  }

  lemma LowerKeepsGate(s: string)
    ensures GateLetsThrough(Lower(s)) <==> GateLetsThrough(s)
  {
    assert forall k :: 0 <= k < |s| ==> Lower(s)[k] == LowerChar(s[k]);
  }

  lemma LowerKeepsAcceptance(s: string)
    ensures Accepted(Lower(s)) == Accepted(s)
  {
    LowerKeepsGate(s);
    LowerKeepsColons(s);
    var i := FirstDouble(s);
    if i < |s| {
      assert Lower(s)[..i] == Lower(s[..i]) && Lower(s)[i + 2..] == Lower(s[i + 2..]);
      LowerKeepsColons(s[..i]);
      LowerKeepsColons(s[i + 2..]);
    }
  }

  lemma SplitDoubleStep(s: string, i: nat, rest: string)
    requires FirstDouble(s) == i && i + 2 <= |s| && rest == s[i + 2..]
    ensures SplitDouble(s) == [s[..i]] + SplitDouble(rest)
  {
  }

  lemma NoDoubleNoSplit(s: string)
    requires FirstDouble(s) == |s|
    ensures SplitDouble(s) == [s]
  {
  }

  lemma OneDouble(s: string, i: nat, rest: string)
    requires FirstDouble(s) == i && i + 2 <= |s| && rest == s[i + 2..]
    requires FirstDouble(rest) == |rest|
    ensures SplitDouble(s) == [s[..i], rest]
  {
    SplitDoubleStep(s, i, rest);
    NoDoubleNoSplit(rest);
  }

  lemma TwoDoubles(s: string, i: nat, rest: string)
    requires FirstDouble(s) == i && i + 2 <= |s| && rest == s[i + 2..]
    requires FirstDouble(rest) < |rest|
    ensures |SplitDouble(s)| > 2
  {
    SplitDoubleStep(s, i, rest);
    SplitDoubleStep(rest, FirstDouble(rest), rest[FirstDouble(rest) + 2..]);
  }

  lemma AssembledExactlyWhen(parts: seq<string>)
    requires |parts| > 0
    ensures Assembled(parts).Some? <==>
            if |parts| == 1 then GroupsIn(parts[0]) == 8
            else |parts| == 2 && GroupsIn(parts[0]) + GroupsIn(parts[1]) <= 8
  {
    GroupsAreCounted(parts[0]);
    if |parts| == 2 {
      GroupsAreCounted(parts[1]);
    }
  }

  lemma LowerTextExpandsExactlyWhen(s: string)
    requires s != [] && GateLetsThrough(s)
    ensures Assembled(SplitDouble(s)).Some? <==> Accepted(s)
  {
    var i := FirstDouble(s);
    AssembledExactlyWhen(SplitDouble(s));
    if i == |s| {
      NoDoubleNoSplit(s);
    } else if FirstDouble(s[i + 2..]) == |s[i + 2..]| {
      OneDouble(s, i, s[i + 2..]);
    } else {
      TwoDoubles(s, i, s[i + 2..]);
    }
  }

  /** Exactly these texts are expanded; every other text is refused. */
  lemma ExpandsExactlyWhen(text: string)
    ensures ExpandIpv6(text).Some? <==> Accepted(text)
  {
    var lower := Lower(text);
    LowerKeepsAcceptance(text);
    if lower != [] {
      if GateLetsThrough(lower) {
        GateOpens(text);
        LowerTextExpandsExactlyWhen(lower);
      } else {
        var k :| 0 <= k < |lower| && !(IsHexDigit(lower[k]) || lower[k] == ':');
        assert lower[k] in lower;
      }
    }
  }

  /** The groups of an accepted text are well-formed, and its `::` stands for at least one. */
  predicate GroupsAreWellFormed(text: string) {
    var i := FirstDouble(text);
    if i == |text| then AreGroups(Split(text, ':'))
    else
      && AreGroups(Groups(text[..i])) && AreGroups(Groups(text[i + 2..]))
      && GroupsIn(text[..i]) + GroupsIn(text[i + 2..]) <= 7
  }

  lemma JoinOfGroups(gs: seq<string>)
    requires AreGroups(gs)
    ensures Groups(Join(gs, ":")) == gs
  {
    if gs != [] {
      forall k | 0 <= k < |gs| ensures ':' !in gs[k] {
        assert IsGroup(gs[k]);
      }
      SplitOfJoin(gs, ':');
      assert IsGroup(gs[0]);
      assert Join(gs, ":")[0] == gs[0][0];
    }
  }

  lemma JoinOfGroupsIsTight(gs: seq<string>)
    requires AreGroups(gs)
    ensures var s := Join(gs, ":"); FirstDouble(s) == |s| && (s != [] ==> s[|s| - 1] != ':')
  {
    var s := Join(gs, ":");
    LoweredGroups(gs);
    LowerJoin(gs);
    JoinIsTight(Lowered(gs));
    LowerKeepsColons(s);
    assert s != [] ==> Lower(s)[|s| - 1] == LowerChar(s[|s| - 1]);
  }

  lemma GroupsOfPartJoin(part: string)
    ensures Join(Groups(part), ":") == part
  {
    if part != [] {
      JoinOfSplit(part, ':');
    }
  }

  lemma FullFormIsWellFormed(text: string, gs: seq<string>)
    requires FullForm(text, gs)
    ensures GroupsAreWellFormed(text)
  {
    JoinOfGroups(gs);
    JoinOfGroupsIsTight(gs);
  }

  lemma ShortFormIsWellFormed(text: string, head: seq<string>, tail: seq<string>)
    requires ShortForm(text, head, tail)
    ensures GroupsAreWellFormed(text)
  {
    var a, b := Join(head, ":"), Join(tail, ":");
    JoinOfGroups(head);
    JoinOfGroups(tail);
    JoinOfGroupsIsTight(head);
    DoubleAfterTight(a, b);
    assert text[..|a|] == a && text[|a| + 2..] == b;
    GroupsAreCounted(a);
    GroupsAreCounted(b);
  }

  lemma WellFormedDenotes(text: string)
    requires Accepted(text) && GroupsAreWellFormed(text)
    ensures exists address :: DenotesV6(text, address)
  {
    var i := FirstDouble(text);
    if i == |text| {
      var gs := Split(text, ':');
      SplitCountsColons(text);
      JoinOfSplit(text, ':');
      assert FullForm(text, gs);
      assert DenotesV6(text, GroupValues(gs));
    } else {
      var head, tail := Groups(text[..i]), Groups(text[i + 2..]);
      GroupsAreCounted(text[..i]);
      GroupsAreCounted(text[i + 2..]);
      GroupsOfPartJoin(text[..i]);
      GroupsOfPartJoin(text[i + 2..]);
      assert text == text[..i] + "::" + text[i + 2..];
      assert ShortForm(text, head, tail);
      assert DenotesV6(text, ShortAddress(head, tail));
    }
  }

  /** A text is a form 1 or form 2 text of an address exactly when it is accepted, each group
      has one to four digits, and its `::` stands for at least one group. */
  lemma DenotesExactlyWhen(text: string)
    ensures (exists address :: DenotesV6(text, address)) <==> ExpandIpv6(text).Some? && GroupsAreWellFormed(text)
  {
    ExpandsExactlyWhen(text);
    if address :| DenotesV6(text, address) {
      ExpandRecoversAddress(text, address);
      if gs :| FullForm(text, gs) && address == GroupValues(gs) {
        FullFormIsWellFormed(text, gs);
      } else {
        var head, tail :| ShortForm(text, head, tail) && address == ShortAddress(head, tail);
        ShortFormIsWellFormed(text, head, tail);
      }
    }
    if ExpandIpv6(text).Some? && GroupsAreWellFormed(text) {
      WellFormedDenotes(text);
    }
  }

  lemma WordIsOneGroup(g: string)
    requires g != [] && ':' !in g
    ensures Groups(g) == [g] && GroupsIn(g) == 1
  {
    SplitWord(g, ':');
    GroupsAreCounted(g);
  }

  /** A group of more than four digits makes a text that denotes no address, yet is expanded. */
  lemma LongGroupIsAccepted(g: string)
    requires |g| > 4 && IsLowerHex(g)
    ensures ExpandIpv6(g + "::" + "1").Some?
    ensures !exists address :: DenotesV6(g + "::" + "1", address)
  {
    var one := "1";
    var text := g + "::" + one;
    WordHasNoDouble(g);
    DoubleAfterTight(g, one);
    assert text[..|g|] == g && text[|g| + 2..] == one;
    WordIsOneGroup(g);
    WordIsOneGroup(one);
    ExpandsExactlyWhen(text);
    DenotesExactlyWhen(text);
    assert !IsGroup([g][0]);
  }

  lemma FiveDigitGroupIsAccepted()
    ensures ExpandIpv6("12345::1").Some?
    ensures !exists address :: DenotesV6("12345::1", address)
  {
    LongGroupIsAccepted("12345");
    assert "12345" + "::" + "1" == "12345::1";
  }

  // ------------------------------------------------------------ masks

  /** An address, by its four octets or its eight groups. */
  datatype Ip = V4(octets: seq<nat>) | V6(groups: seq<nat>)

  ghost predicate DottedQuad(text: string, parts: seq<string>) {
    |parts| == 4 && (forall k :: 0 <= k < 4 ==> IsOctetText(parts[k])) && text == Join(parts, ".")
  }

  function OctetValues(parts: seq<string>): seq<nat> {
    Mapped(parts, (s: string) => Value(s, 10))
  }

  ghost predicate Denotes(text: string, ip: Ip) {
    match ip
    case V4(octets) =>
      && (exists parts :: DottedQuad(text, parts) && octets == OctetValues(parts))
      && forall n :: n in octets ==> n <= 255
    case V6(groups) => DenotesV6(text, groups)
  }

  /** The bits the mask keeps: 24 of an IPv4 address, 64 of an IPv6 address. */
  function Subnet(ip: Ip): seq<nat>
    requires ip.V4? ==> |ip.octets| == 4
    requires ip.V6? ==> |ip.groups| == 8
  {
    match ip
    case V4(octets) => octets[..IPV4_PREFIX_OCTETS]
    case V6(groups) => groups[..IPV6_PREFIX_GROUPS]
  }

  function Numerals(ns: seq<nat>, base: nat): seq<string>
    requires base == 10 || base == 16
  {
    Mapped(ns, (n: nat) => Numeral(n, base))
  }

  function MaskOf(ip: Ip): string
    requires ip.V4? ==> |ip.octets| == 4
    requires ip.V6? ==> |ip.groups| == 8
  {
    if ip.V4? then Join(Numerals(Subnet(ip), 10), ".") + ".0/24"
    else Join(Numerals(Subnet(ip), 16), ":") + "::/64"
  }

  lemma {:induction false} NumeralCharacters(n: nat, base: nat)
    requires base == 10 || base == 16
    ensures |Numeral(n, base)| > 0 && IsLowerHex(Numeral(n, base))
    decreases n
  {
    if n >= base {
      if base == 10 {
        NumeralCharacters(n / 10, 10);
      } else {
        NumeralCharacters(n / 16, 16);
      }
    }
  }

  lemma NumeralsAvoid(ns: seq<nat>, base: nat, sep: char)
    requires base == 10 || base == 16
    requires sep == '.' || sep == ':'
    ensures forall k :: 0 <= k < |ns| ==> sep !in Numerals(ns, base)[k]
  {
    forall k | 0 <= k < |ns| ensures sep !in Numerals(ns, base)[k] {
      NumeralCharacters(ns[k], base);
    }
  }

  lemma NumeralsAreInjective(a: seq<nat>, b: seq<nat>, base: nat)
    requires base == 10 || base == 16
    requires Numerals(a, base) == Numerals(b, base)
    ensures a == b
  {
    assert |a| == |Numerals(a, base)| == |b|;
    forall k | 0 <= k < |a| ensures a[k] == b[k] {
      assert Numeral(a[k], base) == Numerals(a, base)[k] == Numerals(b, base)[k] == Numeral(b[k], base);
      ValueOfNumeral(a[k], base);
      ValueOfNumeral(b[k], base);
    }
  }

  lemma SuffixCancels(x: string, y: string, suffix: string)
    requires x + suffix == y + suffix
    ensures x == y
  {
    assert |x| == |y|;
    assert x == (x + suffix)[..|x|] && y == (y + suffix)[..|y|];
  }

  /** Equal masks keep equal bits, and no IPv4 mask is an IPv6 mask. */
  lemma MaskOfIsInjective(a: Ip, b: Ip)
    requires a.V4? ==> |a.octets| == 4
    requires a.V6? ==> |a.groups| == 8
    requires b.V4? ==> |b.octets| == 4
    requires b.V6? ==> |b.groups| == 8
    ensures MaskOf(a) == MaskOf(b) <==> a.V4? == b.V4? && Subnet(a) == Subnet(b)
  {
    var s, t := Subnet(a), Subnet(b);
    if a.V4? != b.V4? {
      assert MaskOf(a)[|MaskOf(a)| - 2] != MaskOf(b)[|MaskOf(b)| - 2];
    } else if MaskOf(a) == MaskOf(b) {
      var base, sep := if a.V4? then 10 else 16, if a.V4? then '.' else ':';
      SuffixCancels(Join(Numerals(s, base), [sep]), Join(Numerals(t, base), [sep]), if a.V4? then ".0/24" else "::/64");
      NumeralsAvoid(s, base, sep);
      NumeralsAvoid(t, base, sep);
      JoinIsInjective(Numerals(s, base), Numerals(t, base), sep);
      NumeralsAreInjective(s, t, base);
    }
  }

  lemma DottedQuadSplits(text: string, parts: seq<string>)
    requires DottedQuad(text, parts)
    ensures Split(text, '.') == parts && LooksLikeIpv4(text)
  {
    forall k | 0 <= k < |parts| ensures '.' !in parts[k] {
      assert IsOctetText(parts[k]);
    }
    SplitOfJoin(parts, '.');
  }

  lemma Ipv4TextHasNoColon(text: string)
    requires LooksLikeIpv4(text)
    ensures ':' !in text
  {
    JoinOfSplit(text, '.');
    JoinedCharacters(Split(text, '.'), '.', ':');
    assert forall k :: 0 <= k < 4 ==> IsOctetText(Split(text, '.')[k]);
  }

  lemma V6TextHasColon(text: string, address: seq<nat>)
    requires DenotesV6(text, address)
    ensures ':' in text
  {
    if gs :| FullForm(text, gs) && address == GroupValues(gs) {
      assert text == gs[0] + ":" + Join(gs[1..], ":");
      assert text[|gs[0]|] == ':';
    } else {
      var head, tail :| ShortForm(text, head, tail)
                        && address == ShortAddress(head, tail);
      assert text[|Join(head, ":")|] == ':';
    }
  }

  lemma MaskOfV4Text(raw: string, octets: seq<nat>)
    requires Denotes(Trim(raw), V4(octets))
    ensures |octets| == 4 && MaskIp(Some(raw), UserAgentAndSubnet) == MaskOf(V4(octets))
  {
    var text := Trim(raw);
    var parts :| DottedQuad(text, parts) && octets == OctetValues(parts);
    DottedQuadSplits(text, parts);
    assert text != [] by {
      assert IsOctetText(parts[0]);
    }
  }

  lemma MaskOfV6Text(raw: string, groups: seq<nat>)
    requires DenotesV6(Trim(raw), groups)
    ensures |groups| == 8 && MaskIp(Some(raw), UserAgentAndSubnet) == MaskOf(V6(groups))
  {
    var text := Trim(raw);
    V6TextHasColon(text, groups);
    if LooksLikeIpv4(text) {
      Ipv4TextHasNoColon(text);
    }
    ExpandRecoversAddress(text, groups);
    assert Canonical(groups)[..4] == Numerals(groups[..4], 16);
  }

  lemma JoinThree(a: string, b: string, c: string, sep: string)
    ensures Join([a, b, c], sep) == a + sep + b + sep + c
  {
    assert [a, b, c][1..] == [b, c] && [b, c][1..] == [c];
    assert Join([b, c], sep) == b + sep + c;
    assert a + sep + (b + sep + c) == a + sep + b + sep + c;
  }

  lemma JoinFour(a: string, b: string, c: string, d: string, sep: string)
    ensures Join([a, b, c, d], sep) == a + sep + b + sep + c + sep + d
  {
    assert [a, b, c, d][1..] == [b, c, d];
    JoinThree(b, c, d, sep);
    assert a + sep + (b + sep + c + sep + d) == a + sep + b + sep + c + sep + d;
  }

  lemma MaskOfQuad(octets: seq<nat>)
    requires |octets| == 4
    ensures MaskOf(V4(octets)) ==
            Numeral(octets[0], 10) + "." + Numeral(octets[1], 10) + "." + Numeral(octets[2], 10) + ".0/24"
  {
    assert octets[..3] == [octets[0], octets[1], octets[2]];
    assert Numerals(octets[..3], 10) == [Numeral(octets[0], 10), Numeral(octets[1], 10), Numeral(octets[2], 10)];
    JoinThree(Numeral(octets[0], 10), Numeral(octets[1], 10), Numeral(octets[2], 10), ".");
  }

  lemma MaskOfGroups(groups: seq<nat>)
    requires |groups| == 8
    ensures MaskOf(V6(groups)) ==
            Numeral(groups[0], 16) + ":" + Numeral(groups[1], 16) + ":" + Numeral(groups[2], 16) + ":"
            + Numeral(groups[3], 16) + "::/64"
  {
    assert groups[..4] == [groups[0], groups[1], groups[2], groups[3]];
    assert Numerals(groups[..4], 16)
           == [Numeral(groups[0], 16), Numeral(groups[1], 16), Numeral(groups[2], 16), Numeral(groups[3], 16)];
    JoinFour(Numeral(groups[0], 16), Numeral(groups[1], 16), Numeral(groups[2], 16), Numeral(groups[3], 16), ":");
  }

  /** The mask of a well-formed address text: the first three octets and ".0/24", or the first
      four groups and "::/64", each number without leading zeros. */
  lemma MaskOfText(raw: string, ip: Ip)
    requires Denotes(Trim(raw), ip)
    ensures ip.V4? ==> |ip.octets| == 4
    ensures ip.V6? ==> |ip.groups| == 8
    ensures MaskIp(Some(raw), UserAgentAndSubnet) == MaskOf(ip)
    ensures ip.V4? ==>
              MaskIp(Some(raw), UserAgentAndSubnet) ==
              Numeral(ip.octets[0], 10) + "." + Numeral(ip.octets[1], 10) + "." + Numeral(ip.octets[2], 10) + ".0/24"
    ensures ip.V6? ==>
              MaskIp(Some(raw), UserAgentAndSubnet) ==
              Numeral(ip.groups[0], 16) + ":" + Numeral(ip.groups[1], 16) + ":" + Numeral(ip.groups[2], 16) + ":"
              + Numeral(ip.groups[3], 16) + "::/64"
  {
    match ip
    case V4(octets) =>
      MaskOfV4Text(raw, octets);
      MaskOfQuad(octets);
    case V6(groups) =>
      MaskOfV6Text(raw, groups);
      MaskOfGroups(groups);
  }

  /** Two addresses, however they are written, get the same mask exactly when they are IPv4
      addresses with the same first three octets or IPv6 addresses with the same first four
      groups. */
  lemma SameMaskExactlyWhenSameSubnet(raw1: string, ip1: Ip, raw2: string, ip2: Ip)
    requires Denotes(Trim(raw1), ip1) && Denotes(Trim(raw2), ip2)
    ensures ip1.V4? ==> |ip1.octets| == 4
    ensures ip1.V6? ==> |ip1.groups| == 8
    ensures ip2.V4? ==> |ip2.octets| == 4
    ensures ip2.V6? ==> |ip2.groups| == 8
    ensures MaskIp(Some(raw1), UserAgentAndSubnet) == MaskIp(Some(raw2), UserAgentAndSubnet) <==>
            || (ip1.V4? && ip2.V4? && ip1.octets[0] == ip2.octets[0] && ip1.octets[1] == ip2.octets[1]
                && ip1.octets[2] == ip2.octets[2])
            || (ip1.V6? && ip2.V6? && ip1.groups[0] == ip2.groups[0] && ip1.groups[1] == ip2.groups[1]
                && ip1.groups[2] == ip2.groups[2] && ip1.groups[3] == ip2.groups[3])
  {
    MaskOfText(raw1, ip1);
    MaskOfText(raw2, ip2);
    MaskOfIsInjective(ip1, ip2);
    SameSubnetExactlyWhen(ip1, ip2);
  }

  lemma SameSubnetExactlyWhen(a: Ip, b: Ip)
    requires a.V4? ==> |a.octets| == 4
    requires a.V6? ==> |a.groups| == 8
    requires b.V4? ==> |b.octets| == 4
    requires b.V6? ==> |b.groups| == 8
    ensures a.V4? == b.V4? && Subnet(a) == Subnet(b) <==>
            || (a.V4? && b.V4? && a.octets[0] == b.octets[0] && a.octets[1] == b.octets[1] && a.octets[2] == b.octets[2])
            || (a.V6? && b.V6? && a.groups[0] == b.groups[0] && a.groups[1] == b.groups[1]
                && a.groups[2] == b.groups[2] && a.groups[3] == b.groups[3])
  {
    if a.V4? && b.V4? && Subnet(a) == Subnet(b) {
      forall k | 0 <= k < 3 ensures a.octets[k] == b.octets[k] {
        assert Subnet(a)[k] == a.octets[k] && Subnet(b)[k] == b.octets[k];
      }
    }
    if a.V6? && b.V6? && Subnet(a) == Subnet(b) {
      forall k | 0 <= k < 4 ensures a.groups[k] == b.groups[k] {
        assert Subnet(a)[k] == a.groups[k] && Subnet(b)[k] == b.groups[k];
      }
    }
  }

  /** The digits and their values. */
  lemma DigitsAre(c: char, d: nat)
    requires d < 16
    ensures IsHexDigit(c) && DigitValue(c) == d <==> c == "0123456789abcdef"[d] || c == "0123456789ABCDEF"[d]
    ensures IsDigit(c) && DigitValue(c) == d <==> d < 10 && c == "0123456789"[d]
    ensures DigitChar(d) == "0123456789abcdef"[d]
  {
  }

  lemma {:induction false} NumeralDigits(n: nat)
    ensures forall k :: 0 <= k < |Numeral(n, 10)| ==> IsDigit(Numeral(n, 10)[k])
    decreases n
  {
    if n >= 10 {
      NumeralDigits(n / 10);
    }
  }

  lemma OctetNumeral(n: nat)
    requires n <= 255
    ensures IsOctetText(Numeral(n, 10)) && Value(Numeral(n, 10), 10) == n
  {
    NumeralDigits(n);
    ValueOfNumeral(n, 10);
    assert n >= 10 ==> |Numeral(n / 10, 10)| <= 2 by {
      assert n / 10 / 10 < 10;
    }
  }

  /** Every dotted quad of numbers up to 255 is recognised, and masked to its first three. */
  lemma QuadIsMasked(raw: string, octets: seq<nat>)
    requires |octets| == 4 && forall k :: 0 <= k < 4 ==> octets[k] <= 255
    requires Trim(raw) == Join(Numerals(octets, 10), ".")
    ensures MaskIp(Some(raw), UserAgentAndSubnet) ==
            Numeral(octets[0], 10) + "." + Numeral(octets[1], 10) + "." + Numeral(octets[2], 10) + ".0/24"
  {
    var parts := Numerals(octets, 10);
    forall k | 0 <= k < 4 ensures IsOctetText(parts[k]) && Value(parts[k], 10) == octets[k] {
      OctetNumeral(octets[k]);
    }
    assert DottedQuad(Trim(raw), parts) && OctetValues(parts) == octets;
    MaskOfText(raw, V4(octets));
  }

  /** Every sequence of eight numbers below 65536 in hexadecimal is recognised. */
  lemma GroupsAreMasked(raw: string, groups: seq<nat>)
    requires |groups| == 8 && forall k :: 0 <= k < 8 ==> groups[k] < 0x1_0000
    requires Trim(raw) == Join(Numerals(groups, 16), ":")
    ensures MaskIp(Some(raw), UserAgentAndSubnet) ==
            Numeral(groups[0], 16) + ":" + Numeral(groups[1], 16) + ":" + Numeral(groups[2], 16) + ":"
            + Numeral(groups[3], 16) + "::/64"
  {
    var gs := Numerals(groups, 16);
    forall k | 0 <= k < 8 ensures IsGroup(gs[k]) && Value(gs[k], 16) == groups[k] {
      GroupNumeral(groups[k]);
    }
    assert FullForm(Trim(raw), gs) && GroupValues(gs) == groups;
    MaskOfText(raw, V6(groups));
  }

  lemma GroupNumeral(n: nat)
    requires n < 0x1_0000
    ensures IsGroup(Numeral(n, 16)) && Value(Numeral(n, 16), 16) == n
  {
    NumeralCharacters(n, 16);
    ValueOfNumeral(n, 16);
    HexLength(n);
  }

  lemma HexLength(n: nat)
    requires n < 0x1_0000
    ensures 1 <= |Numeral(n, 16)| <= 4
  {
    var a := n / 16;
    var b := a / 16;
    assert a < 0x1000 && b < 0x100 && b / 16 < 16;
    assert |Numeral(b / 16, 16)| == 1;
    assert |Numeral(b, 16)| <= 2 && |Numeral(a, 16)| <= 3;
  }

  /** `text` is four texts of one to three digits, with dots between them. */
  ghost predicate IsQuad(text: string, a: string, b: string, c: string, d: string) {
    && text == a + "." + b + "." + c + "." + d
    && 1 <= |a| <= 3 && 1 <= |b| <= 3 && 1 <= |c| <= 3 && 1 <= |d| <= 3
    && forall x :: x in a + b + c + d ==> '0' <= x <= '9'
  }

  /** Which texts are taken for IPv4 addresses. */
  lemma LooksLikeIpv4ExactlyWhen(text: string)
    ensures LooksLikeIpv4(text) <==> exists a, b, c, d :: IsQuad(text, a, b, c, d)
  {
    if LooksLikeIpv4(text) {
      var parts := Split(text, '.');
      JoinOfSplit(text, '.');
      assert parts == [parts[0], parts[1], parts[2], parts[3]];
      JoinFour(parts[0], parts[1], parts[2], parts[3], ".");
      forall k | 0 <= k < 4 ensures forall x :: x in parts[k] ==> '0' <= x <= '9' {
        assert IsOctetText(parts[k]);
      }
      assert IsOctetText(parts[0]) && IsOctetText(parts[1]) && IsOctetText(parts[2]) && IsOctetText(parts[3]);
      assert IsQuad(text, parts[0], parts[1], parts[2], parts[3]);
    }
    if a, b, c, d :| IsQuad(text, a, b, c, d) {
      QuadLooksLikeIpv4(text, a, b, c, d);
    }
  }

  lemma QuadLooksLikeIpv4(text: string, a: string, b: string, c: string, d: string)
    requires IsQuad(text, a, b, c, d)
    ensures LooksLikeIpv4(text)
  {
    var parts := [a, b, c, d];
    JoinFour(a, b, c, d, ".");
    forall k, i | 0 <= k < 4 && 0 <= i < |parts[k]| ensures IsDigit(parts[k][i]) {
      assert parts[k][i] in a + b + c + d;
    }
    assert DottedQuad(text, parts);
    DottedQuadSplits(text, parts);
  }

  lemma MaskIsNotInvalid(front: string, suffix: string)
    requires |suffix| > 1 && suffix[|suffix| - 1] == '4'
    ensures front + suffix != "invalid"
  {
    assert (front + suffix)[|front + suffix| - 1] == '4';
  }

  lemma QuadIsInvalidExactlyWhen(raw: string)
    requires LooksLikeIpv4(Trim(raw)) && Trim(raw) != []
    ensures MaskIp(Some(raw), UserAgentAndSubnet) == "invalid" <==>
            exists n :: n in OctetValues(Split(Trim(raw), '.')) && n > 255
  {
    var octets := OctetValues(Split(Trim(raw), '.'));
    MaskIsNotInvalid(Join(Numerals(octets[..IPV4_PREFIX_OCTETS], 10), "."), ".0/24");
  }

  lemma OtherIsInvalidExactlyWhen(raw: string)
    requires !LooksLikeIpv4(Trim(raw)) && Trim(raw) != []
    ensures MaskIp(Some(raw), UserAgentAndSubnet) == "invalid" <==> !Accepted(Trim(raw))
  {
    var expanded := ExpandIpv6(Trim(raw));
    ExpandsExactlyWhen(Trim(raw));
    if expanded.Some? {
      MaskIsNotInvalid(Join(expanded.value[..IPV6_PREFIX_GROUPS], ":"), "::/64");
    }
  }

  /** A text is masked as invalid exactly when it is blank, a dotted quad with a number above
      255, or neither a dotted quad nor an accepted IPv6 text. */
  lemma InvalidExactlyWhen(raw: string)
    ensures var text := Trim(raw);
            MaskIp(Some(raw), UserAgentAndSubnet) == "invalid" <==>
            || text == []
            || (LooksLikeIpv4(text) && exists n :: n in OctetValues(Split(text, '.')) && n > 255)
            || (!LooksLikeIpv4(text) && !Accepted(text))
  {
    if Trim(raw) != [] {
      if LooksLikeIpv4(Trim(raw)) {
        QuadIsInvalidExactlyWhen(raw);
      } else {
        OtherIsInvalidExactlyWhen(raw);
      }
    }
  }

  /** A text with both a colon and a dot, as in form 3 of section 2.2 of RFC 4291, is not
      recognised: all such addresses share one mask. */
  lemma MixedFormIsInvalid(raw: string)
    requires ':' in Trim(raw) && '.' in Trim(raw)
    ensures MaskIp(Some(raw), UserAgentAndSubnet) == "invalid"
  {
    var text := Trim(raw);
    if LooksLikeIpv4(text) {
      Ipv4TextHasNoColon(text);
    }
    var k :| 0 <= k < |text| && text[k] == '.';
    assert !GateLetsThrough(text);
    OtherIsInvalidExactlyWhen(raw);
  }

  // ------------------------------------------------------------ the hashed text

  lemma {:induction false} SplitDoubleCharacters(s: string, k: nat)
    requires k < |SplitDouble(s)|
    ensures forall c :: c in SplitDouble(s)[k] ==> c in s
    decreases |s|
  {
    var i := FirstDouble(s);
    if i < |s| && k > 0 {
      SplitDoubleCharacters(s[i + 2..], k - 1);
    }
  }

  lemma {:induction false} StripZerosKeepsCharacters(g: string)
    ensures forall c :: c in StripZeros(g) ==> c in g
  {
    if |g| > 1 && g[0] == '0' {
      StripZerosKeepsCharacters(g[1..]);
    }
  }

  lemma GroupsCharacters(part: string, k: nat)
    requires k < |Groups(part)|
    ensures forall c :: c in Groups(part)[k] ==> c in part
  {
    SplitPartsAvoid(part, ':', k);
  }

  lemma AssembledHasNoPipe(parts: seq<string>, k: nat)
    requires |parts| > 0 && Assembled(parts).Some? && k < 8
    requires forall i :: 0 <= i < |parts| ==> '|' !in parts[i]
    ensures '|' !in Assembled(parts).value[k]
  {
    var head := Groups(parts[0]);
    if k < |head| {
      GroupsCharacters(parts[0], k);
      assert Assembled(parts).value[k] == head[k];
    } else if |parts| == 2 {
      var tail := Groups(parts[1]);
      if k < 8 - |tail| {
        assert Assembled(parts).value[k] == "0";
      } else {
        GroupsCharacters(parts[1], k - (8 - |tail|));
        assert Assembled(parts).value[k] == tail[k - (8 - |tail|)];
      }
    }
  }

  lemma ExpandedHasNoPipe(text: string, k: nat)
    requires ExpandIpv6(text).Some? && k < 8
    ensures '|' !in ExpandIpv6(text).value[k]
  {
    var lower := Lower(text);
    var parts := SplitDouble(lower);
    forall i | 0 <= i < |parts| ensures '|' !in parts[i] {
      SplitDoubleCharacters(lower, i);
    }
    AssembledHasNoPipe(parts, k);
    StripZerosKeepsCharacters(Assembled(parts).value[k]);
  }

  /** No mask contains a pipe, whatever the address text. */
  lemma MaskHasNoPipe(ip: Option<string>, mode: Mode)
    ensures '|' !in MaskIp(ip, mode)
  {
    var text := Trim(if ip.Some? then ip.value else "");
    if mode == UserAgent || text == [] {
    } else if LooksLikeIpv4(text) {
      var octets := OctetValues(Split(text, '.'));
      var shown := Numerals(octets[..3], 10);
      forall k | 0 <= k < 3 ensures '|' !in shown[k] {
        NumeralCharacters(octets[k], 10);
      }
      JoinedCharacters(shown, '.', '|');
    } else if ExpandIpv6(text).Some? {
      var shown := ExpandIpv6(text).value[..4];
      forall k | 0 <= k < 4 ensures '|' !in shown[k] {
        ExpandedHasNoPipe(text, k);
      }
      JoinedCharacters(shown, ':', '|');
    }
  }

  function Shown(s: Option<string>): string {
    Trim(if s.Some? then s.value else "")
  }

  /** A text between two pipes may itself contain pipes, as long as its neighbours do not. */
  lemma PipedPartsAreUnique(m1: string, u1: string, k1: string, m2: string, u2: string, k2: string)
    requires '|' !in m1 && '|' !in m2 && '|' !in k1 && '|' !in k2
    requires m1 + "|" + u1 + "|" + k1 == m2 + "|" + u2 + "|" + k2
    ensures m1 == m2 && u1 == u2 && k1 == k2
  {
    var rest1, rest2 := u1 + "|" + k1, u2 + "|" + k2;
    assert m1 + ['|'] + rest1 == m1 + "|" + u1 + "|" + k1;
    assert m2 + ['|'] + rest2 == m2 + "|" + u2 + "|" + k2;
    FirstSeparatorIsUnique(m1, rest1, m2, rest2, '|');
    LastSeparatorIsUnique(u1, k1, u2, k2, '|');
  }

  lemma ModeTexts(mode1: Mode, mode2: Mode)
    ensures '|' !in ModeText(mode1)
    ensures ModeText(mode1) == ModeText(mode2) ==> mode1 == mode2
  {
    assert |ModeText(UserAgentAndSubnet)| != |ModeText(UserAgent)|;
  }

  /** The hashed text determines mode, trimmed user agent and mask, even when the user agent
      contains pipes. */
  lemma CompositeDeterminesParts(mode1: Mode, ua1: Option<string>, ip1: Option<string>,
                                 mode2: Mode, ua2: Option<string>, ip2: Option<string>)
    ensures Composite(mode1, ua1, ip1) == Composite(mode2, ua2, ip2) <==>
            mode1 == mode2 && Shown(ua1) == Shown(ua2) && MaskIp(ip1, mode1) == MaskIp(ip2, mode2)
  {
    if Composite(mode1, ua1, ip1) == Composite(mode2, ua2, ip2) {
      ModeTexts(mode1, mode2);
      ModeTexts(mode2, mode1);
      MaskHasNoPipe(ip1, mode1);
      MaskHasNoPipe(ip2, mode2);
      PipedPartsAreUnique(ModeText(mode1), Shown(ua1), MaskIp(ip1, mode1),
                          ModeText(mode2), Shown(ua2), MaskIp(ip2, mode2));
    }
  }

  function FingerprintSession(mode: Mode, userAgent: Option<string>, ip: Option<string>, hash: string -> string): string {
    hash(Composite(mode, userAgent, ip))
  }

  ghost predicate Injective(hash: string -> string) {
    forall s, t :: hash(s) == hash(t) ==> s == t
  }

  /** What is hashed: the mode, the trimmed user agent and the mask, which is empty when the mode
      leaves the address out. */
  lemma HashedTextIs(userAgent: string, ip: Option<string>)
    ensures Composite(UserAgent, Some(userAgent), ip) == "userAgent|" + Trim(userAgent) + "|"
    ensures Composite(UserAgentAndSubnet, Some(userAgent), ip) ==
            "userAgent+ipSubnet|" + Trim(userAgent) + "|" + MaskIp(ip, UserAgentAndSubnet)
  {
    var shown, mask := Trim(userAgent), MaskIp(ip, UserAgent);
    assert "userAgent" + "|" + shown + "|" + mask == "userAgent|" + shown + "|";
    assert "userAgent+ipSubnet" + "|" == "userAgent+ipSubnet|";
  }

  /** With an injective hash, two sign-ins from well-formed addresses get one fingerprint
      exactly when they show the same user agent and come from the same subnet. */
  lemma SameDeviceExactlyWhen(ua1: Option<string>, raw1: string, ip1: Ip, ua2: Option<string>, raw2: string, ip2: Ip,
                              hash: string -> string)
    requires Injective(hash) && Denotes(Trim(raw1), ip1) && Denotes(Trim(raw2), ip2)
    ensures ip1.V4? ==> |ip1.octets| == 4
    ensures ip1.V6? ==> |ip1.groups| == 8
    ensures ip2.V4? ==> |ip2.octets| == 4
    ensures ip2.V6? ==> |ip2.groups| == 8
    ensures FingerprintSession(UserAgentAndSubnet, ua1, Some(raw1), hash)
            == FingerprintSession(UserAgentAndSubnet, ua2, Some(raw2), hash) <==>
            && Trim(if ua1.Some? then ua1.value else "") == Trim(if ua2.Some? then ua2.value else "")
            && (|| (ip1.V4? && ip2.V4? && ip1.octets[0] == ip2.octets[0] && ip1.octets[1] == ip2.octets[1]
                    && ip1.octets[2] == ip2.octets[2])
                || (ip1.V6? && ip2.V6? && ip1.groups[0] == ip2.groups[0] && ip1.groups[1] == ip2.groups[1]
                    && ip1.groups[2] == ip2.groups[2] && ip1.groups[3] == ip2.groups[3]))
  {
    SameMaskExactlyWhenSameSubnet(raw1, ip1, raw2, ip2);
    CompositeDeterminesParts(UserAgentAndSubnet, ua1, Some(raw1), UserAgentAndSubnet, ua2, Some(raw2));
  }
}

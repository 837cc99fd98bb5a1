/**
 * Recognising an IPv6 literal (section 2.2 of RFC 4291) the way Rust's `Ipv6Addr::from_str` does: up to eight
 * groups of one to four hex digits, one `::`, and possibly a dotted IPv4 address in the last two groups.
 */
module Ipv6 {
  import opened Wrappers
  import opened Text

  predicate IsHexDigit(c: char) {
    IsDigit(c) || 'a' <= c <= 'f' || 'A' <= c <= 'F'
  }

  function HexRun(s: string): nat {
    if s != [] && IsHexDigit(s[0]) then 1 + HexRun(s[1..]) else 0
  }

  function DigitRun(s: string): nat {
    if s != [] && IsDigit(s[0]) then 1 + DigitRun(s[1..]) else 0
  }

  /** Each reader yields what is left of the text, or nothing when it does not apply. */
  function ReadGroup(s: string): Option<string> {
    if 1 <= HexRun(s) <= 4 && HexRun(s) <= |s| then Some(s[HexRun(s)..]) else None
  }

  /** An octet: one to three decimal digits, no leading zero, at most 255. */
  function ReadOctet(s: string): Option<string> {
    var n := DigitRun(s);
    if 1 <= n <= 3 && n <= |s| && !(s[0] == '0' && n > 1) && AllDigits(s[..n]) && DigitsValue(s[..n]) <= 255
    then Some(s[n..]) else None
  }

  function ReadAfter(separator: char, first: bool, s: string): Option<string> {
    if first then Some(s) else if s != [] && s[0] == separator then Some(s[1..]) else None
  }

  function ReadOctets(s: string, i: nat): Option<string>
    requires i <= 4
    decreases 4 - i
  {
    if i == 4 then Some(s) else
      match ReadAfter('.', i == 0, s)
      case None => None
      case Some(t) =>
        match ReadOctet(t)
        case None => None
        case Some(rest) => ReadOctets(rest, i + 1)
  }

  datatype Groups = Groups(count: nat, dotted: bool, rest: string)

  function ReadDotted(s: string, i: nat): Option<string> {
    match ReadAfter(':', i == 0, s)
    case None => None
    case Some(t) => ReadOctets(t, 0)
  }

  function ReadOneGroup(s: string, i: nat): Option<string> {
    match ReadAfter(':', i == 0, s)
    case None => None
    case Some(t) => ReadGroup(t)
  }

  /** Reading on from group `i`: at the end, or one more group read. */
  datatype Next = Done(groups: Groups) | More(rest: string)

  function NextGroup(s: string, i: nat, limit: nat): (r: Next)
    requires i <= limit
    ensures r.More? ==> i < limit
  {
    if i == limit then Done(Groups(limit, false, s))
    else if i < limit - 1 && ReadDotted(s, i).Some? then Done(Groups(i + 2, true, ReadDotted(s, i).value))
    else
      match ReadOneGroup(s, i)
      case None => Done(Groups(i, false, s))
      case Some(rest) => More(rest)
  }

  function ReadGroups(s: string, i: nat, limit: nat): Groups
    requires i <= limit
    decreases limit - i
  {
    match NextGroup(s, i, limit)
    case Done(groups) => groups
    case More(rest) => ReadGroups(rest, i + 1, limit)
  }

  predicate IsIpv6(s: string) {
    var head := ReadGroups(s, 0, 8);
    if head.count >= 8 then head.rest == []
    else !head.dotted && "::" <= head.rest && ReadGroups(head.rest[2..], 0, 8 - (head.count + 1)).rest == []
  }

  // ---------------------------------------------------------------- what every literal looks like

  predicate IsV6Char(c: char) {
    IsHexDigit(c) || c == ':' || c == '.'
  }

  function Colons(s: string): nat {
    if s == [] then 0 else Colons(s[1..]) + if s[0] == ':' then 1 else 0
  }

  /** `rest` is what is left of `s` after reading literal characters with at least `n` colons among them. */
  ghost predicate Reads(s: string, rest: string, n: nat) {
    && |rest| <= |s| && s[|s| - |rest|..] == rest
    && (forall i :: 0 <= i < |s| - |rest| ==> IsV6Char(s[i]))
    && Colons(s) >= Colons(rest) + n
  }

  lemma {:induction false} ReadsChain(s: string, t: string, u: string, m: nat, n: nat)
    requires Reads(s, t, m) && Reads(t, u, n)
    ensures Reads(s, u, m + n)
  {
    assert forall i :: |s| - |t| <= i < |s| - |u| ==> s[i] == t[i - (|s| - |t|)];
    assert s[|s| - |u|..] == s[|s| - |t|..][|t| - |u|..];
  }

  lemma {:induction false} ReadsOne(s: string)
    requires s != [] && IsV6Char(s[0])
    ensures Reads(s, s[1..], if s[0] == ':' then 1 else 0)
  {
  }

  lemma {:induction false} HexRunReads(s: string)
    ensures HexRun(s) <= |s| && Reads(s, s[HexRun(s)..], 0)
  {
    if s != [] && IsHexDigit(s[0]) {
      HexRunReads(s[1..]);
      ReadsOne(s);
      ReadsChain(s, s[1..], s[1..][HexRun(s[1..])..], 0, 0);
      assert s[1..][HexRun(s[1..])..] == s[HexRun(s)..];
    }
  }

  lemma {:induction false} DigitRunReads(s: string)
    ensures DigitRun(s) <= |s| && Reads(s, s[DigitRun(s)..], 0)
  {
    if s != [] && IsDigit(s[0]) {
      DigitRunReads(s[1..]);
      ReadsOne(s);
      ReadsChain(s, s[1..], s[1..][DigitRun(s[1..])..], 0, 0);
      assert s[1..][DigitRun(s[1..])..] == s[DigitRun(s)..];
    }
  }

  lemma {:induction false} AfterReads(separator: char, first: bool, s: string)
    requires IsV6Char(separator)
    ensures ReadAfter(separator, first, s).Some? ==>
              Reads(s, ReadAfter(separator, first, s).value, if !first && separator == ':' then 1 else 0)
  {
    if !first && s != [] && s[0] == separator {
      ReadsOne(s);
    }
  }

  lemma {:induction false} OctetsRead(s: string, i: nat)
    requires i <= 4
    ensures ReadOctets(s, i).Some? ==> Reads(s, ReadOctets(s, i).value, 0)
    decreases 4 - i
  {
    if i < 4 && ReadOctets(s, i).Some? {
      var t := ReadAfter('.', i == 0, s).value;
      AfterReads('.', i == 0, s);
      DigitRunReads(t);
      var rest := ReadOctet(t).value;
      ReadsChain(s, t, rest, 0, 0);
      OctetsRead(rest, i + 1);
      ReadsChain(s, rest, ReadOctets(s, i).value, 0, 0);
    }
  }

  function Separators(i: nat): nat {
    if i == 0 then 0 else 1
  }

  lemma {:induction false} OneReads(s: string, i: nat)
    ensures ReadOneGroup(s, i).Some? ==> Reads(s, ReadOneGroup(s, i).value, Separators(i))
    ensures ReadDotted(s, i).Some? ==> Reads(s, ReadDotted(s, i).value, Separators(i))
  {
    AfterReads(':', i == 0, s);
    if ReadOneGroup(s, i).Some? {
      var t := ReadAfter(':', i == 0, s).value;
      HexRunReads(t);
      ReadsChain(s, t, ReadOneGroup(s, i).value, Separators(i), 0);
    }
    if ReadDotted(s, i).Some? {
      var t := ReadAfter(':', i == 0, s).value;
      OctetsRead(t, 0);
      ReadsChain(s, t, ReadDotted(s, i).value, Separators(i), 0);
    }
  }

  /** How many colons reading from group `i` to a count of groups passes at least. */
  function Passed(i: nat, count: nat): nat {
    if count > i + 1 then count - i - 2 + Separators(i) else 0
  }

  lemma {:induction false} ReadsFewer(s: string, rest: string, n: nat, m: nat)
    requires Reads(s, rest, n) && m <= n
    ensures Reads(s, rest, m)
  {
  }

  lemma {:induction false} ReadsNothing(s: string)
    ensures Reads(s, s, 0)
  {
  }

  /** Where reading ends: how many groups there are, and what has been passed. */
  lemma {:induction false} EndReads(s: string, i: nat, limit: nat)
    requires i <= limit && NextGroup(s, i, limit).Done?
    ensures var g := NextGroup(s, i, limit).groups; i <= g.count <= limit && Reads(s, g.rest, Passed(i, g.count))
  {
    ReadsNothing(s);
    if i < limit - 1 && ReadDotted(s, i).Some? {
      OneReads(s, i);
    }
  }

  lemma {:induction false} MoreReads(s: string, i: nat, limit: nat)
    requires i <= limit && NextGroup(s, i, limit).More?
    ensures Reads(s, NextGroup(s, i, limit).rest, Separators(i))
  {
    OneReads(s, i);
  }

  lemma {:induction false} GroupsCount(s: string, i: nat, limit: nat)
    requires i <= limit
    ensures i <= ReadGroups(s, i, limit).count <= limit
    decreases limit - i
  {
    match NextGroup(s, i, limit)
    case Done(_) => EndReads(s, i, limit);
    case More(rest) => GroupsCount(rest, i + 1, limit);
  }

  lemma {:induction false} GroupsRead(s: string, i: nat, limit: nat)
    requires i <= limit
    ensures Reads(s, ReadGroups(s, i, limit).rest, Passed(i, ReadGroups(s, i, limit).count))
    decreases limit - i
  {
    match NextGroup(s, i, limit)
    case Done(_) => EndReads(s, i, limit);
    case More(rest) =>
      var g := ReadGroups(rest, i + 1, limit);
      MoreReads(s, i, limit);
      GroupsRead(rest, i + 1, limit);
      GroupsCount(rest, i + 1, limit);
      var n := Passed(i + 1, g.count);
      ReadsChain(s, rest, g.rest, Separators(i), n);
      ReadsFewer(s, g.rest, Separators(i) + n, Passed(i, g.count));
  }

  lemma {:induction false} DoubleColonReads(r: string)
    requires "::" <= r
    ensures Reads(r, r[2..], 2)
  {
    assert r[0] == ':' && r[1] == ':' && r[1..][0] == ':' && r[1..][1..] == r[2..];
    ReadsOne(r);
    ReadsOne(r[1..]);
    ReadsChain(r, r[1..], r[2..], 1, 1);
  }

  /** Every IPv6 literal is hex digits, colons and dots, with two colons at least. */
  lemma {:induction false} LiteralShape(s: string)
    requires IsIpv6(s)
    ensures forall i :: 0 <= i < |s| ==> IsV6Char(s[i])
    ensures Colons(s) >= 2
  {
    LiteralReads(s);
  }

  lemma {:induction false} LiteralReads(s: string)
    requires IsIpv6(s)
    ensures Reads(s, [], 2)
  {
    var head := ReadGroups(s, 0, 8);
    GroupsRead(s, 0, 8);
    if head.count >= 8 {
      ReadsFewer(s, [], Passed(0, head.count), 2);
    } else {
      var r := head.rest;
      var limit := 8 - (head.count + 1);
      DoubleColonReads(r);
      GroupsRead(r[2..], 0, limit);
      ReadsChain(r, r[2..], [], 2, Passed(0, ReadGroups(r[2..], 0, limit).count));
      ReadsChain(s, r, [], Passed(0, head.count), 2 + Passed(0, ReadGroups(r[2..], 0, limit).count));
      ReadsFewer(s, [], Passed(0, head.count) + (2 + Passed(0, ReadGroups(r[2..], 0, limit).count)), 2);
    }
  }
}

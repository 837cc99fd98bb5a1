/** Printing and parsing `host:port` and URLs for names, IPv4 addresses and IPv6 literals. */
module HostAddr {
  import opened Wrappers
  import opened Text
  import opened Ipv6

  function BracketHost(host: string): string {
    var h := Trim(host);
    if IsIpv6(h) then "[" + h + "]" else host
  }

  function HostPort(host: string, port: nat): string {
    BracketHost(host) + ":" + Decimal(port)
  }

  /** The first and the last place of a character. */
  function First(s: string, c: char): Option<nat> {
    if s == [] then None
    else if s[0] == c then Some(0)
    else match First(s[1..], c)
         case None => None
         case Some(i) => Some(i + 1)
  }

  function Last(s: string, c: char): Option<nat> {
    if s == [] then None
    else if s[|s| - 1] == c then Some(|s| - 1)
    else Last(s[..|s| - 1], c)
  }

  /** What comes before the first separator, or everything. */
  function Before(s: string, c: char): string {
    match First(s, c)
    case Some(i) => if i <= |s| then s[..i] else s
    case None => s
  }

  function StripPort(addr: string): string {
    var a := Trim(addr);
    if a != [] && a[0] == '[' && First(a[1..], ']').Some? then Before(a[1..], ']')
    else if IsIpv6(a) then a
    else match Last(a, ':')
         case None => a
         case Some(i) => if i < |a| && a[i + 1..] != [] && AllDigits(a[i + 1..]) then a[..i] else a
  }

  /** The host of a URL: after the scheme, before the first slash, without brackets or a port. */
  function HostOfUrl(url: string): string {
    HostIn(AfterScheme(url))
  }

  function HostIn(rest: string): string {
    var hostport := Before(rest, '/');
    if hostport != [] && hostport[0] == '[' then Before(hostport[1..], ']')
    else match Last(hostport, ':')
         case None => hostport
         case Some(i) => if i <= |hostport| && ':' !in hostport[..i] then hostport[..i] else hostport
  }

  function AfterScheme(url: string): string {
    match SchemeEnd(url)
    case None => url
    case Some(i) => if i + 3 <= |url| then url[i + 3..] else url
  }

  function SchemeEnd(url: string): Option<nat> {
    if url == [] then None
    else if "://" <= url then Some(0)
    else match SchemeEnd(url[1..])
         case None => None
         case Some(i) => Some(i + 1)
  }

  // ---------------------------------------------------------------- searching

  lemma {:induction false} FirstOfJoin(s: string, c: char, t: string)
    requires c !in s
    ensures First(s + [c] + t, c) == Some(|s|)
    ensures Before(s + [c] + t, c) == s
  {
    if s == [] {
      assert s + [c] + t == [c] + t;
    } else {
      assert (s + [c] + t)[1..] == s[1..] + [c] + t;
      FirstOfJoin(s[1..], c, t);
    }
    assert (s + [c] + t)[..|s|] == s;
  }

  lemma {:induction false} FirstIsFirst(s: string, c: char)
    ensures First(s, c).None? <==> c !in s
    ensures First(s, c).Some? ==> First(s, c).value < |s| && s[First(s, c).value] == c && c !in s[..First(s, c).value]
  {
    if s != [] && s[0] != c {
      FirstIsFirst(s[1..], c);
      if First(s, c).Some? {
        var i := First(s[1..], c).value;
        assert s[..i + 1] == [s[0]] + s[1..][..i];
      }
    }
  }

  lemma {:induction false} BeforeIsPrefix(s: string, c: char)
    ensures c !in Before(s, c) && Before(s, c) <= s
    ensures c in s ==> |Before(s, c)| < |s|
    ensures c !in s ==> Before(s, c) == s
  {
    FirstIsFirst(s, c);
  }

  lemma {:induction false} LastOfJoin(s: string, c: char, t: string)
    requires c !in t
    ensures Last(s + [c] + t, c) == Some(|s|)
  {
    var u := s + [c] + t;
    if t == [] {
      assert u == s + [c];
    } else {
      assert u[..|u| - 1] == s + [c] + t[..|t| - 1];
      assert u[|u| - 1] == t[|t| - 1];
      LastOfJoin(s, c, t[..|t| - 1]);
    }
  }

  lemma {:induction false} DigitsHold(s: string, c: char)
    requires AllDigits(s) && !IsDigit(c)
    ensures c !in s
  {
  }

  lemma {:induction false} ColonsOfJoin(s: string, t: string)
    ensures Colons(s + t) == Colons(s) + Colons(t)
  {
    if s == [] {
      assert s + t == t;
    } else {
      assert (s + t)[1..] == s[1..] + t;
      ColonsOfJoin(s[1..], t);
    }
  }

  lemma {:induction false} NoColons(s: string)
    requires ':' !in s
    ensures Colons(s) == 0
  {
    if s != [] {
      NoColons(s[1..]);
    }
  }

  /** A literal holds none of the characters the printed forms are taken apart at, nor any space. */
  lemma {:induction false} LiteralIsPlain(h: string)
    requires IsIpv6(h)
    ensures '[' !in h && ']' !in h && '/' !in h && h != []
    ensures forall i :: 0 <= i < |h| ==> !IsSpace(h[i])
  {
    LiteralShape(h);
  }

  /** A colon-free host with a port is never mistaken for a literal: it has one colon, not two. */
  lemma {:induction false} NameWithPortIsNoLiteral(h: string, port: nat)
    requires ':' !in h
    ensures !IsIpv6(h + ":" + Decimal(port))
  {
    DigitsHold(Decimal(port), ':');
    NoColons(h);
    NoColons(Decimal(port));
    ColonsOfJoin(h, ":");
    ColonsOfJoin(h + ":", Decimal(port));
    assert ":"[1..] == [] && Colons(":") == 1;
    if IsIpv6(h + ":" + Decimal(port)) {
      LiteralShape(h + ":" + Decimal(port));
    }
  }

  // ---------------------------------------------------------------- bracketing

  /** One character no literal can hold is enough. */
  lemma {:induction false} NoLiteral(s: string, i: nat)
    requires i < |s| && !IsV6Char(s[i])
    ensures !IsIpv6(s)
  {
    if IsIpv6(s) {
      LiteralShape(s);
    }
  }

  lemma {:induction false} BracketedIsTrimmed(h: string)
    ensures Trim("[" + h + "]") == "[" + h + "]"
  {
    var b := "[" + h + "]";
    assert b[0] == '[' && b[|b| - 1] == ']';
    AlreadyTrimmed(b);
  }

  lemma {:induction false} BracketedIsNoLiteral(h: string)
    ensures !IsIpv6("[" + h + "]")
  {
    assert ("[" + h + "]")[0] == '[';
    NoLiteral("[" + h + "]", 0);
  }

  /** Bracketing twice is bracketing once, for every string. */
  lemma {:induction false} BracketIsIdempotent(host: string)
    ensures BracketHost(BracketHost(host)) == BracketHost(host)
  {
    if IsIpv6(Trim(host)) {
      BracketedIsTrimmed(Trim(host));
      BracketedIsNoLiteral(Trim(host));
    }
  }

  lemma {:induction false} UnspecifiedIsLiteral()
    ensures IsIpv6("::")
  {
    var s := "::";
    assert ReadGroups(s, 0, 8) == Groups(0, false, s) by {
      assert HexRun(s) == 0 && DigitRun(s) == 0;
    }
    assert s[2..] == [];
    assert ReadGroups([], 0, 7) == Groups(0, false, []);
  }

  /**
   * Every host holding a literal is printed with that literal in brackets, and every host without a colon, dotted
   * addresses and names alike, exactly as given.
   */
  lemma {:induction false} BindForms(host: string, port: nat)
    ensures IsIpv6(Trim(host)) ==> HostPort(host, port) == "[" + Trim(host) + "]" + ":" + Decimal(port)
    ensures ':' !in host ==> HostPort(host, port) == host + ":" + Decimal(port)
    ensures HostPort("::", port) == "[::]" + ":" + Decimal(port)
  {
    UnspecifiedIsLiteral();
    AlreadyTrimmed("::");
    assert "[" + "::" + "]" == "[::]";
    if IsIpv6(Trim(host)) {
      LiteralHasColon(host);
    }
  }

  // ---------------------------------------------------------------- host and port

  lemma {:induction false} TrimWithPort(h: string, port: nat)
    ensures Trim(h + ":" + Decimal(port)) == TrimStart(h) + ":" + Decimal(port)
  {
    var d := Decimal(port);
    TrimStartBeforeColon(h, d);
    var a := TrimStart(h) + ":" + d;
    DigitIsNoSpace(d[|d| - 1]);
    assert a[|a| - 1] == d[|d| - 1];
  }

  lemma {:induction false} DigitIsNoSpace(c: char)
    requires IsDigit(c)
    ensures !IsSpace(c)
  {
  }

  lemma {:induction false} TrimStartBeforeColon(h: string, d: string)
    ensures TrimStart(h + ":" + d) == TrimStart(h) + ":" + d
  {
    if h == [] {
      assert h + ":" + d == ":" + d;
      assert !IsSpace(':');
    } else if IsSpace(h[0]) {
      assert (h + ":" + d)[1..] == h[1..] + ":" + d;
      TrimStartBeforeColon(h[1..], d);
    }
  }

  /** When taking the port back off gives back the host that was printed. */
  predicate PortComesOff(h: string, port: nat) {
    if IsIpv6(Trim(h)) then Trim(h) == h
    else TrimStart(h) == h && !(h != [] && h[0] == '[' && ']' in h) && !IsIpv6(h + ":" + Decimal(port))
  }

  /** Exactly then, for every string and every port. */
  lemma {:induction false} StripPortUndoesHostPortIff(h: string, port: nat)
    ensures StripPort(HostPort(h, port)) == h <==> PortComesOff(h, port)
  {
    if IsIpv6(Trim(h)) {
      LiteralIsPlain(Trim(h));
      StripPortOfBracketed(Trim(h), port);
    } else {
      StripPortOfOther(h, port);
    }
  }

  lemma {:induction false} StripPortOfBracketed(v: string, port: nat)
    requires ']' !in v
    ensures StripPort("[" + v + "]" + ":" + Decimal(port)) == v
  {
    var d := Decimal(port);
    var b := "[" + v + "]";
    var a := b + ":" + d;
    TrimWithPort(b, port);
    assert b[0] == '[' && TrimStart(b) == b && Trim(a) == a && a[0] == '[';
    assert a[1..] == v + [']'] + (":" + d);
    FirstOfJoin(v, ']', ":" + d);
  }

  lemma {:induction false} StripPortOfOther(h: string, port: nat)
    requires !IsIpv6(Trim(h))
    ensures StripPort(HostPort(h, port)) == h <==> PortComesOff(h, port)
  {
    var a := TrimStart(h) + ":" + Decimal(port);
    TrimWithPort(h, port);
    TrimStartIsSuffix(h);
    FirstIsFirst(a[1..], ']');
    if a[0] == '[' && ']' in a[1..] {
      StripPortOfPair(TrimStart(h), port);
    } else {
      NoPair(TrimStart(h), port);
      LastColon(TrimStart(h), port);
      if IsIpv6(a) {
        LiteralIsTrimmed(a);
      }
    }
  }

  /** A pair of brackets is taken for a literal's, and less than the host comes back. */
  lemma {:induction false} StripPortOfPair(h: string, port: nat)
    requires var a := h + ":" + Decimal(port); a[0] == '[' && ']' in a[1..]
    ensures h != [] && h[0] == '[' && ']' in h
    ensures |Before((h + ":" + Decimal(port))[1..], ']')| < |h|
  {
    DigitsHold(Decimal(port), ']');
    BracketInside(h, Decimal(port));
  }

  lemma {:induction false} NoPair(h: string, port: nat)
    requires var a := h + ":" + Decimal(port); !(a[0] == '[' && ']' in a[1..])
    ensures !(h != [] && h[0] == '[' && ']' in h)
  {
    var a := h + ":" + Decimal(port);
    if h != [] && h[0] == '[' {
      assert a[0] == '[';
      forall i | 0 <= i < |h| ensures h[i] != ']' {
        assert i > 0 ==> h[i] == a[1..][i - 1];
      }
    }
  }

  /** The last colon is the one before the port. */
  lemma {:induction false} LastColon(h: string, port: nat)
    ensures var a := h + ":" + Decimal(port);
            Last(a, ':') == Some(|h|) && a[|h| + 1..] == Decimal(port) && a[..|h|] == h
  {
    var d := Decimal(port);
    DigitsHold(d, ':');
    LastOfJoin(h, ':', d);
    var a := h + ":" + d;
    assert a[|h| + 1..] == d && a[..|h|] == h;
  }

  lemma {:induction false} LiteralIsTrimmed(a: string)
    requires IsIpv6(a)
    ensures TrimStart(a) == a
  {
    LiteralIsPlain(a);
  }

  /** A closing bracket found after an opening one lies inside the host, and so is what precedes it. */
  lemma {:induction false} BracketInside(h: string, d: string)
    requires ']' !in d
    requires (h + ":" + d)[0] == '[' && ']' in (h + ":" + d)[1..]
    ensures h != [] && h[0] == '[' && ']' in h
    ensures |Before((h + ":" + d)[1..], ']')| < |h|
  {
    var a := h + ":" + d;
    FirstIsFirst(a[1..], ']');
    var i := First(a[1..], ']').value;
    assert a[i + 1] == ']' && a[|h|] == ':';
    forall k | |h| < k < |a| ensures a[k] != ']' {
      assert a[k] == d[k - |h| - 1];
    }
    assert h[i + 1] == ']';
  }

  /** The forms the source is for: a spaceless IPv6 literal, or a colon-free name that starts no bracket or space. */
  lemma {:induction false} UsualHostsComeBack(h: string, port: nat)
    requires (IsIpv6(Trim(h)) && Trim(h) == h) || (':' !in h && (h == [] || (h[0] != '[' && !IsSpace(h[0]))))
    ensures StripPort(HostPort(h, port)) == h
  {
    if ':' !in h {
      NamePortComesOff(h, port);
    } else {
      LiteralPortComesOff(h, port);
    }
    StripPortUndoesHostPortIff(h, port);
  }

  lemma {:induction false} LiteralPortComesOff(h: string, port: nat)
    requires IsIpv6(Trim(h)) && Trim(h) == h
    ensures PortComesOff(h, port)
  {
  }

  lemma {:induction false} NamePortComesOff(h: string, port: nat)
    requires ':' !in h && (h == [] || (h[0] != '[' && !IsSpace(h[0])))
    ensures PortComesOff(h, port)
  {
    NameWithPortIsNoLiteral(h, port);
    NameIsNoLiteral(h);
    assert TrimStart(h) == h;
  }

  lemma {:induction false} NameIsNoLiteral(h: string)
    requires ':' !in h
    ensures !IsIpv6(Trim(h))
  {
    if IsIpv6(Trim(h)) {
      LiteralHasColon(h);
    }
  }

  lemma {:induction false} LiteralHasColon(h: string)
    requires IsIpv6(Trim(h))
    ensures ':' in h
  {
    LiteralShape(Trim(h));
    TrimStartIsSuffix(h);
    TrimEndIsPrefix(TrimStart(h));
    if ':' !in h {
      NoColons(Trim(h));
    }
  }

  // ---------------------------------------------------------------- URLs

  function Url(scheme: string, h: string, port: nat, path: string): string {
    scheme + "://" + HostPort(h, port) + path
  }

  predicate IsPath(path: string) {
    path == [] || path[0] == '/'
  }

  lemma {:induction false} SchemeEnds(scheme: string, rest: string)
    requires ':' !in scheme
    ensures SchemeEnd(scheme + "://" + rest) == Some(|scheme|)
    ensures AfterScheme(scheme + "://" + rest) == rest
  {
    var u := scheme + "://" + rest;
    if scheme == [] {
      assert u == "://" + rest;
    } else {
      assert u[0] == scheme[0] && u[1..] == scheme[1..] + "://" + rest;
      SchemeEnds(scheme[1..], rest);
    }
    assert u[|scheme| + 3..] == rest;
  }

  lemma {:induction false} BeforePath(hostport: string, path: string)
    requires '/' !in hostport && IsPath(path)
    ensures Before(hostport + path, '/') == hostport
  {
    if path == [] {
      assert hostport + path == hostport;
      BeforeIsPrefix(hostport, '/');
    } else {
      assert hostport + path == hostport + ['/'] + path[1..];
      FirstOfJoin(hostport, '/', path[1..]);
    }
  }

  /** When the host of a printed URL is the host it was printed from. */
  predicate HostComesOut(h: string) {
    if IsIpv6(Trim(h)) then Trim(h) == h
    else '/' !in h && ':' !in h && !(h != [] && h[0] == '[')
  }

  /** Exactly then, for every colon-free scheme, every port and every path. */
  lemma {:induction false} HostOfUrlIff(scheme: string, h: string, port: nat, path: string)
    requires ':' !in scheme && IsPath(path)
    ensures HostOfUrl(Url(scheme, h, port, path)) == h <==> HostComesOut(h)
  {
    RestOfUrl(scheme, h, port, path);
    if IsIpv6(Trim(h)) {
      LiteralIsPlain(Trim(h));
      HostInBracketed(Trim(h), port, path);
    } else {
      HostInName(h, port, path);
    }
  }

  lemma {:induction false} RestOfUrl(scheme: string, h: string, port: nat, path: string)
    requires ':' !in scheme
    ensures HostOfUrl(Url(scheme, h, port, path)) == HostIn(HostPort(h, port) + path)
  {
    var rest := HostPort(h, port) + path;
    assert Url(scheme, h, port, path) == scheme + "://" + rest;
    SchemeEnds(scheme, rest);
  }

  lemma {:induction false} HostInBracketed(v: string, port: nat, path: string)
    requires ']' !in v && '/' !in v && IsPath(path)
    ensures HostIn("[" + v + "]" + ":" + Decimal(port) + path) == v
  {
    var d := Decimal(port);
    var hostport := "[" + v + "]" + ":" + d;
    DigitsHold(d, '/');
    BeforePath(hostport, path);
    assert hostport[0] == '[' && hostport[1..] == v + [']'] + (":" + d);
    FirstOfJoin(v, ']', ":" + d);
  }

  lemma {:induction false} HostInSlashed(h: string, after: string)
    requires '/' in h
    ensures HostIn(h + after) != h
  {
    var rest := h + after;
    assert '/' !in HostIn(rest) by {
      var hostport := Before(rest, '/');
      BeforeIsPrefix(rest, '/');
      if hostport != [] && hostport[0] == '[' {
        BeforeIsPrefix(hostport[1..], ']');
      }
    }
  }

  lemma {:induction false} HostInSlashless(h: string, port: nat, path: string)
    requires '/' !in h && IsPath(path)
    ensures HostIn(h + ":" + Decimal(port) + path) == h <==> ':' !in h && !(h != [] && h[0] == '[')
  {
    var d := Decimal(port);
    var hostport := h + ":" + d;
    DigitsHold(d, '/');
    DigitsHold(d, ':');
    DigitsHold(d, ']');
    BeforePath(hostport, path);
    if hostport[0] == '[' {
      assert hostport[|h|] == ':';
      BeforeIsPrefix(hostport[1..], ']');
      assert |hostport[1..]| > |h|;
      if ']' in hostport[1..] {
        BracketInside(h, d);
      }
    } else {
      LastOfJoin(h, ':', d);
      assert hostport[..|h|] == h;
      assert h != [] ==> hostport[0] == h[0];
    }
  }

  lemma {:induction false} HostInName(h: string, port: nat, path: string)
    requires IsPath(path)
    ensures HostIn(h + ":" + Decimal(port) + path) == h <==> '/' !in h && ':' !in h && !(h != [] && h[0] == '[')
  {
    if '/' in h {
      HostInSlashed(h, ":" + Decimal(port) + path);
      assert h + ":" + Decimal(port) + path == h + (":" + Decimal(port) + path);
    } else {
      HostInSlashless(h, port, path);
    }
  }
}

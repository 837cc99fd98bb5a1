/** String helpers shared by the printers and parsers: decimal numbers, joining, searching. */
module Text {
  import opened Wrappers

  const U64_MAX: nat := 0xFFFF_FFFF_FFFF_FFFF

  lemma {:induction false} AppendAssociates<T>(a: seq<T>, b: seq<T>, c: seq<T>)
    ensures a + b + c == a + (b + c)
  {
  }

  predicate IsDigit(c: char) {
    '0' <= c <= '9'
  }

  predicate AllDigits(s: string) {
    forall i :: 0 <= i < |s| ==> IsDigit(s[i])
  }

  function DigitChar(d: nat): (c: char)
    requires d < 10
    ensures IsDigit(c) && DigitValue(c) == d
  {
    '0' + d as char
  }

  function DigitValue(c: char): nat
    requires IsDigit(c)
  {
    (c - '0') as nat
  }

  /** The number a string of digits denotes. */
  function DigitsValue(s: string): nat
    requires AllDigits(s)
  {
    if s == [] then 0 else 10 * DigitsValue(s[..|s| - 1]) + DigitValue(s[|s| - 1])
  }

  /** Rust's `Display` for unsigned integers. */
  function Decimal(n: nat): (s: string)
    ensures s != [] && AllDigits(s) && DigitsValue(s) == n
  {
    if n < 10 then [DigitChar(n)] else
      var s := Decimal(n / 10) + [DigitChar(n % 10)];
      assert s[..|s| - 1] == Decimal(n / 10);
      s
  }

  /** Rust's `str::parse::<u64>`: an optional `+`, then one or more digits, no overflow. */
  function ParseU64(s: string): Option<nat> {
    var digits := if s != [] && s[0] == '+' then s[1..] else s;
    if digits == [] || !AllDigits(digits) then None
    else if DigitsValue(digits) > U64_MAX then None
    else Some(DigitsValue(digits))
  }

  lemma ParseDecimal(n: nat)
    requires n <= U64_MAX
    ensures ParseU64(Decimal(n)) == Some(n)
  {
    assert IsDigit(Decimal(n)[0]);
  }

  predicate Free(c: char, s: string) {
    c !in s
  }

  /** A separator-free first field and the separator determine both sides of the join. */
  lemma JoinInjective(c: char, a: string, b: string, x: string, y: string)
    requires Free(c, a) && Free(c, b)
    requires a + [c] + x == b + [c] + y
    ensures a == b && x == y
  {
    var s, t := a + [c] + x, b + [c] + y;
    assert s[|a|] == c && t[|b|] == c;
    assert forall i :: 0 <= i < |b| ==> t[i] == b[i] != c;
    assert forall i :: 0 <= i < |a| ==> s[i] == a[i] != c;
    assert |a| == |b|;
    assert a == s[..|a|] == t[..|b|] == b;
    assert x == s[|a| + 1..] == t[|b| + 1..] == y;
  }

  // ---------------------------------------------------------------- trimming

  /** The Unicode White_Space property. */
  predicate IsSpace(c: char) {
    || '\U{9}' <= c <= '\U{D}' || c == ' ' || c == '\U{85}' || c == '\U{A0}' || c == '\U{1680}'
    || '\U{2000}' <= c <= '\U{200A}' || c == '\U{2028}' || c == '\U{2029}' || c == '\U{202F}'
    || c == '\U{205F}' || c == '\U{3000}'
  }

  function TrimStart(s: string): string {
    if s != [] && IsSpace(s[0]) then TrimStart(s[1..]) else s
  }

  function TrimEnd(s: string): string {
    if s != [] && IsSpace(s[|s| - 1]) then TrimEnd(s[..|s| - 1]) else s
  }

  function Trim(s: string): string {
    TrimEnd(TrimStart(s))
  }

  /** Trimming the start leaves a suffix that begins with a non-space. */
  lemma TrimStartIsSuffix(s: string)
    ensures var r := TrimStart(s);
            (r != [] ==> !IsSpace(r[0])) && |r| <= |s| && r == s[|s| - |r|..]
  {
  }

  /** Trimming the end leaves a prefix that ends with a non-space. */
  lemma TrimEndIsPrefix(s: string)
    ensures var r := TrimEnd(s);
            (r != [] ==> !IsSpace(r[|r| - 1])) && r <= s
  {
  }

  /** What ends in a non-space survives trimming the end, and separates from what follows. */
  lemma {:induction false} TrimEndAfter(p: string, r: string)
    requires p != [] && !IsSpace(p[|p| - 1])
    ensures TrimEnd(p + r) == p + TrimEnd(r)
  {
    if r == [] {
      assert p + r == p;
    } else {
      assert (p + r)[..|p + r| - 1] == p + r[..|r| - 1];
      TrimEndAfter(p, r[..|r| - 1]);
    }
  }

  lemma {:induction false} TrimSnoc(s: string, c: char)
    requires IsSpace(c)
    ensures Trim(s + [c]) == Trim(s)
  {
    if s != [] && IsSpace(s[0]) {
      assert (s + [c])[1..] == s[1..] + [c];
      TrimSnoc(s[1..], c);
    } else if s == [] {
      assert s + [c] == [c] && [c][1..] == [];
    } else {
      assert (s + [c])[..|s|] == s;
    }
  }

  lemma {:induction false} TrimOfTrimEnd(s: string)
    ensures Trim(TrimEnd(s)) == Trim(s)
  {
    if s != [] && IsSpace(s[|s| - 1]) {
      var front := s[..|s| - 1];
      assert s == front + [s[|s| - 1]];
      TrimOfTrimEnd(front);
      TrimSnoc(front, s[|s| - 1]);
    }
  }

  /** A prefix that ends in a non-space is seen alike before and after trimming the end; so is what follows it. */
  lemma PrefixSurvivesTrimEnd(p: string, s: string)
    requires p != [] && !IsSpace(p[|p| - 1])
    ensures p <= s <==> p <= TrimEnd(s)
    ensures p <= s ==> Trim(TrimEnd(s)[|p|..]) == Trim(s[|p|..])
  {
    TrimEndIsPrefix(s);
    if p <= s {
      assert s == p + s[|p|..];
      TrimEndAfter(p, s[|p|..]);
      TrimOfTrimEnd(s[|p|..]);
      assert TrimEnd(s)[|p|..] == TrimEnd(s[|p|..]);
    }
  }

  /** A string with a non-space at each end is already trimmed. */
  lemma AlreadyTrimmed(s: string)
    requires s != [] && !IsSpace(s[0]) && !IsSpace(s[|s| - 1])
    ensures Trim(s) == s
  {
  }

  /** Trimming never touches a leading non-space. */
  lemma TrimKeepsHead(s: string)
    requires s != [] && !IsSpace(s[0])
    ensures Trim(s) != [] && Trim(s)[0] == s[0]
  {
    TrimEndAfter([s[0]], s[1..]);
    assert s == [s[0]] + s[1..];
  }
}

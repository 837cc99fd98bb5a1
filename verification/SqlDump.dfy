/** The values, names and INSERT statements a dump prints, and MySQL's reading of them. */
module SqlDump {
  import opened Wrappers
  import opened Text

  // ---------------------------------------------------------------- printing

  function EscapedChar(c: char): string {
    match c
    case '\U{0}' => "\\0"
    case '\n' => "\\n"
    case '\r' => "\\r"
    case '\\' => "\\\\"
    case '\'' => "\\'"
    case '\"' => "\\\""
    case '\U{1A}' => "\\Z"
    case _ => [c]
  }

  function Escaped(s: string): string {
    if s == [] then [] else Escaped(s[..|s| - 1]) + EscapedChar(s[|s| - 1])
  }

  method MysqlEscapeString(s: string) returns (out: string)
    ensures out == Escaped(s)
  {
    out := "";
    for i := 0 to |s|
      invariant out == Escaped(s[..i])
    {
      assert s[..i + 1][..i] == s[..i];
      match s[i] {
        case '\U{0}' => out := out + "\\0";
        case '\n' => out := out + "\\n";
        case '\r' => out := out + "\\r";
        case '\\' => out := out + "\\\\";
        case '\'' => out := out + "\\'";
        case '\"' => out := out + "\\\"";
        case '\U{1A}' => out := out + "\\Z";
        case other => out := out + [other];
      }
    }
    assert s[..|s|] == s;
  }

  function Value(v: Option<string>): string {
    match v
    case Some(s) => "'" + Escaped(s) + "'"
    case None => "NULL"
  }

  /** Names with their backticks doubled, as table and database names are printed. */
  function Doubled(s: string): string {
    if s == [] then [] else Doubled(s[..|s| - 1]) + if s[|s| - 1] == '`' then "``" else [s[|s| - 1]]
  }

  function Quoted(name: string): string { "`" + Doubled(name) + "`" }

  /** Column names are printed between backticks as they are. */
  function QuotedRaw(name: string): string { "`" + name + "`" }

  function Joined(parts: seq<string>): string {
    if parts == [] then "" else if |parts| == 1 then parts[0]
    else parts[0] + ", " + Joined(parts[1..])
  }

  function Columns(cols: seq<string>): seq<string> {
    seq(|cols|, i requires 0 <= i < |cols| => QuotedRaw(cols[i]))
  }

  function Values(row: seq<Option<string>>): seq<string> {
    seq(|row|, i requires 0 <= i < |row| => Value(row[i]))
  }

  function Insert(table: string, cols: seq<string>, row: seq<Option<string>>): string {
    "INSERT INTO " + Quoted(table) + " (" + Joined(Columns(cols)) + ") VALUES (" + Joined(Values(row)) + ");\n"
  }

  function Inserts(table: string, cols: seq<string>, rows: seq<seq<Option<string>>>): string {
    Concat(seq(|rows|, i requires 0 <= i < |rows| => Insert(table, cols, rows[i])))
  }

  function Concat(parts: seq<string>): string {
    if parts == [] then "" else Concat(parts[..|parts| - 1]) + parts[|parts| - 1]
  }

  lemma {:induction false} InsertsSnoc(table: string, cols: seq<string>, rows: seq<seq<Option<string>>>, r: nat)
    requires r < |rows|
    ensures Inserts(table, cols, rows[..r + 1]) == Inserts(table, cols, rows[..r]) + Insert(table, cols, rows[r])
  {
    var parts := seq(r + 1, i requires 0 <= i < r + 1 => Insert(table, cols, rows[..r + 1][i]));
    assert parts[..r] == seq(r, i requires 0 <= i < r => Insert(table, cols, rows[..r][i]));
  }

  method PrintedValues(row: seq<Option<string>>) returns (values: seq<string>)
    ensures values == Values(row)
  {
    values := [];
    for i := 0 to |row|
      invariant |values| == i
      invariant forall k :: 0 <= k < i ==> values[k] == Value(row[k])
    {
      match row[i] {
        case Some(v) =>
          var escaped := MysqlEscapeString(v);
          values := values + ["'" + escaped + "'"];
        case None => values := values + ["NULL"];
      }
    }
  }

  method DumpRows(table: string, cols: seq<string>, rows: seq<seq<Option<string>>>) returns (sql: string)
    ensures sql == Inserts(table, cols, rows) + if rows == [] then "" else "\n"
  {
    sql := "";
    for r := 0 to |rows|
      invariant sql == Inserts(table, cols, rows[..r])
    {
      var values := PrintedValues(rows[r]);
      var line := "INSERT INTO " + Quoted(table) + " (" + Joined(Columns(cols)) + ") VALUES (" + Joined(values) + ");\n";
      assert line == Insert(table, cols, rows[r]);
      InsertsSnoc(table, cols, rows, r);
      sql := sql + line;
    }
    assert rows[..|rows|] == rows;
    if rows != [] {
      sql := sql + "\n";
    }
  }

  // ---------------------------------------------------------------- reading

  datatype Parse<+T> = NoParse | Parsed(value: T, rest: string)

  /** What a backslash sequence stands for in a MySQL string literal. */
  function Unescaped(c: char): string {
    match c
    case '0' => "\U{0}"
    case 'b' => "\U{8}"
    case 'n' => "\n"
    case 'r' => "\r"
    case 't' => "\t"
    case 'Z' => "\U{1A}"
    case '%' => "\\%"
    case '_' => "\\_"
    case _ => [c]
  }

  function Prefixed(p: string, r: Parse<string>): Parse<string> {
    match r
    case NoParse => NoParse
    case Parsed(v, rest) => Parsed(p + v, rest)
  }

  /** The body of a literal, after its opening quote: up to a quote that is neither escaped nor doubled. */
  function ReadBody(s: string): Parse<string> {
    if s == [] then NoParse
    else if s[0] == '\'' then
      if |s| > 1 && s[1] == '\'' then Prefixed("'", ReadBody(s[2..])) else Parsed("", s[1..])
    else if s[0] == '\\' then
      if |s| == 1 then NoParse else Prefixed(Unescaped(s[1]), ReadBody(s[2..]))
    else Prefixed([s[0]], ReadBody(s[1..]))
  }

  function ReadValue(s: string): Parse<Option<string>> {
    if "NULL" <= s then Parsed(None, s[4..])
    else if "'" <= s then
      match ReadBody(s[1..])
      case NoParse => NoParse
      case Parsed(v, rest) => Parsed(Some(v), rest)
    else NoParse
  }

  /** A quoted name, after its opening backtick. */
  function ReadNameBody(s: string): Parse<string> {
    if s == [] then NoParse
    else if s[0] == '`' then
      if |s| > 1 && s[1] == '`' then Prefixed("`", ReadNameBody(s[2..])) else Parsed("", s[1..])
    else Prefixed([s[0]], ReadNameBody(s[1..]))
  }

  function ReadName(s: string): Parse<string> {
    if "`" <= s then ReadNameBody(s[1..]) else NoParse
  }

  // ---------------------------------------------------------------- literals and names read back

  lemma {:induction false} BodyReadsOneChar(c: char, t: string)
    ensures ReadBody(EscapedChar(c) + t) == Prefixed([c], ReadBody(t))
  {
    var e := EscapedChar(c);
    if |e| == 2 {
      assert (e + t)[2..] == t;
    } else {
      assert (e + t)[1..] == t;
    }
  }

  lemma {:induction false} PrefixedTwice(p: string, q: string, r: Parse<string>)
    ensures Prefixed(p, Prefixed(q, r)) == Prefixed(p + q, r)
    ensures Prefixed("", r) == r
  {
    if r.Parsed? {
      AppendAssociates(p, q, r.value);
      assert "" + r.value == r.value;
    }
  }

  lemma {:induction false} BodyReadsBack(v: string, t: string)
    ensures ReadBody(Escaped(v) + t) == Prefixed(v, ReadBody(t))
  {
    if v == [] {
      assert Escaped(v) + t == t;
      PrefixedTwice("", "", ReadBody(t));
    } else {
      var front, c := v[..|v| - 1], v[|v| - 1];
      var e := EscapedChar(c);
      var u := e + t;
      AppendAssociates(Escaped(front), e, t);
      BodyReadsBack(front, u);
      BodyReadsOneChar(c, t);
      PrefixedTwice(front, [c], ReadBody(t));
      assert front + [c] == v;
    }
  }

  lemma {:induction false} LiteralEnds(rest: string)
    requires !("'" <= rest)
    ensures ReadBody("'" + rest) == Parsed("", rest)
  {
    var t := "'" + rest;
    assert t[1..] == rest;
    assert |t| > 1 ==> t[1] == rest[0] && rest[..1] == [rest[0]];
  }

  /** A printed value reads back as itself and ends exactly at its own closing quote. */
  lemma {:induction false} ValueReadsBack(v: Option<string>, rest: string)
    requires !("'" <= rest)
    ensures ReadValue(Value(v) + rest) == Parsed(v, rest)
  {
    match v
    case None =>
      assert ("NULL" + rest)[4..] == rest;
    case Some(s) =>
      var t := "'" + rest;
      var body := Escaped(s);
      BodyReadsBack(s, t);
      LiteralEnds(rest);
      AppendAssociates("'" + body, "'", rest);
      AppendAssociates("'", body, t);
      LiteralStarts(body + t);
      assert s + "" == s;
  }

  lemma {:induction false} LiteralStarts(t: string)
    ensures ReadValue("'" + t) == match ReadBody(t) case NoParse => NoParse case Parsed(v, rest) => Parsed(Some(v), rest)
  {
    var s := "'" + t;
    assert s[0] == '\'' && s[1..] == t;
  }

  lemma {:induction false} NameReadsOneChar(c: char, t: string)
    ensures ReadNameBody((if c == '`' then "``" else [c]) + t) == Prefixed([c], ReadNameBody(t))
  {
    if c == '`' {
      assert ("``" + t)[2..] == t;
    } else {
      assert ([c] + t)[1..] == t;
    }
  }

  lemma {:induction false} NameBodyReadsBack(v: string, t: string)
    ensures ReadNameBody(Doubled(v) + t) == Prefixed(v, ReadNameBody(t))
  {
    if v == [] {
      assert Doubled(v) + t == t;
      PrefixedTwice("", "", ReadNameBody(t));
    } else {
      var front, c := v[..|v| - 1], v[|v| - 1];
      var d := if c == '`' then "``" else [c];
      var u := d + t;
      AppendAssociates(Doubled(front), d, t);
      NameBodyReadsBack(front, u);
      NameReadsOneChar(c, t);
      PrefixedTwice(front, [c], ReadNameBody(t));
      assert front + [c] == v;
    }
  }

  lemma {:induction false} NameEnds(rest: string)
    requires !("`" <= rest)
    ensures ReadNameBody("`" + rest) == Parsed("", rest)
  {
    var t := "`" + rest;
    assert t[1..] == rest;
    assert |t| > 1 ==> t[1] == rest[0] && rest[..1] == [rest[0]];
  }

  /** A name printed with doubled backticks reads back as itself. */
  lemma {:induction false} QuotedNameReadsBack(name: string, rest: string)
    requires !("`" <= rest)
    ensures ReadName(Quoted(name) + rest) == Parsed(name, rest)
  {
    NameEnds(rest);
    NameBodyReadsBack(name, "`" + rest);
    assert Quoted(name) + rest == "`" + (Doubled(name) + ("`" + rest));
    assert (Quoted(name) + rest)[1..] == Doubled(name) + ("`" + rest);
    assert name + "" == name;
  }

  function DoubledChar(c: char): string {
    if c == '`' then "``" else [c]
  }

  lemma {:induction false} DoubledCons(c: char, s: string)
    ensures Doubled([c] + s) == DoubledChar(c) + Doubled(s)
  {
    var all := [c] + s;
    if s == [] {
      assert all == [c] && all[..0] == [];
      assert Doubled(all) == [] + DoubledChar(c);
    } else {
      var front, last := s[..|s| - 1], s[|s| - 1];
      assert all[..|all| - 1] == [c] + front && all[|all| - 1] == last;
      DoubledCons(c, front);
      AppendAssociates(DoubledChar(c), Doubled(front), DoubledChar(last));
    }
  }

  lemma {:induction false} PlainIsDoubled(s: string)
    requires '`' !in s
    ensures Doubled(s) == s
  {
    if s != [] {
      var front := s[..|s| - 1];
      PlainIsDoubled(front);
      assert s == front + [s[|s| - 1]];
    }
  }

  /** Reading a name uses up exactly what printing it with doubled backticks would have written. */
  lemma {:induction false} NameBodyIs(s: string)
    ensures ReadNameBody(s).Parsed? ==>
              s == Doubled(ReadNameBody(s).value) + ("`" + ReadNameBody(s).rest)
  {
    if ReadNameBody(s).Parsed? {
      if s[0] == '`' && !(|s| > 1 && s[1] == '`') {
        assert s == "`" + s[1..];
        assert Doubled([]) + s == s;
      } else {
        var used := if s[0] == '`' then 2 else 1;
        var c := s[0];
        NameBodyIs(s[used..]);
        var r := ReadNameBody(s[used..]);
        DoubledCons(c, r.value);
        assert s == DoubledChar(c) + s[used..];
        AppendAssociates(DoubledChar(c), Doubled(r.value), "`" + r.rest);
      }
    }
  }

  /**
   * Once a backtick has been doubled the doubled form is ahead for good: it never fits into the raw name and
   * its closing backtick. `ahead` is the lead, a run of backticks.
   */
  lemma {:induction false} NeverAhead(name: string, ahead: string, after: string, rest: string)
    requires ahead != [] && forall i :: 0 <= i < |ahead| ==> ahead[i] == '`'
    requires !("`" <= after)
    ensures name + ("`" + after) != ahead + (Doubled(name) + ("`" + rest))
  {
    var raw, read := name + ("`" + after), ahead + (Doubled(name) + ("`" + rest));
    if name == [] {
      assert |read| > 1 && read[1] == '`';
      assert after == [] || (raw[1] == after[0] && after[..1] == [after[0]]);
    } else {
      assert raw[0] == name[0] && read[0] == '`';
      if name[0] == '`' {
        var tail := name[1..];
        var further := ahead[1..] + "``";
        DoubledCons('`', tail);
        assert name == ['`'] + tail;
        NeverAhead(tail, further, after, rest);
        assert raw[1..] == tail + ("`" + after);
        assert read[1..] == further + (Doubled(tail) + ("`" + rest));
      }
    }
  }

  lemma {:induction false} RawNameNeverReads(name: string, after: string)
    requires '`' in name && !("`" <= after)
    ensures var r := ReadNameBody(name + ("`" + after)); r.Parsed? ==> r.value != name
    decreases |name|
  {
    var s := name + ("`" + after);
    var r := ReadNameBody(s);
    if r.Parsed? && r.value == name {
      NameBodyIs(s);
      DoubledNeverFits(name, after, r.rest);
    }
  }

  lemma {:induction false} DoubledNeverFits(name: string, after: string, rest: string)
    requires '`' in name && !("`" <= after)
    ensures name + ("`" + after) != Doubled(name) + ("`" + rest)
  {
    var c, tail := name[0], name[1..];
    var raw, read := name + ("`" + after), Doubled(name) + ("`" + rest);
    assert name == [c] + tail;
    DoubledCons(c, tail);
    if c == '`' {
      NeverAhead(tail, "`", after, rest);
      assert raw[1..] == tail + ("`" + after) && read[1..] == "`" + (Doubled(tail) + ("`" + rest));
    } else {
      DoubledNeverFits(tail, after, rest);
      assert raw[1..] == tail + ("`" + after) && read[1..] == Doubled(tail) + ("`" + rest);
    }
  }

  /**
   * A column name is printed undoubled: without a backtick it reads back as itself and ends at its own closing
   * backtick, and with one it never reads as itself, wherever the reading ends.
   */
  lemma {:induction false} RawNameReadsBackIff(name: string, rest: string)
    requires !("`" <= rest)
    ensures var r := ReadName(QuotedRaw(name) + rest);
            && (r == Parsed(name, rest) <==> '`' !in name)
            && (r.Parsed? && r.value == name ==> '`' !in name)
  {
    var s := QuotedRaw(name) + rest;
    assert s == "`" + (name + ("`" + rest)) && s[1..] == name + ("`" + rest);
    if '`' !in name {
      PlainIsDoubled(name);
      QuotedNameReadsBack(name, rest);
    } else {
      RawNameNeverReads(name, rest);
    }
  }

  // ---------------------------------------------------------------- lists and statements read back

  predicate NoBackticks(cols: seq<string>) {
    forall i :: 0 <= i < |cols| ==> '`' !in cols[i]
  }

  /** Names separated by ", " up to a closing parenthesis. */
  function ReadNames(s: string): Parse<seq<string>>
    decreases |s|
  {
    match ReadName(s)
    case NoParse => NoParse
    case Parsed(name, rest) =>
      if ")" <= rest then Parsed([name], rest[1..])
      else if ", " <= rest && |rest| <= |s| then
        match ReadNames(rest[2..])
        case NoParse => NoParse
        case Parsed(names, end) => Parsed([name] + names, end)
      else NoParse
  }

  function ReadValues(s: string): Parse<seq<Option<string>>>
    decreases |s|
  {
    match ReadValue(s)
    case NoParse => NoParse
    case Parsed(v, rest) =>
      if ")" <= rest then Parsed([v], rest[1..])
      else if ", " <= rest && |rest| <= |s| then
        match ReadValues(rest[2..])
        case NoParse => NoParse
        case Parsed(vs, end) => Parsed([v] + vs, end)
      else NoParse
  }

  /** A parenthesised list may be empty. */
  function ReadNameList(s: string): Parse<seq<string>> {
    if ")" <= s then Parsed([], s[1..]) else ReadNames(s)
  }

  function ReadValueList(s: string): Parse<seq<Option<string>>> {
    if ")" <= s then Parsed([], s[1..]) else ReadValues(s)
  }

  lemma {:induction false} LastName(s: string, name: string, t: string)
    requires ReadName(s) == Parsed(name, ")" + t)
    ensures ReadNames(s) == Parsed([name], t)
  {
    assert (")" + t)[1..] == t;
  }

  lemma {:induction false} MoreNames(s: string, name: string, t: string, names: seq<string>, end: string)
    requires ReadName(s) == Parsed(name, ", " + t) && |t| + 2 <= |s|
    requires ReadNames(t) == Parsed(names, end)
    ensures ReadNames(s) == Parsed([name] + names, end)
  {
    var rest := ", " + t;
    assert rest[2..] == t && rest[0] == ',';
  }

  lemma {:induction false} JoinedSplits(parts: seq<string>, tail: string)
    requires |parts| > 1
    ensures Joined(parts) + tail == parts[0] + (", " + (Joined(parts[1..]) + tail))
  {
    AppendAssociates(parts[0], ", ", Joined(parts[1..]));
    AppendAssociates(parts[0], ", " + Joined(parts[1..]), tail);
    AppendAssociates(", ", Joined(parts[1..]), tail);
  }

  lemma {:induction false} NamesReadBack(cols: seq<string>, rest: string)
    requires cols != [] && NoBackticks(cols)
    ensures ReadNames(Joined(Columns(cols)) + (")" + rest)) == Parsed(cols, rest)
  {
    var names, tail := Columns(cols), ")" + rest;
    var s := Joined(names) + tail;
    if |cols| == 1 {
      assert tail[0] == ')';
      RawNameReadsBackIff(cols[0], tail);
      LastName(s, cols[0], rest);
      assert cols == [cols[0]];
    } else {
      assert names[1..] == Columns(cols[1..]);
      var t := Joined(Columns(cols[1..])) + tail;
      JoinedSplits(names, tail);
      var after := ", " + t;
      assert after[0] == ',';
      RawNameReadsBackIff(cols[0], after);
      NamesReadBack(cols[1..], rest);
      MoreNames(s, cols[0], t, cols[1..], rest);
      assert cols == [cols[0]] + cols[1..];
    }
  }

  /** Whatever reads a list of names starts with whatever reads the first. */
  lemma {:induction false} NamesStart(s: string)
    ensures ReadNames(s).Parsed? ==> ReadName(s).Parsed? && ReadNames(s).value != [] && ReadNames(s).value[0] == ReadName(s).value
  {
  }

  lemma {:induction false} NamesContinue(s: string, name: string, t: string)
    requires ReadName(s) == Parsed(name, ", " + t) && |t| + 2 <= |s|
    ensures ReadNames(s).Parsed? ==> ReadNames(t).Parsed? && ReadNames(s).value[1..] == ReadNames(t).value
  {
    var rest := ", " + t;
    assert rest[2..] == t && rest[0] == ',';
  }

  /** A printed list of names that reads as itself, wherever the reading ends, holds no backtick. */
  lemma {:induction false} NamesReadAsThemselves(cols: seq<string>, rest: string)
    requires cols != []
    requires var r := ReadNames(Joined(Columns(cols)) + (")" + rest)); r.Parsed? && r.value == cols
    ensures NoBackticks(cols)
  {
    var names, tail := Columns(cols), ")" + rest;
    var s := Joined(names) + tail;
    NamesStart(s);
    if |cols| == 1 {
      assert tail[0] == ')';
      RawNameReadsBackIff(cols[0], tail);
    } else {
      assert names[1..] == Columns(cols[1..]);
      var t := Joined(Columns(cols[1..])) + tail;
      JoinedSplits(names, tail);
      var after := ", " + t;
      assert after[0] == ',';
      RawNameReadsBackIff(cols[0], after);
      NamesContinue(s, cols[0], t);
      NamesReadAsThemselves(cols[1..], rest);
    }
  }

  lemma {:induction false} ListStarts(s: string, rest: string, c: char)
    requires |s| > 0 && s[0] == c && c != ')'
    ensures !(")" <= s + rest)
  {
    assert (s + rest)[0] == c;
  }

  lemma {:induction false} JoinedStarts(parts: seq<string>)
    requires parts != [] && parts[0] != []
    ensures Joined(parts) != [] && Joined(parts)[0] == parts[0][0]
  {
  }

  /** The printed column list reads back as itself exactly when no name holds a backtick. */
  lemma {:induction false} NameListReadsBackIff(cols: seq<string>, rest: string)
    ensures var r := ReadNameList(Joined(Columns(cols)) + (")" + rest));
            && (NoBackticks(cols) ==> r == Parsed(cols, rest))
            && (r.Parsed? && r.value == cols ==> NoBackticks(cols))
  {
    var tail := ")" + rest;
    if cols == [] {
      assert "" + tail == tail && tail[1..] == rest;
    } else {
      assert Columns(cols)[0] == QuotedRaw(cols[0]) && QuotedRaw(cols[0])[0] == '`';
      JoinedStarts(Columns(cols));
      ListStarts(Joined(Columns(cols)), tail, '`');
      if NoBackticks(cols) {
        NamesReadBack(cols, rest);
      } else if ReadNames(Joined(Columns(cols)) + tail).Parsed? && ReadNames(Joined(Columns(cols)) + tail).value == cols {
        NamesReadAsThemselves(cols, rest);
      }
    }
  }

  lemma {:induction false} LastValue(s: string, v: Option<string>, t: string)
    requires ReadValue(s) == Parsed(v, ")" + t)
    ensures ReadValues(s) == Parsed([v], t)
  {
    assert (")" + t)[1..] == t;
  }

  lemma {:induction false} MoreValues(s: string, v: Option<string>, t: string, vs: seq<Option<string>>, end: string)
    requires ReadValue(s) == Parsed(v, ", " + t) && |t| + 2 <= |s|
    requires ReadValues(t) == Parsed(vs, end)
    ensures ReadValues(s) == Parsed([v] + vs, end)
  {
    var rest := ", " + t;
    assert rest[2..] == t && rest[0] == ',';
  }

  lemma {:induction false} ValuesTail(row: seq<Option<string>>)
    requires row != []
    ensures Values(row)[0] == Value(row[0]) && Values(row)[1..] == Values(row[1..])
  {
    var tail := row[1..];
    forall i | 0 <= i < |tail| ensures Values(row)[1..][i] == Values(tail)[i] {
      assert tail[i] == row[i + 1];
    }
  }

  lemma {:induction false} SomeValuesReadBack(row: seq<Option<string>>, rest: string)
    requires row != []
    ensures ReadValues(Joined(Values(row)) + (")" + rest)) == Parsed(row, rest)
  {
    var values, tail := Values(row), ")" + rest;
    var s := Joined(values) + tail;
    if |row| == 1 {
      assert tail[0] == ')';
      ValueReadsBack(row[0], tail);
      LastValue(s, row[0], rest);
      assert row == [row[0]];
    } else {
      ValuesTail(row);
      var t := Joined(Values(row[1..])) + tail;
      JoinedSplits(values, tail);
      var after := ", " + t;
      assert after[0] == ',';
      ValueReadsBack(row[0], after);
      SomeValuesReadBack(row[1..], rest);
      MoreValues(s, row[0], t, row[1..], rest);
      assert row == [row[0]] + row[1..];
    }
  }

  /** For every list of optional strings, reading the printed list gives the same list and stops at its parenthesis. */
  lemma {:induction false} ValuesReadBack(row: seq<Option<string>>, rest: string)
    ensures ReadValueList(Joined(Values(row)) + (")" + rest)) == Parsed(row, rest)
  {
    var tail := ")" + rest;
    if row == [] {
      assert "" + tail == tail && tail[1..] == rest;
    } else {
      var first := Values(row)[0];
      assert first == Value(row[0]) && first != [] && first[0] != ')';
      JoinedStarts(Values(row));
      ListStarts(Joined(Values(row)), tail, first[0]);
      SomeValuesReadBack(row, rest);
    }
  }

  datatype Statement = Statement(table: string, cols: seq<string>, row: seq<Option<string>>)

  function Past(word: string, s: string): Option<string> {
    if word <= s then Some(s[|word|..]) else None
  }

  function ReadInsert(s: string): Parse<Statement> {
    match Past("INSERT INTO ", s)
    case None => NoParse
    case Some(s1) =>
      match ReadName(s1)
      case NoParse => NoParse
      case Parsed(table, s2) =>
        match Past(" (", s2)
        case None => NoParse
        case Some(s3) => ReadColumns(table, s3)
  }

  /** The rest of a statement, after the parenthesis that opens its column list. */
  function ReadColumns(table: string, s3: string): Parse<Statement> {
    match ReadNameList(s3)
    case NoParse => NoParse
    case Parsed(cols, s4) =>
      match Past(" VALUES (", s4)
      case None => NoParse
      case Some(s5) =>
        match ReadValueList(s5)
        case NoParse => NoParse
        case Parsed(row, s6) =>
          match Past(";\n", s6)
          case None => NoParse
          case Some(rest) => Parsed(Statement(table, cols, row), rest)
  }

  lemma {:induction false} PastAppend(word: string, rest: string)
    ensures Past(word, word + rest) == Some(rest)
  {
    assert (word + rest)[|word|..] == rest;
  }

  lemma {:induction false} InsertSplits(table: string, names: string, values: string, rest: string)
    ensures "INSERT INTO " + table + " (" + names + ") VALUES (" + values + ");\n" + rest
         == "INSERT INTO " + (table + (" (" + (names + (")" + (" VALUES (" + (values + (")" + (";\n" + rest))))))))
  {
    var s6 := ";\n" + rest;
    var s5 := ")" + s6;
    assert ");\n" + rest == s5;
    var s4 := values + s5;
    var s3 := " VALUES (" + s4;
    assert ") VALUES (" + s4 == ")" + s3;
    var head := "INSERT INTO ";
    AppendAssociates(head + table + " (" + names + ") VALUES (" + values, ");\n", rest);
    AppendAssociates(head + table + " (" + names + ") VALUES (", values, s5);
    AppendAssociates(head + table + " (" + names, ") VALUES (", s4);
    AppendAssociates(head + table + " (", names, ")" + s3);
    AppendAssociates(head + table, " (", names + (")" + s3));
    AppendAssociates(head, table, " (" + (names + (")" + s3)));
  }

  /**
   * A printed INSERT reads back as the same statement exactly when no column name holds a backtick, whatever the
   * table name, the values and the following text; with one it never reads as itself, wherever the reading ends.
   */
  lemma {:induction false} InsertReadsBack(table: string, cols: seq<string>, row: seq<Option<string>>, rest: string)
    ensures var r := ReadInsert(Insert(table, cols, row) + rest);
            && (r == Parsed(Statement(table, cols, row), rest) <==> NoBackticks(cols))
            && (r.Parsed? && r.value.cols == cols ==> NoBackticks(cols))
  {
    var s6 := ";\n" + rest;
    var s5 := Joined(Values(row)) + (")" + s6);
    var s4 := " VALUES (" + s5;
    var s3 := Joined(Columns(cols)) + (")" + s4);
    InsertReads(table, cols, row, rest, s3);
    NameListReadsBackIff(cols, s4);
    PastAppend(" VALUES (", s5);
    ValuesReadBack(row, s6);
    PastAppend(";\n", rest);
  }

  /** The reading of a printed INSERT comes down to its column list. */
  lemma {:induction false} InsertReads(table: string, cols: seq<string>, row: seq<Option<string>>, rest: string,
        s3: string)
    requires s3 == Joined(Columns(cols)) + (")" + (" VALUES (" + (Joined(Values(row)) + (")" + (";\n" + rest)))))
    ensures ReadInsert(Insert(table, cols, row) + rest) == ReadColumns(table, s3)
  {
    var s2 := " (" + s3;
    var s1 := Quoted(table) + s2;
    InsertSplits(Quoted(table), Joined(Columns(cols)), Joined(Values(row)), rest);
    PastAppend("INSERT INTO ", s1);
    assert s2[0] == ' ';
    QuotedNameReadsBack(table, s2);
    PastAppend(" (", s3);
  }

  /** Read `n` statements one after the other. */
  function ReadInserts(s: string, n: nat): Parse<seq<Statement>>
    decreases n
  {
    if n == 0 then Parsed([], s) else
      match ReadInsert(s)
      case NoParse => NoParse
      case Parsed(st, rest) =>
        match ReadInserts(rest, n - 1)
        case NoParse => NoParse
        case Parsed(more, end) => Parsed([st] + more, end)
  }

  function Statements(table: string, cols: seq<string>, rows: seq<seq<Option<string>>>): seq<Statement> {
    seq(|rows|, i requires 0 <= i < |rows| => Statement(table, cols, rows[i]))
  }

  lemma {:induction false} ConcatCons(part: string, parts: seq<string>)
    ensures Concat([part] + parts) == part + Concat(parts)
  {
    var all := [part] + parts;
    if parts == [] {
      assert all == [part] && all[..0] == [];
      assert "" + part == part + "";
    } else {
      var n := |parts| - 1;
      assert all[..|all| - 1] == [part] + parts[..n];
      assert all[|all| - 1] == parts[n];
      ConcatCons(part, parts[..n]);
      AppendAssociates(part, Concat(parts[..n]), parts[n]);
    }
  }

  lemma {:induction false} InsertsCons(table: string, cols: seq<string>, rows: seq<seq<Option<string>>>)
    requires rows != []
    ensures Inserts(table, cols, rows) == Insert(table, cols, rows[0]) + Inserts(table, cols, rows[1..])
  {
    var parts := seq(|rows|, i requires 0 <= i < |rows| => Insert(table, cols, rows[i]));
    var rest := seq(|rows| - 1, i requires 0 <= i < |rows| - 1 => Insert(table, cols, rows[1..][i]));
    assert parts == [parts[0]] + rest;
    ConcatCons(parts[0], rest);
  }

  lemma {:induction false} RowsReadBack(table: string, cols: seq<string>, rows: seq<seq<Option<string>>>, rest: string)
    requires NoBackticks(cols)
    ensures ReadInserts(Inserts(table, cols, rows) + rest, |rows|) == Parsed(Statements(table, cols, rows), rest)
  {
    if rows == [] {
      assert "" + rest == rest;
    } else {
      var first, others := Insert(table, cols, rows[0]), Inserts(table, cols, rows[1..]);
      InsertsCons(table, cols, rows);
      AppendAssociates(first, others, rest);
      InsertReadsBack(table, cols, rows[0], others + rest);
      RowsReadBack(table, cols, rows[1..], rest);
      StatementsCons(table, cols, rows);
    }
  }

  lemma {:induction false} FirstStatement(s: string, n: nat)
    requires n > 0 && ReadInserts(s, n).Parsed?
    ensures ReadInsert(s).Parsed? && ReadInserts(s, n).value != [] && ReadInserts(s, n).value[0] == ReadInsert(s).value
  {
  }

  /**
   * The data section of a table restores exactly its rows, in order, exactly when there are none or no column
   * name holds a backtick; with one the statements read are never those printed.
   */
  lemma {:induction false} DumpRestoresTheRows(table: string, cols: seq<string>, rows: seq<seq<Option<string>>>,
        rest: string)
    ensures var r := ReadInserts(Inserts(table, cols, rows) + rest, |rows|);
            && (r == Parsed(Statements(table, cols, rows), rest) <==> rows == [] || NoBackticks(cols))
            && (r.Parsed? && r.value == Statements(table, cols, rows) ==> rows == [] || NoBackticks(cols))
  {
    if rows == [] {
      assert "" + rest == rest;
      assert Statements(table, cols, rows) == [];
    } else if NoBackticks(cols) {
      RowsReadBack(table, cols, rows, rest);
    } else {
      var s := Inserts(table, cols, rows) + rest;
      var first, others := Insert(table, cols, rows[0]), Inserts(table, cols, rows[1..]);
      InsertsCons(table, cols, rows);
      AppendAssociates(first, others, rest);
      InsertReadsBack(table, cols, rows[0], others + rest);
      if ReadInserts(s, |rows|).Parsed? {
        FirstStatement(s, |rows|);
      }
    }
  }

  lemma {:induction false} StatementsCons(table: string, cols: seq<string>, rows: seq<seq<Option<string>>>)
    requires rows != []
    ensures Statements(table, cols, rows) == [Statement(table, cols, rows[0])] + Statements(table, cols, rows[1..])
  {
  }
}

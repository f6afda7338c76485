/**
 * The `columns:` block of a generated source file: one `- name:` line with the
 * column name in a YAML double-quoted string and one `type:` line per column.
 */
module ColumnsYaml {
  import opened Wrappers
  import opened Seqs
  import opened Ascii

  /** One entry of a dataset's cached column list; either key may be missing. */
  datatype Column = Column(name: Option<string>, typ: Option<string>)

  /** The escape applied to one character of a column name. */
  function EscapeChar(c: char): string
  {
    if c == '\\' then "\\\\" else if c == '"' then "\\\"" else [c]
  }

  /** The two replacements applied to a column name: backslashes first, then double quotes. */
  function Escape(name: string): string
  {
    ReplaceAll(ReplaceAll(name, "\\", "\\\\"), "\"", "\\\"")
  }

  /** Because backslashes are doubled before quotes are escaped, the two passes
      amount to escaping each character on its own. */
  lemma EscapeCons(c: char, s: string)
    ensures Escape([c] + s) == EscapeChar(c) + Escape(s)
  {
    var t := [c] + s;
    assert t[1..] == s;
    assert OccursAt(t, "\\", 0) <==> c == '\\' by {
      assert t[0..1] == [c];
    }
    var first := if c == '\\' then "\\\\" else [c];
    assert ReplaceAll(t, "\\", "\\\\") == first + ReplaceAll(s, "\\", "\\\\");
    ReplaceAppend(first, ReplaceAll(s, "\\", "\\\\"), '"', "\\\"");
    if c == '\\' {
      assert first[1..] == "\\";
      assert first[1..][1..] == [];
      assert !OccursAt(first, "\"", 0) by { assert first[0..1] == "\\"; }
      assert !OccursAt(first[1..], "\"", 0) by { assert first[1..][0..1] == "\\"; }
    } else {
      assert first[1..] == [];
      assert OccursAt(first, "\"", 0) <==> c == '"' by { assert first[0..1] == [c]; }
    }
  }

  /** A character YAML takes as it is inside a double-quoted scalar on one line: tab and the
      printable characters. Line breaks are excluded (YAML folds them into spaces), and so are
      the other control characters (YAML rejects them unescaped). */
  predicate IsPrintable(c: char)
  {
    var n := c as int;
    n == 9 || (32 <= n < 127) || (0xA0 <= n <= 0xD7FF) || (0xE000 <= n <= 0xFFFD) || n >= 0x10000
  }

  /** Reads the body of a YAML double-quoted scalar on one line up to its closing quote, undoing
      the escapes `\\` and `\"`; gives the text and what follows the closing quote. Any other
      escape is outside this model and yields `None`, as do a missing closing quote and a raw
      character that is not printable. */
  function ReadQuoted(s: string): Option<(string, string)>
    decreases |s|
  {
    if s == [] then None
    else if s[0] == '"' then Some(([], s[1..]))
    else if s[0] == '\\' then
      if |s| < 2 || (s[1] != '\\' && s[1] != '"') then None
      else match ReadQuoted(s[2..])
        case None => None
        case Some(p) => Some(([s[1]] + p.0, p.1))
    else if !IsPrintable(s[0]) then None
    else match ReadQuoted(s[1..])
      case None => None
      case Some(p) => Some(([s[0]] + p.0, p.1))
  }

  /** Round trip: a reader of the quoted string recovers exactly the original name,
      and the closing quote written after it is where the string ends. */
  lemma {:induction false} QuotedRoundTrip(name: string, rest: string)
    requires forall k :: 0 <= k < |name| ==> IsPrintable(name[k])
    ensures ReadQuoted(Escape(name) + "\"" + rest) == Some((name, rest))
  {
    if name == [] {
      assert Escape(name) == [];
      assert Escape(name) + "\"" + rest == "\"" + rest;
      assert ("\"" + rest)[1..] == rest;
    } else {
      var c, tail := name[0], name[1..];
      assert name == [c] + tail;
      EscapeCons(c, tail);
      QuotedRoundTrip(tail, rest);
      var s := Escape(name) + "\"" + rest;
      var e := EscapeChar(c);
      assert s == e + (Escape(tail) + "\"" + rest);
      if c == '\\' || c == '"' {
        assert s[2..] == Escape(tail) + "\"" + rest;
      } else {
        assert s[1..] == Escape(tail) + "\"" + rest;
      }
    }
  }

  /** The two replacements leave a line feed as it is, so a name holding one does not read back:
      the quoted scalar of `a` + line feed + `b` is refused. */
  lemma LineBreakNotReadBack()
    ensures ReadQuoted(Escape("a\nb") + "\"") == None
  {
    var tail := "b";
    EscapeCons('b', []);
    assert Escape([]) == [];
    assert Escape(tail) == "b";
    EscapeCons('\n', tail);
    assert "\nb" == ['\n'] + tail;
    EscapeCons('a', "\nb");
    assert "a\nb" == ['a'] + "\nb";
    var s := Escape("a\nb") + "\"";
    assert s == "a\nb\"";
    assert s[1..] == "\nb\"";
    assert !IsPrintable(s[1..][0]);
  }

  /** Escaping adds no character other than backslash and double quote. */
  lemma {:induction false} EscapeAddsOnlyQuoting(name: string)
    ensures forall c :: c in Escape(name) ==> c in name || c == '\\' || c == '"'
  {
    if name == [] {
      assert Escape(name) == [];
    } else {
      assert name == [name[0]] + name[1..];
      EscapeCons(name[0], name[1..]);
      EscapeAddsOnlyQuoting(name[1..]);
    }
  }

  /** Where the quoted name starts on a `- name:` line. */
  function QuoteStart(indent: nat): nat
  {
    indent + 2 + |"- name: \""|
  }

  /** The `- name:` line of one column; the name defaults to `unknown`. */
  function NameLine(c: Column, indent: nat): string
  {
    Spaces(indent + 2) + "- name: \"" + Escape(c.name.GetOr("unknown")) + "\""
  }

  /** The `type:` line of one column; the type defaults to `string`. */
  function TypeLine(c: Column, indent: nat): string
  {
    Spaces(indent + 4) + "type: " + c.typ.GetOr("string")
  }

  /** The lines of the block: the `columns:` header, then a name line and a type line per column, in order. */
  function ColumnLines(fields: seq<Column>, indent: nat): (lines: seq<string>)
    ensures |lines| == 1 + 2 * |fields|
    ensures lines[0] == Spaces(indent) + "columns:"
    ensures forall i :: 0 <= i < |fields| ==>
      lines[1 + 2 * i] == NameLine(fields[i], indent) && lines[2 + 2 * i] == TypeLine(fields[i], indent)
  {
    if fields == [] then [Spaces(indent) + "columns:"]
    else
      var last := fields[|fields| - 1];
      ColumnLines(fields[..|fields| - 1], indent) + [NameLine(last, indent), TypeLine(last, indent)]
  }

  /** The block as text: empty when there are no columns, else the lines joined by line feeds. */
  method FormatColumnsYaml(fields: seq<Column>, indent: nat) returns (yaml: string)
    ensures fields == [] ==> yaml == ""
    ensures fields != [] ==> yaml == Join(ColumnLines(fields, indent), "\n")
  {
    if fields == [] {
      return "";
    }
    var lines := [Spaces(indent) + "columns:"];
    for i := 0 to |fields|
      invariant lines == ColumnLines(fields[..i], indent)
    {
      var field := fields[i];
      var name := field.name.GetOr("unknown");
      var fieldType := field.typ.GetOr("string");
      name := ReplaceAll(ReplaceAll(name, "\\", "\\\\"), "\"", "\\\"");
      lines := lines + [Spaces(indent + 2) + "- name: \"" + name + "\"", Spaces(indent + 4) + "type: " + fieldType];
      assert fields[..i + 1][..i] == fields[..i];
    }
    assert fields[..|fields|] == fields;
    yaml := Join(lines, "\n");
  }

  /** Each name line quotes the column's name so that reading the quoted string back gives the name. */
  lemma NameLineRoundTrip(c: Column, indent: nat)
    requires forall k :: 0 <= k < |c.name.GetOr("unknown")| ==> IsPrintable(c.name.GetOr("unknown")[k])
    ensures var line := NameLine(c, indent);
      QuoteStart(indent) <= |line| && ReadQuoted(line[QuoteStart(indent)..]) == Some((c.name.GetOr("unknown"), ""))
  {
    var name := c.name.GetOr("unknown");
    var line := NameLine(c, indent);
    assert line == (Spaces(indent + 2) + "- name: \"") + (Escape(name) + "\"" + "");
    QuotedRoundTrip(name, "");
  }

  lemma NameLineNoNewline(c: Column, indent: nat)
    requires '\n' !in c.name.GetOr("unknown")
    ensures '\n' !in NameLine(c, indent)
  {
    EscapeAddsOnlyQuoting(c.name.GetOr("unknown"));
  }

  lemma {:induction false} ColumnLinesNoNewline(fields: seq<Column>, indent: nat)
    requires forall i :: 0 <= i < |fields| ==> '\n' !in fields[i].name.GetOr("unknown")
    requires forall i :: 0 <= i < |fields| ==> '\n' !in fields[i].typ.GetOr("string")
    ensures forall k :: 0 <= k < |ColumnLines(fields, indent)| ==> '\n' !in ColumnLines(fields, indent)[k]
  {
    if fields != [] {
      var n := |fields| - 1;
      ColumnLinesNoNewline(fields[..n], indent);
      NameLineNoNewline(fields[n], indent);
    }
  }

  /** With no line feed in any name or type, the block is exactly 1 + 2 * |fields| lines:
      splitting the text on line feeds gives `ColumnLines` back. */
  lemma ColumnsTextLines(fields: seq<Column>, indent: nat)
    requires forall i :: 0 <= i < |fields| ==> '\n' !in fields[i].name.GetOr("unknown")
    requires forall i :: 0 <= i < |fields| ==> '\n' !in fields[i].typ.GetOr("string")
    ensures Split(Join(ColumnLines(fields, indent), "\n"), "\n") == ColumnLines(fields, indent)
  {
    ColumnLinesNoNewline(fields, indent);
    SplitJoin(ColumnLines(fields, indent), '\n');
  }
}

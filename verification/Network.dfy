/** The network page's reading of nmcli's terse output: rows of escaped fields, and one entry per network. */
module Network {
  import opened Common
  import Utf8

  const DATA_LIMIT := 65536

  // Rows: fields separated by ':', with ':' and '\' escaped by '\'.

  ghost predicate Control(c: char) {
    c as int < 32 || c as int == 127
  }

  ghost predicate Plain(s: string) {
    forall c :: c in s ==> !Control(c)
  }

  ghost function EscapeCharacter(c: char): string {
    if c == ':' || c == '\\' then ['\\', c] else [c]
  }

  ghost function Escape(field: string): string {
    if field == "" then "" else EscapeCharacter(field[0]) + Escape(field[1..])
  }

  /** Finished fields, each behind its separator. */
  ghost function Front(fields: seq<string>): string {
    if fields == [] then "" else Front(fields[..|fields| - 1]) + Escape(fields[|fields| - 1]) + ":"
  }

  ghost function RenderLine(fields: seq<string>): string {
    if fields == [] then "" else Front(fields[..|fields| - 1]) + Escape(fields[|fields| - 1])
  }

  /** Reading the rest of a line, given the finished fields, the field begun, and whether a '\' came last. */
  ghost function Scan(rest: string, fields: seq<string>, field: string, escaped: bool): Option<seq<string>> {
    if rest == "" then if escaped then None else Some(fields + [field])
    else if Control(rest[0]) then None
    else if escaped then
      if rest[0] == ':' || rest[0] == '\\' then Scan(rest[1..], fields, field + [rest[0]], false) else None
    else if rest[0] == '\\' then Scan(rest[1..], fields, field, true)
    else if rest[0] == ':' then Scan(rest[1..], fields + [field], "", false)
    else Scan(rest[1..], fields, field + [rest[0]], false)
  }

  ghost function LineFields(line: string): Option<seq<string>> {
    Scan(line, [], "", false)
  }

  method ParseLine(line: string) returns (r: Option<seq<string>>)
    ensures r == LineFields(line)
  {
    var fields: seq<string>, field: string, escaped := [], "", false;
    assert line[0..] == line;
    for i := 0 to |line|
      invariant LineFields(line) == Scan(line[i..], fields, field, escaped)
    {
      var c := line[i];
      assert line[i..][1..] == line[i + 1..] && line[i..][0] == c;
      if c as int < 32 || c as int == 127 { return None; }
      if escaped {
        if c != ':' && c != '\\' { return None; }
        field, escaped := field + [c], false;
      } else if c == '\\' {
        escaped := true;
      } else if c == ':' {
        fields, field := fields + [field], "";
      } else {
        field := field + [c];
      }
    }
    assert line[|line|..] == "";
    if escaped { return None; }
    return Some(fields + [field]);
  }

  lemma {:induction false} EscapeMore(field: string, c: char)
    ensures Escape(field + [c]) == Escape(field) + EscapeCharacter(c)
  {
    if field == "" {
      assert field + [c] == [c] && [c][1..] == "";
    } else {
      var more := field + [c];
      assert more[0] == field[0] && more[1..] == field[1..] + [c];
      EscapeMore(field[1..], c);
      Associate(EscapeCharacter(field[0]), Escape(field[1..]), EscapeCharacter(c));
    }
  }

  lemma ScanPair(c: char, behind: string, fields: seq<string>, begun: string)
    requires c == ':' || c == '\\'
    ensures Scan(['\\', c] + behind, fields, begun, false) == Scan(behind, fields, begun + [c], false)
  {
    var s := ['\\', c] + behind;
    assert s[1..] == [c] + behind && s[1..][1..] == behind;
  }

  lemma ScanPlain(c: char, behind: string, fields: seq<string>, begun: string)
    requires c != ':' && c != '\\' && !Control(c)
    ensures Scan([c] + behind, fields, begun, false) == Scan(behind, fields, begun + [c], false)
  {
    assert ([c] + behind)[1..] == behind;
  }

  /** Scanning an escaped field adds the field and nothing else. */
  lemma {:induction false} ScanEscaped(field: string, rest: string, fields: seq<string>, begun: string)
    requires Plain(field)
    ensures Scan(Escape(field) + rest, fields, begun, false) == Scan(rest, fields, begun + field, false)
  {
    if field == "" {
      assert Escape(field) + rest == rest && begun + field == begun;
    } else {
      var c, more := field[0], Escape(field[1..]);
      assert c in field;
      ScanEscaped(field[1..], rest, fields, begun + [c]);
      assert begun + [c] + field[1..] == begun + field;
      Associate(EscapeCharacter(c), more, rest);
      if c == ':' || c == '\\' {
        ScanPair(c, more + rest, fields, begun);
      } else {
        ScanPlain(c, more + rest, fields, begun);
      }
    }
  }

  lemma {:induction false} ScanFront(front: seq<string>, rest: string)
    requires forall i :: 0 <= i < |front| ==> Plain(front[i])
    ensures Scan(Front(front) + rest, [], "", false) == Scan(rest, front, "", false)
  {
    if front == [] {
      assert Front(front) + rest == rest;
    } else {
      var init, last := front[..|front| - 1], front[|front| - 1];
      ScanFront(init, Escape(last) + (":" + rest));
      assert Front(front) + rest == Front(init) + (Escape(last) + (":" + rest));
      ScanEscaped(last, ":" + rest, init, "");
      assert "" + last == last && (":" + rest)[1..] == rest && init + [last] == front;
    }
  }

  /** Reading a rendered row gives the row. */
  lemma LineRoundTrip(fields: seq<string>)
    requires fields != [] && forall i :: 0 <= i < |fields| ==> Plain(fields[i])
    ensures LineFields(RenderLine(fields)) == Some(fields)
  {
    var init, last := fields[..|fields| - 1], fields[|fields| - 1];
    ScanFront(init, Escape(last));
    assert Escape(last) + "" == Escape(last) && "" + last == last;
    ScanEscaped(last, "", init, "");
    assert init + [last] == fields;
  }

  ghost predicate AllPlain(fields: seq<string>) {
    forall i :: 0 <= i < |fields| ==> Plain(fields[i])
  }

  /** What of a line has been read to get here. */
  ghost function Begun(fields: seq<string>, field: string, escaped: bool): string {
    Front(fields) + Escape(field) + if escaped then "\\" else ""
  }

  /** One more character read, and where the scan goes on. */
  lemma BegunNext(fields: seq<string>, field: string, escaped: bool, c: char)
    ensures escaped && (c == ':' || c == '\\') ==>
              Begun(fields, field + [c], false) == Begun(fields, field, escaped) + [c]
    ensures !escaped && c == '\\' ==> Begun(fields, field, true) == Begun(fields, field, escaped) + [c]
    ensures !escaped && c == ':' ==> Begun(fields + [field], "", false) == Begun(fields, field, escaped) + [c]
    ensures !escaped && c != ':' && c != '\\' ==>
              Begun(fields, field + [c], false) == Begun(fields, field, escaped) + [c]
  {
    EscapeMore(field, c);
    assert (fields + [field])[..|fields|] == fields && Escape("") == "";
  }

  /** Whatever is read was the rendering of the row read, and had no control characters. */
  lemma {:induction false} ScanRenders(rest: string, fields: seq<string>, field: string, escaped: bool)
    requires Scan(rest, fields, field, escaped).Some? && Plain(field) && AllPlain(fields)
    ensures var out := Scan(rest, fields, field, escaped).value;
            out != [] && AllPlain(out) && RenderLine(out) == Begun(fields, field, escaped) + rest
    decreases |rest|
  {
    if rest == "" {
      assert (fields + [field])[..|fields|] == fields;
    } else {
      var c := rest[0];
      var next := if escaped || (c != '\\' && c != ':') then field + [c] else if c == '\\' then field else "";
      var done := if !escaped && c == ':' then fields + [field] else fields;
      BegunNext(fields, field, escaped, c);
      ScanRenders(rest[1..], done, next, !escaped && c == '\\');
      Shift(Begun(fields, field, escaped), c, rest);
    }
  }

  lemma Shift(front: string, c: char, rest: string)
    requires rest != "" && rest[0] == c
    ensures front + [c] + rest[1..] == front + rest
  {
  }

  lemma LineRenders(line: string)
    requires LineFields(line).Some?
    ensures var out := LineFields(line).value; out != [] && AllPlain(out) && RenderLine(out) == line
  {
    ScanRenders(line, [], "", false);
    assert Escape("") == "" && "" + "" + "" + line == line;
  }

  // The whole output.

  /** The lines that are not blank. */
  ghost function Lines(parts: seq<string>): seq<string> {
    if parts == [] then [] else (if parts[0] == "" then [] else [parts[0]]) + Lines(parts[1..])
  }

  ghost function Rows(lines: seq<string>): Option<seq<seq<string>>> {
    if lines == [] then Some([])
    else
      match LineFields(lines[0])
      case None => None
      case Some(fields) =>
        match Rows(lines[1..])
        case None => None
        case Some(rows) => Some([fields] + rows)
  }

  ghost function Parsed(data: seq<byte>): Option<seq<seq<string>>> {
    var d := Utf8.DecodeMarked(data);
    if |data| > 65_536 || d.errors then None else Rows(Lines(Split(d.text, '\n')))
  }

  /** A row as nmcli prints it: fields without control characters, and not just one empty field. */
  ghost predicate Printable(fields: seq<string>) {
    fields != [] && AllPlain(fields) && fields != [""]
  }

  ghost function Rendered(rows: seq<seq<string>>): seq<string> {
    if rows == [] then [] else [RenderLine(rows[0])] + Rendered(rows[1..])
  }

  /** The rows read from any lines are the rows whose renderings the lines are. */
  lemma {:induction false} RowsRender(lines: seq<string>)
    requires Rows(lines).Some?
    ensures var rows := Rows(lines).value;
            (forall i :: 0 <= i < |rows| ==> rows[i] != [] && AllPlain(rows[i])) && Rendered(rows) == lines
  {
    if lines != [] {
      LineRenders(lines[0]);
      RowsRender(lines[1..]);
    }
  }

  lemma {:induction false} RenderedRows(rows: seq<seq<string>>)
    requires forall i :: 0 <= i < |rows| ==> rows[i] != [] && AllPlain(rows[i])
    ensures Rows(Rendered(rows)) == Some(rows)
  {
    if rows != [] {
      LineRoundTrip(rows[0]);
      RenderedRows(rows[1..]);
      assert [rows[0]] + rows[1..] == rows;
    }
  }

  /** The output of rows, one line each. */
  ghost function Printed(rows: seq<seq<string>>): string {
    if rows == [] then "" else RenderLine(rows[0]) + "\n" + Printed(rows[1..])
  }

  lemma {:induction false} EscapePlain(field: string)
    requires Plain(field)
    ensures '\n' !in Escape(field)
  {
    if field != "" {
      EscapePlain(field[1..]);
      assert field[0] in field && !Control(field[0]);
    }
  }

  lemma {:induction false} FrontPlain(fields: seq<string>)
    requires AllPlain(fields)
    ensures '\n' !in Front(fields) && (fields != [] ==> Front(fields) != "")
  {
    if fields != [] {
      FrontPlain(fields[..|fields| - 1]);
      EscapePlain(fields[|fields| - 1]);
    }
  }

  lemma LinePlain(fields: seq<string>)
    requires Printable(fields)
    ensures RenderLine(fields) != "" && '\n' !in RenderLine(fields)
  {
    FrontPlain(fields[..|fields| - 1]);
    EscapePlain(fields[|fields| - 1]);
    if |fields| == 1 { assert fields == [fields[0]]; }
  }

  /** A line in front of a text is the first of its lines. */
  lemma {:induction false} SplitLine(line: string, rest: string)
    requires '\n' !in line
    ensures Split(line + "\n" + rest, '\n') == [line] + Split(rest, '\n')
  {
    var s := line + "\n" + rest;
    if line == "" {
      assert s[1..] == rest;
    } else {
      SplitLine(line[1..], rest);
      assert s[1..] == line[1..] + "\n" + rest;
      assert [s[0]] + line[1..] == line;
    }
  }

  lemma {:induction false} PrintedLines(rows: seq<seq<string>>)
    requires forall i :: 0 <= i < |rows| ==> Printable(rows[i])
    ensures Lines(Split(Printed(rows), '\n')) == Rendered(rows)
  {
    if rows == [] {
      assert Split("", '\n') == [""] && Lines([""][1..]) == [];
    } else {
      LinePlain(rows[0]);
      SplitLine(RenderLine(rows[0]), Printed(rows[1..]));
      PrintedLines(rows[1..]);
      var parts := Split(Printed(rows), '\n');
      assert parts[1..] == Split(Printed(rows[1..]), '\n');
    }
  }

  /** Without its first character, which is no line end, a text has other lines. */
  lemma OtherLines(text: string)
    requires Utf8.Marked(text)
    ensures Lines(Split(text[1..], '\n')) != Lines(Split(text, '\n'))
  {
    var parts, less := Split(text, '\n'), Split(text[1..], '\n');
    assert parts[0] == [text[0]] + less[0] && parts[1..] == less[1..];
    if less[0] == "" {
      assert |Lines(parts)| == 1 + |Lines(less)|;
    } else {
      assert Lines(parts)[0] == parts[0] && Lines(less)[0] == less[0];
    }
  }

  lemma DecodePrinted(text: string)
    ensures Utf8.DecodeMarked(Utf8.Encode(text)) == Utf8.Decoded(Utf8.WithoutMark(text), false, [])
  {
    Utf8.EncodedMark(text);
    Utf8.DecodeEncode(text);
    if Utf8.Marked(text) {
      Utf8.DecodeEncode(text[1..]);
      assert Utf8.EncodeChar(text[0]) == Utf8.BOM;
      assert Utf8.Encode(text)[3..] == Utf8.Encode(text[1..]);
    }
  }

  /**
   Rows as nmcli prints them read back as themselves, unless the very first field begins with U+FEFF: the decoder
   takes that for a byte order mark and drops it.
   */
  lemma PrintThenParse(rows: seq<seq<string>>)
    requires forall i :: 0 <= i < |rows| ==> Printable(rows[i])
    requires |Utf8.Encode(Printed(rows))| <= DATA_LIMIT
    ensures Parsed(Utf8.Encode(Printed(rows))) == Some(rows) <==> !Utf8.Marked(Printed(rows))
  {
    var text := Printed(rows);
    DecodePrinted(text);
    PrintedLines(rows);
    RenderedRows(rows);
    if Utf8.Marked(text) {
      OtherLines(text);
      var lines := Lines(Split(text[1..], '\n'));
      if Rows(lines) == Some(rows) { RowsRender(lines); }
    }
  }

  /** For instance a row with the one field U+FEFF "a" reads back as "a". */
  lemma MarkedRowIsLost()
    ensures var rows := [[[Utf8.ZERO_WIDTH_NO_BREAK, 'a']]];
            && Printable(rows[0]) && |Utf8.Encode(Printed(rows))| <= DATA_LIMIT
            && Parsed(Utf8.Encode(Printed(rows))) == Some([["a"]])
  {
    var field := [Utf8.ZERO_WIDTH_NO_BREAK, 'a'];
    OneField(field);
    OneField("a");
    var text := field + "\n";
    DecodePrinted(text);
    assert text[1..] == "a\n";
    PrintedLines([["a"]]);
    RenderedRows([["a"]]);
    ShortEncoding(text);
  }

  lemma OneField(field: string)
    requires field == "a" || field == [Utf8.ZERO_WIDTH_NO_BREAK, 'a']
    ensures Printable([field]) && Printed([[field]]) == field + "\n"
  {
    assert Escape("") == "" && Escape("a") == "a";
    assert field != "a" ==> field[1..] == "a";
    assert Escape(field) == field;
    assert [field][..0] == [] && [[field]][1..] == [];
  }

  lemma {:induction false} ShortEncoding(s: string)
    ensures |Utf8.Encode(s)| <= 4 * |s|
  {
    if s != "" {
      ShortEncoding(s[1..]);
    }
  }

  /**
   Whatever is accepted is the rendering of the rows read, up to blank lines; as bytes, it is that text between
   an optional byte order mark and whatever incomplete character the decoder kept at the end.
   */
  lemma ParseThenPrint(data: seq<byte>)
    requires Parsed(data).Some?
    ensures var rows, d := Parsed(data).value, Utf8.DecodeMarked(data);
            && (forall i :: 0 <= i < |rows| ==> rows[i] != [] && AllPlain(rows[i]))
            && Rendered(rows) == Lines(Split(d.text, '\n'))
            && data == (if Utf8.BOM <= data then Utf8.BOM else []) + Utf8.Encode(d.text) + d.kept
  {
    RowsRender(Lines(Split(Utf8.DecodeMarked(data).text, '\n')));
    DecodedBytes(data);
  }

  /** The bytes are a text whose lines, but for blank ones, are the renderings of the rows. */
  ghost predicate Prints(text: string, data: seq<byte>, rows: seq<seq<string>>) {
    Utf8.Encode(text) == data && Lines(Split(text, '\n')) == Rendered(rows)
  }

  /**
   Accepted output is the rendering of its rows up to blank lines exactly when it has no byte order mark and does
   not break off inside a character: the decoder drops both silently.
   */
  lemma AcceptedPrints(data: seq<byte>)
    requires Parsed(data).Some?
    ensures (exists text :: Prints(text, data, Parsed(data).value)) <==> !(Utf8.BOM <= data) && !Utf8.CutShort(data)
  {
    var rows, d := Parsed(data).value, Utf8.DecodeMarked(data);
    ParseThenPrint(data);
    if !(Utf8.BOM <= data) && !Utf8.CutShort(data) {
      Utf8.KeptIffCutShort(data);
      assert Utf8.Encode(d.text) + [] == data;
      assert Prints(d.text, data, rows);
    }
    if text :| Prints(text, data, rows) {
      DecodePrinted(text);
      Utf8.EncodedMark(text);
      if Utf8.Marked(text) {
        OtherLines(text);
      } else {
        Utf8.KeptIffCutShort(data);
      }
    }
  }

  /** For instance an "a" before a lone 0xC3 is accepted, and read as "a". */
  lemma BrokenRowIsAccepted()
    ensures var data: seq<byte> := [0x61, 0xC3];
            Parsed(data) == Some([["a"]]) && !exists text :: Prints(text, data, [["a"]])
  {
    var data: seq<byte> := [0x61, 0xC3];
    assert Utf8.Next(data) == Utf8.Char('a', 1) && data[1..] == [0xC3] && Utf8.Next([0xC3]).Unfinished?;
    assert Utf8.DecodeMarked(data) == Utf8.Decoded("a", false, [0xC3]);
    LetterRow();
    AcceptedPrints(data);
    assert Utf8.Last(data, 1) == [0xC3];
  }

  lemma LetterRow()
    ensures Rows(Lines(Split("a", '\n'))) == Some([["a"]])
  {
    SplitJoin(["a"], '\n');
    assert Join(["a"], '\n') == "a" && ["a"][1..] == [] && Lines(["a"]) == ["a"];
    OneField("a");
    RenderedRows([["a"]]);
    var row := ["a"];
    var rows := [row];
    assert rows[0] == row && |rows[1..]| == 0 && row[..0] == [] && row[0] == "a" && Escape("a") == "a";
    assert RenderLine(row) == Front([]) + "a" == "a";
    assert Rendered(rows) == [RenderLine(row)] + Rendered([]) == ["a"];
  }

  lemma DecodedBytes(data: seq<byte>)
    requires !Utf8.DecodeMarked(data).errors
    ensures var d := Utf8.DecodeMarked(data);
            data == (if Utf8.BOM <= data then Utf8.BOM else []) + Utf8.Encode(d.text) + d.kept
  {
    if Utf8.BOM <= data {
      Utf8.EncodeDecode(data[3..]);
      assert data == Utf8.BOM + data[3..];
    } else {
      Utf8.EncodeDecode(data);
    }
  }

  lemma {:induction false} RowsMore(lines: seq<string>, line: string)
    ensures Rows(lines + [line]) == if Rows(lines).None? || LineFields(line).None? then None
                                    else Some(Rows(lines).value + [LineFields(line).value])
  {
    if lines == [] {
      assert lines + [line] == [line] && [line][1..] == [];
      if LineFields(line).Some? { assert [LineFields(line).value] + [] == [] + [LineFields(line).value]; }
    } else {
      RowsMore(lines[1..], line);
      assert (lines + [line])[1..] == lines[1..] + [line];
      if LineFields(lines[0]).Some? && Rows(lines[1..]).Some? && LineFields(line).Some? {
        var first, rows, last := LineFields(lines[0]).value, Rows(lines[1..]).value, LineFields(line).value;
        assert [first] + (rows + [last]) == [first] + rows + [last];
      }
    }
  }

  lemma {:induction false} LinesMore(parts: seq<string>, i: nat)
    requires i < |parts|
    ensures Lines(parts[..i + 1]) == Lines(parts[..i]) + (if parts[i] == "" then [] else [parts[i]])
  {
    if i > 0 {
      LinesMore(parts[1..], i - 1);
      assert parts[..i + 1][1..] == parts[1..][..i] && parts[..i][1..] == parts[1..][..i - 1];
    }
  }

  lemma {:induction false} RowsFail(parts: seq<string>, i: nat)
    requires i <= |parts| && Rows(Lines(parts[..i])).None?
    ensures Rows(Lines(parts)).None?
    decreases |parts| - i
  {
    if i < |parts| {
      LinesMore(parts, i);
      if parts[i] != "" { RowsMore(Lines(parts[..i]), parts[i]); }
      assert parts[i] == "" ==> Lines(parts[..i + 1]) == Lines(parts[..i]);
      RowsFail(parts, i + 1);
    } else {
      assert parts[..i] == parts;
    }
  }

  method ParseRows(data: seq<byte>) returns (r: Option<seq<seq<string>>>)
    ensures r == Parsed(data)
  {
    if |data| > DATA_LIMIT { return None; }
    var d := Utf8.DecodeMarked(data);
    if d.errors { return None; }
    var lines, rows: seq<seq<string>> := Split(d.text, '\n'), [];
    for i := 0 to |lines|
      invariant Rows(Lines(lines[..i])) == Some(rows)
    {
      LinesMore(lines, i);
      if lines[i] == "" {
        assert Lines(lines[..i]) + [] == Lines(lines[..i]);
      } else {
        RowsMore(Lines(lines[..i]), lines[i]);
        var fields := ParseLine(lines[i]);
        if fields.None? {
          RowsFail(lines, i + 1);
          return None;
        }
        rows := rows + [fields.value];
      }
    }
    assert lines[..|lines|] == lines;
    return Some(rows);
  }
}

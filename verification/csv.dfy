/**
  The CSV text the class page downloads: every cell quoted with embedded
  quotes doubled, cells joined by "," and lines by "\n". Next to the
  encoder sits a reader for the same format, and the round-trip lemmas
  show the encoding loses nothing.
 */
module Csv {
  import opened Common

  /** Every `"` of `s` written twice. */
  function DoubleQuotes(s: string): (r: string)
    ensures |r| >= |s|
    ensures '"' !in s ==> r == s
  {
    if s == [] then []
    else (if s[0] == '"' then "\"\"" else [s[0]]) + DoubleQuotes(s[1..])
  }

  /** `escapeCsv`: a missing value becomes the empty string, then the text is quoted. */
  function EscapeCsv(value: Option<string>): (r: string)
    ensures |r| >= 2 && r[0] == '"' && r[|r| - 1] == '"'
    ensures value.None? ==> r == "\"\""
  {
    "\"" + DoubleQuotes(value.GetOr("")) + "\""
  }

  /**
    Reads the body of a quoted cell, after its opening quote: the text up
    to the closing quote, where `""` stands for one quote. Answers the text
    and what follows the closing quote.
   */
  function ParseQuoted(t: string): (r: Option<(string, string)>)
    ensures r.Some? ==> |r.value.1| < |t|
    decreases |t|
  {
    if t == [] then None
    else if t[0] == '"' then
      if |t| >= 2 && t[1] == '"' then
        match ParseQuoted(t[2..])
        case None => None
        case Some((v, rest)) => Some(("\"" + v, rest))
      else Some(([], t[1..]))
    else
      match ParseQuoted(t[1..])
      case None => None
      case Some((v, rest)) => Some(([t[0]] + v, rest))
  }

  /** Reads one quoted cell from the front of `t`. */
  function ParseCell(t: string): (r: Option<(string, string)>)
    ensures r.Some? ==> |r.value.1| < |t|
  {
    if t != [] && t[0] == '"' then ParseQuoted(t[1..]) else None
  }

  lemma {:induction false} QuotedRoundTrip(s: string, rest: string)
    requires rest == [] || rest[0] != '"'
    ensures ParseQuoted(DoubleQuotes(s) + "\"" + rest) == Some((s, rest))
    decreases |s|
  {
    if s == [] {
      QuotedEnd(rest);
    } else {
      QuotedRoundTrip(s[1..], rest);
      QuotedCons(s, rest);
    }
  }

  /** The closing quote ends the cell. */
  lemma QuotedEnd(rest: string)
    requires rest == [] || rest[0] != '"'
    ensures ParseQuoted(DoubleQuotes([]) + "\"" + rest) == Some(([], rest))
  {
    var t := "\"" + rest;
    assert DoubleQuotes([]) + "\"" + rest == t;
    assert t[1..] == rest;
  }

  lemma QuotedCons(s: string, rest: string)
    requires s != []
    requires ParseQuoted(DoubleQuotes(s[1..]) + "\"" + rest) == Some((s[1..], rest))
    ensures ParseQuoted(DoubleQuotes(s) + "\"" + rest) == Some((s, rest))
  {
    var head := if s[0] == '"' then "\"\"" else [s[0]];
    var tail := DoubleQuotes(s[1..]) + "\"" + rest;
    assert DoubleQuotes(s) == head + DoubleQuotes(s[1..]);
    QuotedStep(s[0], head, tail, s[1..], rest);
    assert DoubleQuotes(s) + "\"" + rest == head + tail;
    assert s == [s[0]] + s[1..];
  }

  /** One step of `ParseQuoted`: a plain character or a doubled quote, then the rest. */
  lemma QuotedStep(c: char, head: string, tail: string, v: string, rest: string)
    requires head == (if c == '"' then "\"\"" else [c])
    requires ParseQuoted(tail) == Some((v, rest))
    ensures ParseQuoted(head + tail) == Some(([c] + v, rest))
  {
    var t := head + tail;
    if c == '"' {
      assert t[0] == '"' && t[1] == '"' && t[2..] == tail;
    } else {
      assert t[0] == c && t[1..] == tail;
    }
  }

  /** Reading an escaped cell gives back the value, `""` for a missing one, and leaves what follows. */
  lemma CellRoundTrip(value: Option<string>, rest: string)
    requires rest == [] || rest[0] != '"'
    ensures ParseCell(EscapeCsv(value) + rest) == Some((value.GetOr(""), rest))
  {
    var t := EscapeCsv(value) + rest;
    assert t[1..] == DoubleQuotes(value.GetOr("")) + "\"" + rest;
    QuotedRoundTrip(value.GetOr(""), rest);
  }

  /** `row.map(escapeCsv).join(',')`. */
  function EncodeLine(cells: seq<string>): string {
    if cells == [] then ""
    else if |cells| == 1 then EscapeCsv(Some(cells[0]))
    else EscapeCsv(Some(cells[0])) + "," + EncodeLine(cells[1..])
  }

  /** Reads one line of quoted cells separated by ",", stopping before anything else. */
  function ParseLine(t: string): (r: Option<(seq<string>, string)>)
    ensures r.Some? ==> |r.value.1| < |t| && r.value.0 != []
    decreases |t|
  {
    match ParseCell(t)
    case None => None
    case Some((cell, rest)) =>
      if rest != [] && rest[0] == ',' then
        match ParseLine(rest[1..])
        case None => None
        case Some((cells, rest')) => Some(([cell] + cells, rest'))
      else Some(([cell], rest))
  }

  lemma {:induction false} LineRoundTrip(cells: seq<string>, rest: string)
    requires cells != []
    requires rest == [] || rest[0] == '\n'
    ensures ParseLine(EncodeLine(cells) + rest) == Some((cells, rest))
    decreases |cells|
  {
    if |cells| == 1 {
      LineSingle(cells, rest);
    } else {
      LineRoundTrip(cells[1..], rest);
      LineCons(cells, rest);
    }
  }

  lemma LineSingle(cells: seq<string>, rest: string)
    requires |cells| == 1
    requires rest == [] || rest[0] == '\n'
    ensures ParseLine(EncodeLine(cells) + rest) == Some((cells, rest))
  {
    CellRoundTrip(Some(cells[0]), rest);
    assert cells == [cells[0]];
  }

  lemma LineCons(cells: seq<string>, rest: string)
    requires |cells| >= 2
    requires ParseLine(EncodeLine(cells[1..]) + rest) == Some((cells[1..], rest))
    ensures ParseLine(EncodeLine(cells) + rest) == Some((cells, rest))
  {
    LineStep(cells[0], EncodeLine(cells[1..]) + rest, cells[1..], rest);
    assert EncodeLine(cells) + rest == EscapeCsv(Some(cells[0])) + "," + (EncodeLine(cells[1..]) + rest);
    assert cells == [cells[0]] + cells[1..];
  }

  /** One more cell in front of a line, followed by ",", is read as the line's first cell. */
  lemma LineStep(cell: string, tail: string, cells: seq<string>, rest: string)
    requires ParseLine(tail) == Some((cells, rest))
    ensures ParseLine(EscapeCsv(Some(cell)) + "," + tail) == Some(([cell] + cells, rest))
  {
    var after := "," + tail;
    CellRoundTrip(Some(cell), after);
    assert EscapeCsv(Some(cell)) + "," + tail == EscapeCsv(Some(cell)) + after;
    assert after[1..] == tail;
  }

  /** `lines.join('\n')`. */
  function EncodeTable(rows: seq<seq<string>>): string {
    if rows == [] then ""
    else if |rows| == 1 then EncodeLine(rows[0])
    else EncodeLine(rows[0]) + "\n" + EncodeTable(rows[1..])
  }

  /** Reads lines separated by "\n" up to the end of the text. */
  function ParseTable(t: string): (r: Option<seq<seq<string>>>)
    decreases |t|
  {
    match ParseLine(t)
    case None => None
    case Some((line, rest)) =>
      if rest == [] then Some([line])
      else if rest[0] == '\n' then
        match ParseTable(rest[1..])
        case None => None
        case Some(lines) => Some([line] + lines)
      else None
  }

  /** A table whose every line has a cell reads back as itself: no cell text can break the line or cell structure. */
  lemma {:induction false} TableRoundTrip(rows: seq<seq<string>>)
    requires rows != []
    requires forall i :: 0 <= i < |rows| ==> rows[i] != []
    ensures ParseTable(EncodeTable(rows)) == Some(rows)
    decreases |rows|
  {
    if |rows| == 1 {
      LineRoundTrip(rows[0], []);
      assert EncodeLine(rows[0]) + [] == EncodeLine(rows[0]);
      assert rows == [rows[0]];
    } else {
      var tail := EncodeTable(rows[1..]);
      TableRoundTrip(rows[1..]);
      TableStep(rows[0], tail, rows[1..]);
      assert rows == [rows[0]] + rows[1..];
    }
  }

  lemma TableStep(line: seq<string>, tail: string, lines: seq<seq<string>>)
    requires line != []
    requires ParseTable(tail) == Some(lines)
    ensures ParseTable(EncodeLine(line) + "\n" + tail) == Some([line] + lines)
  {
    var rest := "\n" + tail;
    LineRoundTrip(line, rest);
    assert EncodeLine(line) + "\n" + tail == EncodeLine(line) + rest;
    assert rest[1..] == tail;
  }
}

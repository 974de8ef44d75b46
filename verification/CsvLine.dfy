/**
 parseCsvLine of app/electron/ownedProcesses.ts, and the rendering of fields by rules 5 to 7 in
 section 2 of RFC 4180 that it undoes.
 */
module CsvLine {

  const QUOTE := '"'
  const COMMA := ','

  /** The fields still to come when `rest` is left of the line and `current` has been read of a field. */
  function Scan(rest: string, current: string, inQuotes: bool): seq<string> {
    if rest == "" then [current]
    else if rest[0] == QUOTE then
      if inQuotes && |rest| > 1 && rest[1] == QUOTE then Scan(rest[2..], current + [QUOTE], true)
      else Scan(rest[1..], current, !inQuotes)
    else if rest[0] == COMMA && !inQuotes then [current] + Scan(rest[1..], "", false)
    else Scan(rest[1..], current + [rest[0]], inQuotes)
  }

  /** parseCsvLine. */
  method ParseCsvLine(line: string) returns (columns: seq<string>)
    ensures columns == Scan(line, "", false)
  {
    columns := [];
    var current := "";
    var inQuotes := false;
    var i := 0;
    while i < |line|
      invariant 0 <= i <= |line|
      invariant columns + Scan(line[i..], current, inQuotes) == Scan(line, "", false)
    {
      var ch := line[i];
      assert line[i + 1..] == line[i..][1..];
      if ch == QUOTE {
        if inQuotes && i + 1 < |line| && line[i + 1] == QUOTE {
          assert line[i + 2..] == line[i..][2..];
          current := current + [QUOTE];
          i := i + 2;
        } else {
          inQuotes := !inQuotes;
          i := i + 1;
        }
        continue;
      }
      i := i + 1;
      if ch == COMMA && !inQuotes {
        columns := columns + [current];
        current := "";
        continue;
      }
      current := current + [ch];
    }
    columns := columns + [current];
  }

  // ----- Rendering --------------------------------------------------------------------------

  /** A field and whether it is written between quotes. */
  datatype Field = Field(text: string, quoted: bool)

  /** Rules 5 and 6: a field written bare has neither quote nor comma. */
  predicate Renderable(f: Field) {
    f.quoted || (QUOTE !in f.text && COMMA !in f.text)
  }

  /** Rule 7: a quote inside a quoted field is doubled. */
  function Escape(s: string): string {
    if s == "" then "" else (if s[0] == QUOTE then [QUOTE, QUOTE] else [s[0]]) + Escape(s[1..])
  }

  function RenderField(f: Field): string {
    if f.quoted then [QUOTE] + Escape(f.text) + [QUOTE] else f.text
  }

  function Render(fs: seq<Field>): string
    requires fs != []
  {
    if |fs| == 1 then RenderField(fs[0]) else RenderField(fs[0]) + ([COMMA] + Render(fs[1..]))
  }

  function Texts(fs: seq<Field>): seq<string> {
    seq(|fs|, i requires 0 <= i < |fs| => fs[i].text)
  }

  // ----- Round trips ------------------------------------------------------------------------

  lemma {:induction false} ScanBare(s: string, rest: string, current: string)
    requires QUOTE !in s && COMMA !in s
    ensures Scan(s + rest, current, false) == Scan(rest, current + s, false)
  {
    if s == "" {
      assert s + rest == rest && current + s == current;
    } else {
      assert (s + rest)[1..] == s[1..] + rest;
      ScanBare(s[1..], rest, current + [s[0]]);
      assert current + [s[0]] + s[1..] == current + s;
    }
  }

  lemma {:induction false} ScanEscaped(s: string, rest: string, current: string)
    requires rest == "" || rest[0] != QUOTE
    ensures Scan(Escape(s) + ([QUOTE] + rest), current, true) == Scan(rest, current + s, false)
    decreases |s|
  {
    var line := Escape(s) + ([QUOTE] + rest);
    if s == "" {
      assert line == [QUOTE] + rest && line[1..] == rest && current + s == current;
    } else {
      ScanEscaped(s[1..], rest, current + [s[0]]);
      var tail := Escape(s[1..]) + ([QUOTE] + rest);
      assert current + [s[0]] + s[1..] == current + s;
      if s[0] == QUOTE {
        assert line == [QUOTE, QUOTE] + tail;
      } else {
        assert line == [s[0]] + tail;
      }
    }
  }

  lemma ScanField(f: Field, rest: string)
    requires Renderable(f) && (rest == "" || rest[0] == COMMA)
    ensures Scan(RenderField(f) + rest, "", false) == Scan(rest, f.text, false)
  {
    if f.quoted {
      var line := RenderField(f) + rest;
      assert line[1..] == Escape(f.text) + ([QUOTE] + rest);
      ScanEscaped(f.text, rest, "");
      assert "" + f.text == f.text;
    } else {
      ScanBare(f.text, rest, "");
      assert "" + f.text == f.text;
    }
  }

  /** Every non-empty list of fields, each written either way it may be, is read back exactly. */
  lemma {:induction false} RenderThenParse(fs: seq<Field>)
    requires fs != [] && forall f :: f in fs ==> Renderable(f)
    ensures Scan(Render(fs), "", false) == Texts(fs)
  {
    if |fs| == 1 {
      assert RenderField(fs[0]) + "" == RenderField(fs[0]);
      ScanField(fs[0], "");
    } else {
      var tail := [COMMA] + Render(fs[1..]);
      ScanField(fs[0], tail);
      assert tail[1..] == Render(fs[1..]);
      RenderThenParse(fs[1..]);
      assert Texts(fs) == [fs[0].text] + Texts(fs[1..]);
    }
  }

  function Quoted(columns: seq<string>): seq<Field> {
    seq(|columns|, i requires 0 <= i < |columns| => Field(columns[i], true))
  }

  lemma {:induction false} ScanNonEmpty(rest: string, current: string, inQuotes: bool)
    ensures Scan(rest, current, inQuotes) != []
    decreases |rest|
  {
    if rest != "" && !(rest[0] == COMMA && !inQuotes) {
      if rest[0] == QUOTE {
        if inQuotes && |rest| > 1 && rest[1] == QUOTE { ScanNonEmpty(rest[2..], current + [QUOTE], true); }
        else { ScanNonEmpty(rest[1..], current, !inQuotes); }
      } else {
        ScanNonEmpty(rest[1..], current + [rest[0]], inQuotes);
      }
    }
  }

  /** Any line at all, well formed or not, has a quoted form with the same fields. */
  lemma ParseThenRender(line: string)
    ensures Scan(line, "", false) != []
    ensures Scan(Render(Quoted(Scan(line, "", false))), "", false) == Scan(line, "", false)
  {
    ScanNonEmpty(line, "", false);
    var columns := Scan(line, "", false);
    RenderThenParse(Quoted(columns));
    assert Texts(Quoted(columns)) == columns;
  }

  /** A line without quotes is cut at its commas and nowhere else: its bare fields give it back. */
  lemma {:induction false} QuoteFreeLine(rest: string, current: string)
    requires QUOTE !in rest && QUOTE !in current && COMMA !in current
    ensures var columns := Scan(rest, current, false);
            && columns != [] && (forall c :: c in columns ==> QUOTE !in c && COMMA !in c)
            && Render(Bare(columns)) == current + rest
  {
    var columns := Scan(rest, current, false);
    if rest == "" {
      assert columns == [current] && Bare(columns) == [Field(current, false)];
    } else if rest[0] == COMMA {
      QuoteFreeLine(rest[1..], "");
      var tail := Scan(rest[1..], "", false);
      assert Bare(columns) == [Field(current, false)] + Bare(tail);
      assert Bare(columns)[1..] == Bare(tail);
      assert current + rest == current + ([COMMA] + ("" + rest[1..]));
    } else {
      QuoteFreeLine(rest[1..], current + [rest[0]]);
      assert current + [rest[0]] + rest[1..] == current + rest;
    }
  }

  function Bare(columns: seq<string>): seq<Field> {
    seq(|columns|, i requires 0 <= i < |columns| => Field(columns[i], false))
  }
}

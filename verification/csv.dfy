/** The CSV printer of eduai-summer-2026/scripts/generate-team-time-report.js and the
    two CSV parsers, of apps/core/prisma/seed.ts and
    eduai-summer-2026/scripts/read-base-time.js (section 2 of RFC 4180). */
module Csv {
  import opened Text

  predicate NeedsQuotes(text: string) {
    exists i :: 0 <= i < |text| && text[i] in {'"', ',', '\n', '\r'}
  }

  function Doubled(text: string): string {
    if text == "" then "" else (if text[0] == '"' then "\"\"" else [text[0]]) + Doubled(text[1..])
  }

  /** `csvEscape` */
  function Escape(text: string): string {
    if NeedsQuotes(text) then "\"" + Doubled(text) + "\"" else text
  }

  /** A row of the report: the escaped fields joined by commas. */
  function Row(fields: seq<string>): string {
    if fields == [] then ""
    else if |fields| == 1 then Escape(fields[0])
    else Escape(fields[0]) + "," + Row(fields[1..])
  }

  /** What the seed's parser makes of the rest of a line: the field read so far is
      `cur`, and `inQuotes` says whether it is inside quotes. */
  function SeedFields(rest: string, cur: string, inQuotes: bool): seq<string>
    decreases |rest|
  {
    if rest == "" then [cur]
    else if inQuotes then
      if rest[0] != '"' then SeedFields(rest[1..], cur + [rest[0]], true)
      else if |rest| > 1 && rest[1] == '"' then SeedFields(rest[2..], cur + "\"", true)
      else SeedFields(rest[1..], cur, false)
    else if rest[0] == '"' then SeedFields(rest[1..], cur, true)
    else if rest[0] == ',' then [cur] + SeedFields(rest[1..], "", false)
    else SeedFields(rest[1..], cur + [rest[0]], false)
  }

  /** `parseCsvLine` of apps/core/prisma/seed.ts */
  method ParseSeedLine(line: string) returns (out: seq<string>)
    ensures out == SeedFields(line, "", false)
  {
    out := [];
    var cur, inQuotes, i := "", false, 0;
    while i < |line|
      invariant i <= |line|
      invariant out + SeedFields(line[i..], cur, inQuotes) == SeedFields(line, "", false)
    {
      var ch := line[i];
      ghost var rest := line[i..];
      assert rest[0] == ch && rest[1..] == line[i + 1..];
      if inQuotes {
        if ch == '"' {
          if i + 1 < |line| && line[i + 1] == '"' {
            assert rest[2..] == line[i + 2..];
            cur := cur + "\"";
            i := i + 1;
          } else {
            inQuotes := false;
          }
        } else {
          cur := cur + [ch];
        }
      } else if ch == '"' {
        inQuotes := true;
      } else if ch == ',' {
        out := out + [cur];
        cur := "";
      } else {
        cur := cur + [ch];
      }
      i := i + 1;
    }
    out := out + [cur];
  }

  function TrimAll(fields: seq<string>): (r: seq<string>)
    ensures |r| == |fields| && forall i :: 0 <= i < |r| ==> r[i] == Trim(fields[i])
  {
    seq(|fields|, i requires 0 <= i < |fields| => Trim(fields[i]))
  }

  /** `parseCsvLine` of eduai-summer-2026/scripts/read-base-time.js: another order of
      tests and a toggled flag, but the seed parser's fields, trimmed. */
  method ParseBaseTimeLine(line: string) returns (values: seq<string>)
    ensures values == TrimAll(SeedFields(line, "", false))
  {
    values := [];
    var value, inQuotes, index := "", false, 0;
    while index < |line|
      invariant index <= |line|
      invariant values + SeedFields(line[index..], value, inQuotes) == SeedFields(line, "", false)
    {
      var ch := line[index];
      ghost var rest := line[index..];
      assert rest[0] == ch && rest[1..] == line[index + 1..];
      if ch == '"' && inQuotes && index + 1 < |line| && line[index + 1] == '"' {
        assert rest[2..] == line[index + 2..];
        value := value + "\"";
        index := index + 2;
        continue;
      }
      if ch == '"' {
        inQuotes := !inQuotes;
        index := index + 1;
        continue;
      }
      if ch == ',' && !inQuotes {
        values := values + [value];
        value := "";
        index := index + 1;
        continue;
      }
      value := value + [ch];
      index := index + 1;
    }
    values := values + [value];
    values := TrimAll(values);
  }

  lemma {:induction false} ReadsPlain(text: string, rest: string, cur: string)
    requires !NeedsQuotes(text)
    ensures SeedFields(text + rest, cur, false) == SeedFields(rest, cur + text, false)
    decreases |text|
  {
    if text == "" { assert text + rest == rest && cur + text == cur; }
    else {
      assert text[0] !in {'"', ',', '\n', '\r'};
      assert (text + rest)[1..] == text[1..] + rest;
      assert forall i :: 0 <= i < |text| - 1 ==> text[1..][i] == text[i + 1];
      ReadsPlain(text[1..], rest, cur + [text[0]]);
      assert cur + [text[0]] + text[1..] == cur + text;
    }
  }

  lemma {:induction false} ReadsQuoted(text: string, rest: string, cur: string)
    requires rest == "" || rest[0] == ','
    ensures SeedFields(Doubled(text) + "\"" + rest, cur, true) == SeedFields(rest, cur + text, false)
    decreases |text|
  {
    var line := Doubled(text) + "\"" + rest;
    if text == "" {
      assert line == "\"" + rest && line[1..] == rest && cur + text == cur;
    } else {
      var after := Doubled(text[1..]) + "\"" + rest;
      var k := if text[0] == '"' then 2 else 1;
      assert line[k..] == after;
      ReadsQuoted(text[1..], rest, cur + [text[0]]);
      assert cur + [text[0]] + text[1..] == cur + text;
      assert "\"" == ['"'];
    }
  }

  lemma OpensQuotes(rest: string)
    ensures SeedFields("\"" + rest, "", false) == SeedFields(rest, "", true)
  {
    assert ("\"" + rest)[1..] == rest;
  }

  lemma ReadsField(text: string, rest: string)
    requires rest == "" || rest[0] == ','
    ensures SeedFields(Escape(text) + rest, "", false) == SeedFields(rest, text, false)
  {
    hide SeedFields, Doubled;
    assert "" + text == text;
    if NeedsQuotes(text) {
      assert Escape(text) + rest == "\"" + (Doubled(text) + "\"" + rest);
      OpensQuotes(Doubled(text) + "\"" + rest);
      ReadsQuoted(text, rest, "");
    } else {
      ReadsPlain(text, rest, "");
    }
  }

  /** A field is printed as it stands when it has no comma, no quote and no line break, and
      between quotes when it has one. */
  lemma QuotedExactly(text: string)
    ensures if ',' in text || '"' in text || '\n' in text || '\r' in text
            then |Escape(text)| >= |text| + 2 && Escape(text)[0] == '"' == Escape(text)[|Escape(text)| - 1]
            else Escape(text) == text
  {
    DoubledLength(text);
    hide Doubled;
    assert NeedsQuotes(text) <==> ',' in text || '"' in text || '\n' in text || '\r' in text;
  }

  lemma {:induction false} DoubledLength(text: string)
    ensures |Doubled(text)| >= |text|
  {
    if text != "" { DoubledLength(text[1..]); }
  }

  /** Reading back a printed row gives the fields: commas, quotes and line breaks
      inside them included. */
  lemma {:induction false} RowRoundTrip(fields: seq<string>)
    requires fields != []
    ensures SeedFields(Row(fields), "", false) == fields
    decreases |fields|
  {
    if |fields| == 1 {
      assert Escape(fields[0]) + "" == Escape(fields[0]);
      ReadsField(fields[0], "");
    } else {
      var rest := "," + Row(fields[1..]);
      assert Row(fields) == Escape(fields[0]) + rest && rest[1..] == Row(fields[1..]);
      ReadsField(fields[0], rest);
      RowRoundTrip(fields[1..]);
    }
  }

  /** A line without quotes is cut at its commas. */
  lemma {:induction false} UnquotedIsSplit(line: string, cur: string)
    requires '"' !in line
    ensures SeedFields(line, cur, false) == [cur + Split(line, ',')[0]] + Split(line, ',')[1..]
    decreases |line|
  {
    if line == "" {
      assert cur + "" == cur;
    } else {
      var rest := line[1..];
      assert line[0] in line && forall i :: 0 <= i < |rest| ==> rest[i] == line[i + 1];
      if line[0] == ',' {
        UnquotedIsSplit(rest, "");
        assert "" + Split(rest, ',')[0] == Split(rest, ',')[0];
        assert SeedFields(rest, "", false) == Split(rest, ',');
        assert Split(line, ',')[0] == "" && Split(line, ',')[1..] == Split(rest, ',') && cur + "" == cur;
      } else {
        UnquotedIsSplit(rest, cur + [line[0]]);
        assert cur + [line[0]] + Split(rest, ',')[0] == cur + ([line[0]] + Split(rest, ',')[0]);
      }
    }
  }

  /** A quoted field that is never closed runs to the end of the line. */
  lemma UnclosedRuns(text: string)
    ensures SeedFields("\"" + Doubled(text), "", false) == [text]
  {
    OpensQuotes(Doubled(text));
    ReadsUnclosed(text, "");
    assert "" + text == text;
  }

  lemma {:induction false} ReadsUnclosed(text: string, cur: string)
    ensures SeedFields(Doubled(text), cur, true) == [cur + text]
    decreases |text|
  {
    if text == "" {
      assert cur + text == cur;
    } else {
      var (line, k) := (Doubled(text), if text[0] == '"' then 2 else 1);
      assert line[k..] == Doubled(text[1..]);
      ReadsUnclosed(text[1..], cur + [text[0]]);
      assert cur + [text[0]] + text[1..] == cur + text;
      assert "\"" == ['"'];
    }
  }

  /** So distinct rows print differently. */
  lemma RowInjective(a: seq<string>, b: seq<string>)
    requires a != [] && b != [] && Row(a) == Row(b)
    ensures a == b
  {
    RowRoundTrip(a);
    RowRoundTrip(b);
  }
}

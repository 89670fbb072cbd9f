/** The tabular parser of app.js: `splitCSVLine` (app.js:34-44), `parseCSV`
    (app.js:26-32) and the text the export button writes (app.js:220-221). */
module Csv {
  import opened Text

  /** State of the character loop of `splitCSVLine`: the fields pushed so
      far (`res`), the field being built (`cur`) and the quote flag. */
  datatype Scan = Scan(fields: seq<string>, cur: string, inQuotes: bool)

  const Start := Scan([], "", false)

  /** One iteration of the loop body for character ch. */
  function Step(st: Scan, ch: char): Scan {
    if ch == '"' then st.(inQuotes := !st.inQuotes)
    else if ch == ',' && !st.inQuotes then Scan(st.fields + [Trim(st.cur)], "", st.inQuotes)
    else st.(cur := st.cur + [ch])
  }

  /** The loop run over the characters of s, from state st. */
  function ScanFrom(st: Scan, s: string): Scan
    decreases |s|
  {
    if s == [] then st else ScanFrom(Step(st, s[0]), s[1..])
  }

  /** What `splitCSVLine(line)` returns: the fields pushed by the loop and
      then the trimmed last field. */
  function SplitFields(line: string): (r: seq<string>)
    ensures |r| >= 1
  {
    var st := ScanFrom(Start, line);
    st.fields + [Trim(st.cur)]
  }

  /** `splitCSVLine`: a quote toggles the quote flag and is dropped, a comma
      outside quotes ends a field, every other character is kept; each field
      is trimmed. */
  method SplitCSVLine(line: string) returns (res: seq<string>)
    ensures res == SplitFields(line)
  {
    res := [];
    var cur := "";
    var inQuotes := false;
    for i := 0 to |line|
      invariant ScanFrom(Scan(res, cur, inQuotes), line[i..]) == ScanFrom(Start, line)
    {
      var ch := line[i];
      assert line[i..][1..] == line[i + 1..];
      if ch == '"' {
        inQuotes := !inQuotes;
        continue;
      }
      if ch == ',' && !inQuotes {
        res := res + [Trim(cur)];
        cur := "";
      } else {
        cur := cur + [ch];
      }
    }
    res := res + [Trim(cur)];
  }

  /** Running the loop over s + t is running it over s and then over t. */
  lemma {:induction false} ScanAppend(st: Scan, s: string, t: string)
    ensures ScanFrom(st, s + t) == ScanFrom(ScanFrom(st, s), t)
    decreases |s|
  {
    if s == [] {
      assert s + t == t;
    } else {
      assert (s + t)[0] == s[0] && (s + t)[1..] == s[1..] + t;
      ScanAppend(Step(st, s[0]), s[1..], t);
    }
  }

  /** Characters that are neither a quote nor a field-ending comma are just
      appended to the current field. */
  lemma {:induction false} ScanPlain(st: Scan, s: string)
    requires '"' !in s
    requires !st.inQuotes ==> ',' !in s
    ensures ScanFrom(st, s) == st.(cur := st.cur + s)
    decreases |s|
  {
    if s != [] {
      assert s == [s[0]] + s[1..];
      ScanPlain(Step(st, s[0]), s[1..]);
      assert st.cur + [s[0]] + s[1..] == st.cur + s;
    }
  }

  /** The number of quotes in s. */
  function Quotes(s: string): nat {
    multiset(s)['"']
  }

  /** The number of commas of s that stand outside quotes, that is, that are
      preceded by an even number of quote characters. */
  function OutsideCommas(s: string): nat {
    if s == [] then 0
    else
      var init := s[..|s| - 1];
      OutsideCommas(init) + if s[|s| - 1] == ',' && Quotes(init) % 2 == 0 then 1 else 0
  }

  /** After the loop over s, the quote flag says whether s holds an odd
      number of quotes, and one field has been pushed per comma outside
      quotes. */
  lemma {:induction false} ScanCounts(s: string)
    ensures ScanFrom(Start, s).inQuotes <==> Quotes(s) % 2 == 1
    ensures |ScanFrom(Start, s).fields| == OutsideCommas(s)
  {
    if s != [] {
      var init, last := s[..|s| - 1], s[|s| - 1];
      ScanCounts(init);
      assert s == init + [last];
      ScanAppend(Start, init, [last]);
      assert ScanFrom(ScanFrom(Start, init), [last]) == Step(ScanFrom(Start, init), last);
      assert multiset(s) == multiset(init) + multiset{last};
    }
  }

  /** A split line has one field more than it has commas outside quotes,
      whether or not its quotes are balanced. */
  lemma FieldCount(line: string)
    ensures |SplitFields(line)| == 1 + OutsideCommas(line)
  {
    ScanCounts(line);
  }

  /** The loop never produces a quote character and pushes only trimmed
      fields. */
  lemma {:induction false} ScanClean(st: Scan, s: string)
    requires forall k :: 0 <= k < |st.fields| ==> '"' !in st.fields[k] && IsTrimmed(st.fields[k])
    requires '"' !in st.cur
    ensures var r := ScanFrom(st, s);
      (forall k :: 0 <= k < |r.fields| ==> '"' !in r.fields[k] && IsTrimmed(r.fields[k])) && '"' !in r.cur
    decreases |s|
  {
    if s != [] {
      var next := Step(st, s[0]);
      var t := Trim(st.cur);
      assert '"' !in t by {
        assert multiset(t)['"'] <= multiset(st.cur)['"'];
      }
      assert next.fields == st.fields || next.fields == st.fields + [t];
      assert next.cur == st.cur || next.cur == "" || (s[0] != '"' && next.cur == st.cur + [s[0]]);
      ScanClean(next, s[1..]);
    }
  }

  /** No field of a split line contains a quote, and every field is trimmed. */
  lemma SplitFieldsClean(line: string)
    ensures forall f :: f in SplitFields(line) ==> '"' !in f && IsTrimmed(f)
  {
    ScanClean(Start, line);
    var st := ScanFrom(Start, line);
    assert '"' !in Trim(st.cur) by {
      assert multiset(Trim(st.cur))['"'] <= multiset(st.cur)['"'];
    }
  }

  /** A field that survives a write and a re-read unchanged: no comma, no
      quote, no line break, and no white space at either end. */
  predicate PlainCell(f: string) {
    ',' !in f && '"' !in f && '\n' !in f && '\r' !in f && IsTrimmed(f)
  }

  /** Scanning plain fields joined by commas, from a state outside quotes
      with an empty current field, pushes all of them but the last. */
  lemma {:induction false} ScanJoined(st: Scan, fs: seq<string>)
    requires |fs| >= 1 && !st.inQuotes && st.cur == ""
    requires forall k :: 0 <= k < |fs| ==> PlainCell(fs[k])
    ensures ScanFrom(st, Join(fs, ",")) == Scan(st.fields + fs[..|fs| - 1], fs[|fs| - 1], false)
    decreases |fs|
  {
    if |fs| == 1 {
      ScanPlain(st, fs[0]);
      assert st.cur + fs[0] == fs[0];
    } else {
      JoinCons(fs, ",");
      ScanField(st, fs[0], Join(fs[1..], ","));
      ScanJoined(Scan(st.fields + [fs[0]], "", false), fs[1..]);
      PrefixShift(st.fields, fs);
    }
  }

  /** Joining the first piece, the separator, and the rest joined. */
  lemma JoinCons(fs: seq<string>, sep: string)
    requires |fs| >= 2
    ensures Join(fs, sep) == fs[0] + (sep + Join(fs[1..], sep))
  {
  }

  /** A plain field and the comma after it: the field is pushed as it is. */
  lemma ScanField(st: Scan, f: string, tail: string)
    requires !st.inQuotes && st.cur == "" && PlainCell(f)
    ensures ScanFrom(st, f + ("," + tail)) == ScanFrom(Scan(st.fields + [f], "", false), tail)
  {
    ScanAppend(st, f, "," + tail);
    ScanPlain(st, f);
    assert st.cur + f == f;
    assert Trim(f) == f;
    ScanCons(st.(cur := f), ',', tail);
    assert "," + tail == [','] + tail;
  }

  /** A non-empty sequence is its prefix and its last element. */
  lemma SnocLast<T>(s: seq<T>)
    requires |s| >= 1
    ensures s[..|s| - 1] + [s[|s| - 1]] == s
  {
  }

  /** Two sequences with the same elements are equal. */
  lemma SameElements<T>(a: seq<T>, b: seq<T>)
    requires |a| == |b| && forall i :: 0 <= i < |a| ==> a[i] == b[i]
    ensures a == b
  {
  }

  lemma EmptyPrefix<T>(s: seq<T>)
    ensures [] + s == s
  {
  }

  /** Moving the first element of fs onto the prefix before it. */
  lemma PrefixShift<T>(pre: seq<T>, fs: seq<T>)
    requires |fs| >= 2
    ensures (pre + [fs[0]]) + fs[1..][..|fs| - 2] == pre + fs[..|fs| - 1]
  {
    assert fs[..|fs| - 1] == [fs[0]] + fs[1..][..|fs| - 2];
  }

  /** One character and then the rest. */
  lemma ScanCons(st: Scan, c: char, s: string)
    ensures ScanFrom(st, [c] + s) == ScanFrom(Step(st, c), s)
  {
    assert ([c] + s)[1..] == s;
  }

  /** Splitting plain fields joined by commas gives back the fields. */
  lemma SplitJoin(fs: seq<string>)
    requires |fs| >= 1
    requires forall k :: 0 <= k < |fs| ==> PlainCell(fs[k])
    ensures SplitFields(Join(fs, ",")) == fs
  {
    ScanJoined(Start, fs);
    EmptyPrefix(fs[..|fs| - 1]);
    SnocLast(fs);
    assert Trim(fs[|fs| - 1]) == fs[|fs| - 1];
  }

  /** A quoted first field keeps its commas: `"Doe, Jane",88,91` splits
      into `Doe, Jane`, `88` and `91`, and so does every line of that shape. */
  lemma QuotedFieldKeepsCommas(f: string, a: string, b: string)
    requires '"' !in f && PlainCell(a) && PlainCell(b)
    ensures SplitFields(['"'] + f + ['"'] + ("," + (a + ("," + b)))) == [Trim(f), a, b]
  {
    var line := ['"'] + f + ['"'] + ("," + (a + ("," + b)));
    var rest := "," + (a + ("," + b));
    ScanQuoted(Start, f, rest);
    assert Start.(cur := "" + f) == Scan([], f, false);
    ScanCons(Scan([], f, false), ',', a + ("," + b));
    Displays(Trim(f), a, b);
    ScanField(Scan([Trim(f)], "", false), a, b);
    ScanPlain(Scan([Trim(f), a], "", false), b);
    assert "" + b == b;
    assert ScanFrom(Start, line) == Scan([Trim(f), a], b, false);
    assert Trim(b) == b;
  }

  /** The line `"Doe, Jane",88,91` gives the fields `Doe, Jane`, `88`, `91`. */
  lemma QuotedNameExample()
    ensures SplitFields("\"Doe, Jane\",88,91") == ["Doe, Jane", "88", "91"]
  {
    var f, a, b := "Doe, Jane", "88", "91";
    assert "\"Doe, Jane\",88,91" == ['"'] + f + ['"'] + ("," + (a + ("," + b)));
    assert IsTrimmed(f) && IsTrimmed(a) && IsTrimmed(b);
    QuotedFieldKeepsCommas(f, a, b);
  }

  /** A field without quotes and the comma after it: the field is pushed
      trimmed, whatever blanks it has. */
  lemma ScanLoose(st: Scan, f: string, tail: string)
    requires !st.inQuotes && st.cur == "" && '"' !in f && ',' !in f
    ensures ScanFrom(st, f + ("," + tail)) == ScanFrom(Scan(st.fields + [Trim(f)], "", false), tail)
  {
    ScanAppend(st, f, "," + tail);
    ScanPlain(st, f);
    assert st.cur + f == f;
    ScanCons(st.(cur := f), ',', tail);
    assert "," + tail == [','] + tail;
  }

  /** Three fields without quotes or commas, joined by commas, split into
      the three fields trimmed. */
  lemma LooseFields(a: string, b: string, c: string)
    requires '"' !in a && ',' !in a && '"' !in b && ',' !in b && '"' !in c && ',' !in c
    ensures SplitFields(a + ("," + (b + ("," + c)))) == [Trim(a), Trim(b), Trim(c)]
  {
    ScanLoose(Start, a, b + ("," + c));
    ScanLoose(Scan([Trim(a)], "", false), b, c);
    ScanPlain(Scan([Trim(a), Trim(b)], "", false), c);
    assert "" + c == c;
    Displays(Trim(a), Trim(b), Trim(c));
  }

  /** Export does not quote: the cells `a, b` and `1` are written as
      `a, b,1`, which reads back as the three cells `a`, `b` and `1`. */
  lemma CommaCellExported()
    ensures Join(["a, b", "1"], ",") == "a, b,1"
    ensures SplitFields("a, b,1") == ["a", "b", "1"]
  {
    CommaCellText();
    CommaCellTrims();
    LooseFields("a", " b", "1");
  }

  lemma CommaCellText()
    ensures Join(["a, b", "1"], ",") == "a, b,1"
    ensures "a, b,1" == "a" + ("," + (" b" + ("," + "1")))
  {
    JoinCons(["a, b", "1"], ",");
    assert ["a, b", "1"][1..] == ["1"];
  }

  lemma CommaCellTrims()
    ensures Trim("a") == "a" && Trim(" b") == "b" && Trim("1") == "1"
  {
    assert IsTrimmed("a") && IsTrimmed("b") && IsTrimmed("1");
    assert " b"[1..] == "b";
  }

  /** Small facts about sequence displays. */
  lemma Displays<T>(x: T, y: T, z: T)
    ensures [] + [x] == [x] && [x] + [y] == [x, y] && [x, y] + [z] == [x, y, z]
  {
  }

  /** A quoted section is copied into the current field as it is, commas
      included, and the quote flag is off again after it. */
  lemma ScanQuoted(st: Scan, f: string, rest: string)
    requires !st.inQuotes && '"' !in f
    ensures ScanFrom(st, ['"'] + f + ['"'] + rest) == ScanFrom(st.(cur := st.cur + f), rest)
  {
    assert ['"'] + f + ['"'] + rest == ['"'] + (f + (['"'] + rest));
    ScanCons(st, '"', f + (['"'] + rest));
    ScanAppend(st.(inQuotes := true), f, ['"'] + rest);
    ScanPlain(st.(inQuotes := true), f);
    ScanCons(st.(inQuotes := true, cur := st.cur + f), '"', rest);
  }

  // ---- Lines ----

  /** Drops one carriage return at the end of s. */
  function DropCR(s: string): string {
    if |s| > 0 && s[|s| - 1] == '\r' then s[..|s| - 1] else s
  }

  /** Index of the first line feed of s, or |s|. */
  function LineEnd(s: string): (k: nat)
    ensures k <= |s|
    ensures k < |s| ==> s[k] == '\n'
    ensures forall j :: 0 <= j < k ==> s[j] != '\n'
  {
    if s == [] then 0 else if s[0] == '\n' then 0 else 1 + LineEnd(s[1..])
  }

  /** `split(/\r?\n/)`: the pieces between line feeds, each piece that a
      line feed ends losing one carriage return before it. */
  function SplitLines(t: string): (r: seq<string>)
    ensures |r| >= 1
    ensures forall k :: 0 <= k < |r| ==> '\n' !in r[k]
    decreases |t|
  {
    var k := LineEnd(t);
    if k == |t| then [t] else [DropCR(t[..k])] + SplitLines(t[k + 1..])
  }

  /** `filter(Boolean)` on strings: drops the empty ones and keeps the
      others in order. */
  function NonEmpty(ls: seq<string>): (r: seq<string>)
    ensures forall k :: 0 <= k < |r| ==> r[k] != "" && r[k] in ls
    ensures (forall k :: 0 <= k < |ls| ==> ls[k] != "") ==> r == ls
  {
    if ls == [] then []
    else if ls[0] == "" then NonEmpty(ls[1..])
    else [ls[0]] + NonEmpty(ls[1..])
  }

  /** filter(Boolean) keeps a single line exactly when it is not empty. */
  lemma NonEmptyOne(x: string)
    ensures NonEmpty([x]) == if x == "" then [] else [x]
  {
    assert [x][1..] == [];
  }

  /** filter(Boolean) works line by line: the kept lines of a + b are those
      of a followed by those of b. */
  lemma {:induction false} NonEmptyAppend(a: seq<string>, b: seq<string>)
    ensures NonEmpty(a + b) == NonEmpty(a) + NonEmpty(b)
  {
    if a == [] {
      assert a + b == b;
    } else {
      assert (a + b)[0] == a[0] && (a + b)[1..] == a[1..] + b;
      NonEmptyAppend(a[1..], b);
    }
  }

  /** The lines `parseCSV` works on: the text trimmed, split at line breaks,
      empty lines dropped. A line of only blanks is not empty and stays. */
  function Lines(text: string): (r: seq<string>)
    ensures forall k :: 0 <= k < |r| ==> r[k] != "" && '\n' !in r[k]
  {
    var ls := SplitLines(Trim(text));
    assert forall k :: 0 <= k < |NonEmpty(ls)| ==> NonEmpty(ls)[k] in ls;
    NonEmpty(ls)
  }

  /** What `parseCSV` returns. */
  datatype Table = Table(headers: seq<string>, rows: seq<seq<string>>)

  /** `lines.map(l => splitCSVLine(l))`. */
  function SplitAll(lines: seq<string>): (r: seq<seq<string>>)
    ensures |r| == |lines|
    ensures forall i :: 0 <= i < |r| ==> r[i] == SplitFields(lines[i])
  {
    if lines == [] then [] else [SplitFields(lines[0])] + SplitAll(lines[1..])
  }

  /** `parseCSV`: fewer than two non-empty lines give the empty table, which
      callers read as a rejection; otherwise the first line is the header and
      each remaining line, in order, is a row. */
  function ParseCSV(text: string): (t: Table)
    ensures |Lines(text)| < 2 <==> |t.headers| == 0
    ensures |Lines(text)| < 2 ==> |t.rows| == 0
    ensures |Lines(text)| >= 2 ==>
      t.headers == SplitFields(Lines(text)[0]) &&
      |t.rows| == |Lines(text)| - 1 &&
      forall i :: 0 <= i < |t.rows| ==> t.rows[i] == SplitFields(Lines(text)[i + 1])
  {
    var lines := Lines(text);
    if |lines| < 2 then Table([], [])
    else Table(SplitFields(lines[0]), SplitAll(lines[1..]))
  }

  /** Every cell ParseCSV produces is trimmed and holds no quote and no line
      feed. */
  lemma ParsedCellsClean(text: string)
    ensures var t := ParseCSV(text);
      (forall f :: f in t.headers ==> '"' !in f && '\n' !in f && IsTrimmed(f)) &&
      (forall r, f :: r in t.rows && f in r ==> '"' !in f && '\n' !in f && IsTrimmed(f))
  {
    var lines := Lines(text);
    if |lines| >= 2 {
      forall i | 0 <= i < |lines|
        ensures forall f :: f in SplitFields(lines[i]) ==> '"' !in f && '\n' !in f && IsTrimmed(f)
      {
        SplitFieldsClean(lines[i]);
        SplitNoLineFeed(lines[i]);
      }
    }
  }

  /** A line without line feeds splits into fields without line feeds. */
  lemma SplitNoLineFeed(line: string)
    requires '\n' !in line
    ensures forall f :: f in SplitFields(line) ==> '\n' !in f
  {
    ScanNoChar(Start, line, '\n');
    var st := ScanFrom(Start, line);
    assert '\n' !in Trim(st.cur) by {
      assert multiset(Trim(st.cur))['\n'] <= multiset(st.cur)['\n'];
    }
  }

  /** A character that is not in the input is not in any field. */
  lemma {:induction false} ScanNoChar(st: Scan, s: string, c: char)
    requires c !in s && c != '"'
    requires forall k :: 0 <= k < |st.fields| ==> c !in st.fields[k]
    requires c !in st.cur
    ensures var r := ScanFrom(st, s);
      (forall k :: 0 <= k < |r.fields| ==> c !in r.fields[k]) && c !in r.cur
    decreases |s|
  {
    if s != [] {
      assert c !in Trim(st.cur) by {
        assert multiset(Trim(st.cur))[c] <= multiset(st.cur)[c];
      }
      ScanNoChar(Step(st, s[0]), s[1..], c);
    }
  }

  // ---- Export ----

  /** The rows joined by commas, one string per row. */
  function RowLines(rows: seq<seq<string>>): (r: seq<string>)
    ensures |r| == |rows|
  {
    seq(|rows|, i requires 0 <= i < |rows| => Join(rows[i], ","))
  }

  /** The text the export button writes: the header joined by commas, a line
      feed, then the rows joined by commas and separated by line feeds. */
  function Serialize(t: Table): string {
    Join(t.headers, ",") + "\n" + Join(RowLines(t.rows), "\n")
  }

  /** A table that the exporter writes in a form the parser reads back: at
      least one row, every cell plain, and no line that comes out empty. */
  predicate Exportable(t: Table) {
    |t.rows| >= 1 &&
    Join(t.headers, ",") != "" &&
    (forall k :: 0 <= k < |t.headers| ==> PlainCell(t.headers[k])) &&
    forall i :: 0 <= i < |t.rows| ==>
      Join(t.rows[i], ",") != "" && forall k :: 0 <= k < |t.rows[i]| ==> PlainCell(t.rows[i][k])
  }

  /** A non-empty line of plain cells joined by commas is trimmed, has no
      line break, and splits back into its cells. */
  lemma JoinedLine(fs: seq<string>)
    requires Join(fs, ",") != ""
    requires forall k :: 0 <= k < |fs| ==> PlainCell(fs[k])
    ensures IsTrimmed(Join(fs, ",")) && '\n' !in Join(fs, ",") && '\r' !in Join(fs, ",")
    ensures SplitFields(Join(fs, ",")) == fs
  {
    assert |fs| >= 1;
    JoinTrimmed(fs, ",");
    JoinChars(fs, ",", '\n');
    JoinChars(fs, ",", '\r');
    SplitJoin(fs);
  }

  /** Splitting lines without line breaks joined by line feeds gives back
      the lines. */
  lemma {:induction false} SplitJoinLines(ls: seq<string>)
    requires |ls| >= 1
    requires forall k :: 0 <= k < |ls| ==> '\n' !in ls[k] && '\r' !in ls[k]
    ensures SplitLines(Join(ls, "\n")) == ls
  {
    if |ls| == 1 {
      assert LineEnd(ls[0]) == |ls[0]|;
    } else {
      JoinCons(ls, "\n");
      SplitFirstLine(ls[0], Join(ls[1..], "\n"));
      SplitJoinLines(ls[1..]);
      ConsFirst(ls);
    }
  }

  /** A line without line feeds and not ending in a carriage return, a line
      feed, and the rest: the line is the first piece. */
  lemma SplitFirstLine(x: string, rest: string)
    requires '\n' !in x && (x == [] || x[|x| - 1] != '\r')
    ensures SplitLines(x + ("\n" + rest)) == [x] + SplitLines(rest)
  {
    var t := x + ("\n" + rest);
    LineEndAt(x, rest);
    assert t[..|x|] == x;
    assert t[|x| + 1..] == rest;
    assert DropCR(x) == x;
  }

  /** A carriage return inside a line is kept: only one directly before
      the line feed is dropped. */
  lemma InnerCRLine()
    ensures SplitLines("a\rb\nc") == ["a\rb", "c"]
  {
    SplitFirstLine("a\rb", "c");
    assert "a\rb" + ("\n" + "c") == "a\rb\nc";
    assert LineEnd("c") == 1;
  }

  /** The first line feed after a line without line feeds ends that line. */
  lemma LineEndAt(x: string, rest: string)
    requires '\n' !in x
    ensures LineEnd(x + ("\n" + rest)) == |x|
  {
    var t := x + ("\n" + rest);
    assert t[|x|] == '\n';
    assert forall j :: 0 <= j < |x| ==> t[j] == x[j];
  }

  /** A line without line feeds, a CR LF pair, and the rest: the line,
      without the carriage return, is the first piece. */
  lemma SplitFirstLineCRLF(x: string, rest: string)
    requires '\n' !in x
    ensures SplitLines(x + ("\r\n" + rest)) == [x] + SplitLines(rest)
  {
    var t := x + ("\r\n" + rest);
    var xr := x + "\r";
    assert t == xr + ("\n" + rest);
    assert '\n' !in xr by { assert forall j :: 0 <= j < |xr| ==> xr[j] == if j < |x| then x[j] else '\r'; }
    LineEndAt(xr, rest);
    assert t[..|xr|] == xr && t[|xr| + 1..] == rest;
    assert xr[|xr| - 1] == '\r' && xr[..|xr| - 1] == x;
    assert DropCR(xr) == x;
  }

  /** Lines without line feeds joined by CR LF pairs split back into the
      lines: `\r?\n` drops the carriage return of every pair. */
  lemma {:induction false} SplitJoinLinesCRLF(ls: seq<string>)
    requires |ls| >= 1
    requires forall k :: 0 <= k < |ls| ==> '\n' !in ls[k]
    ensures SplitLines(Join(ls, "\r\n")) == ls
  {
    if |ls| == 1 {
      assert LineEnd(ls[0]) == |ls[0]|;
    } else {
      JoinCons(ls, "\r\n");
      SplitFirstLineCRLF(ls[0], Join(ls[1..], "\r\n"));
      SplitJoinLinesCRLF(ls[1..]);
      ConsFirst(ls);
    }
  }

  /** A non-empty sequence is its first element and the rest. */
  lemma ConsFirst<T>(s: seq<T>)
    requires |s| >= 1
    ensures [s[0]] + s[1..] == s
  {
  }

  /** The lines of the exported text: the header line, then one line per
      row. */
  function ExportLines(t: Table): (r: seq<string>)
    ensures |r| == |t.rows| + 1
  {
    seq(|t.rows| + 1, k requires 0 <= k <= |t.rows| => if k == 0 then Join(t.headers, ",") else Join(t.rows[k - 1], ","))
  }

  /** With at least one row, the exported text is its lines joined by line
      feeds. */
  lemma SerializeLines(t: Table)
    requires |t.rows| >= 1
    ensures Serialize(t) == Join(ExportLines(t), "\n")
  {
    var ls := ExportLines(t);
    SameElements(ls[1..], RowLines(t.rows));
    JoinCons(ls, "\n");
  }

  /** A line the exporter writes that the parser reads back as it is:
      non-empty, trimmed and free of line breaks. */
  predicate PlainLine(l: string) {
    l != "" && IsTrimmed(l) && '\n' !in l && '\r' !in l
  }

  /** Every exported line of an exportable table is plain. */
  lemma ExportLinesPlain(t: Table)
    requires Exportable(t)
    ensures forall k :: 0 <= k < |ExportLines(t)| ==> PlainLine(ExportLines(t)[k])
  {
    forall k | 0 <= k < |ExportLines(t)| ensures PlainLine(ExportLines(t)[k]) {
      ExportLine(t, k);
    }
  }

  /** Exported line k is plain and splits back into the header (k = 0) or
      into row k - 1. */
  lemma ExportLine(t: Table, k: nat)
    requires Exportable(t) && k <= |t.rows|
    ensures PlainLine(ExportLines(t)[k])
    ensures SplitFields(ExportLines(t)[k]) == if k == 0 then t.headers else t.rows[k - 1]
  {
    if k == 0 {
      JoinedLine(t.headers);
    } else {
      JoinedLine(t.rows[k - 1]);
    }
  }

  /** Reading the exported text finds exactly the exported lines. */
  lemma ExportedTextLines(t: Table)
    requires Exportable(t)
    ensures Lines(Serialize(t)) == ExportLines(t)
  {
    var ls := ExportLines(t);
    SerializeLines(t);
    ExportLinesPlain(t);
    assert forall k :: 0 <= k < |ls| ==> ls[k] != [] && IsTrimmed(ls[k]);
    JoinTrimmedPieces(ls, "\n");
    assert forall k :: 0 <= k < |ls| ==> '\n' !in ls[k] && '\r' !in ls[k];
    SplitJoinLines(ls);
  }

  /** Exporting a table and parsing the text gives back the same table, when
      every cell is plain and no line comes out empty. These conditions are
      sufficient, not necessary: a cell holding a comma is read back as two
      cells (CommaCellExported), but some tables outside them, such as one
      with no header and no rows, come back unchanged as well
      (EmptyTableExported). */
  lemma ExportRoundTrip(t: Table)
    requires Exportable(t)
    ensures ParseCSV(Serialize(t)) == t
  {
    ExportedTextLines(t);
    ParseOfLines(Serialize(t), ExportLines(t));
    ExportLine(t, 0);
    RowsReadBack(t);
  }

  /** The table with no header and no rows is not exportable, yet it is
      read back from its export: the text is a lone line feed, which has no
      non-empty line. */
  lemma EmptyTableExported()
    ensures !Exportable(Table([], []))
    ensures Serialize(Table([], [])) == "\n"
    ensures ParseCSV(Serialize(Table([], []))) == Table([], [])
  {
    assert Serialize(Table([], [])) == "" + "\n" + "";
    assert Trim("\n") == Trim("");
    assert |Lines("\n")| < 2;
  }

  /** ParseCSV of a text whose lines are ls, two or more of them. */
  lemma ParseOfLines(text: string, ls: seq<string>)
    requires Lines(text) == ls && |ls| >= 2
    ensures ParseCSV(text) == Table(SplitFields(ls[0]), SplitAll(ls[1..]))
  {
  }

  /** The exported row lines split back into the rows. */
  lemma RowsReadBack(t: Table)
    requires Exportable(t)
    ensures SplitAll(ExportLines(t)[1..]) == t.rows
  {
    var ls := ExportLines(t)[1..];
    var r := SplitAll(ls);
    forall i | 0 <= i < |t.rows| ensures r[i] == t.rows[i] {
      assert ls[i] == ExportLines(t)[i + 1];
      ExportLine(t, i + 1);
    }
    SameElements(r, t.rows);
  }
}

/** The CSV export of the CARE estimator: every value is written as its string, a value
    holding a comma is wrapped in double quotes with each quote inside doubled, values are
    joined by commas and lines by newlines. Values holding a quote or a line break but no
    comma are written as they are, which is narrower than section 2 of RFC 4180. */
module CareCsv {

  /** `replaceAll('"', '""')`: every double quote doubled. */
  function DoubleQuotes(s: string): (r: string)
    ensures |r| >= |s|
  {
    if s == [] then []
    else (if s[0] == '"' then "\"\"" else [s[0]]) + DoubleQuotes(s[1..])
  }

  /** The reader's inverse of `DoubleQuotes`: each doubled quote read as one. */
  function HalveQuotes(s: string): (r: string)
    ensures |r| <= |s|
  {
    if s == [] then []
    else if |s| >= 2 && s[0] == '"' && s[1] == '"' then "\"" + HalveQuotes(s[2..])
    else [s[0]] + HalveQuotes(s[1..])
  }

  lemma {:induction false} HalveDoubled(s: string)
    ensures HalveQuotes(DoubleQuotes(s)) == s
  {
    if s != [] {
      HalveDoubled(s[1..]);
      var d := DoubleQuotes(s[1..]);
      if s[0] == '"' {
        assert DoubleQuotes(s) == "\"\"" + d;
        assert ("\"\"" + d)[2..] == d;
      } else {
        assert DoubleQuotes(s) == [s[0]] + d;
        assert ([s[0]] + d)[1..] == d;
      }
    }
  }

  /** The export's value rule: quoted, with quotes doubled, exactly when the value holds a
      comma. */
  function QuoteField(v: string): string {
    if ',' in v then "\"" + DoubleQuotes(v) + "\"" else v
  }

  /** A value is wrapped in quotes: at least two characters, a quote at each end. */
  predicate Wrapped(f: string) {
    |f| >= 2 && f[0] == '"' && f[|f| - 1] == '"'
  }

  /** Reading one value back: a wrapped value loses its quotes and has its doubled quotes
      halved; any other value is read as it is. */
  function UnquoteField(f: string): string {
    if Wrapped(f) then HalveQuotes(f[1..|f| - 1]) else f
  }

  /** A value reads back unchanged exactly when it holds a comma or is not itself wrapped in
      quotes: a comma-free value such as `"a"` is written bare and then read as `a`. */
  lemma QuoteRoundTrip(v: string)
    ensures UnquoteField(QuoteField(v)) == v <==> ',' in v || !Wrapped(v)
  {
    if ',' in v {
      var q := "\"" + DoubleQuotes(v) + "\"";
      assert q[1..|q| - 1] == DoubleQuotes(v);
      HalveDoubled(v);
    } else if Wrapped(v) {
      assert |UnquoteField(v)| < |v|;
    }
  }

  /** The RFC 4180 gap in one example: a quoted value without a comma is written bare, and
      so is read back without its quotes. */
  lemma QuoteBareExample()
    ensures QuoteField("\"a\"") == "\"a\""
    ensures UnquoteField(QuoteField("\"a\"")) == "a"
  {
    assert ',' !in "\"a\"";
    assert "\"a\""[1..2] == "a";
  }

  /** A comma makes the export quote the value and double the quotes inside it. */
  lemma QuoteCommaExample()
    ensures QuoteField("a,\"b\"") == "\"a,\"\"b\"\"\""
  {
    var v := "a,\"b\"";
    assert ',' in v by { assert v[1] == ','; }
    assert v[1..] == ",\"b\"" && v[2..] == "\"b\"" && v[3..] == "b\"" && v[4..] == "\"" && v[5..] == "";
    assert DoubleQuotes(v[4..]) == "\"\"";
    assert DoubleQuotes(v[3..]) == "b\"\"";
    assert DoubleQuotes(v[2..]) == "\"\"b\"\"";
    assert DoubleQuotes(v) == "a,\"\"b\"\"";
  }

  /** `join(sep)`: the strings with one separator between neighbours. */
  function Join(fs: seq<string>, sep: char): string {
    if |fs| == 0 then []
    else if |fs| == 1 then fs[0]
    else fs[0] + [sep] + Join(fs[1..], sep)
  }

  /** Splitting at every separator, the reader's inverse of `Join`. */
  function Split(s: string, sep: char): (r: seq<string>)
    ensures |r| >= 1
  {
    if s == [] then [[]]
    else
      var rest := Split(s[1..], sep);
      if s[0] == sep then [[]] + rest else [[s[0]] + rest[0]] + rest[1..]
  }

  lemma {:induction false} SplitPrefix(f: string, t: string, sep: char)
    requires sep !in f
    ensures Split(f + t, sep) == [f + Split(t, sep)[0]] + Split(t, sep)[1..]
  {
    if f != [] {
      assert (f + t)[1..] == f[1..] + t;
      SplitPrefix(f[1..], t, sep);
      assert [f[0]] + (f[1..] + Split(t, sep)[0]) == f + Split(t, sep)[0];
    } else {
      var r := Split(t, sep);
      assert f + t == t;
      assert f + r[0] == r[0];
      assert r == [r[0]] + r[1..];
    }
  }

  /** Strings without the separator split back into themselves once joined. */
  lemma {:induction false} SplitJoin(fs: seq<string>, sep: char)
    requires |fs| >= 1
    requires forall i :: 0 <= i < |fs| ==> sep !in fs[i]
    ensures Split(Join(fs, sep), sep) == fs
  {
    if |fs| == 1 {
      SplitPrefix(fs[0], [], sep);
      assert fs[0] + [] == fs[0];
    } else {
      var j := Join(fs[1..], sep);
      SplitJoin(fs[1..], sep);
      assert Join(fs, sep) == fs[0] + ([sep] + j);
      SplitPrefix(fs[0], [sep] + j, sep);
      assert ([sep] + j)[1..] == j;
      assert Split([sep] + j, sep) == [[]] + fs[1..];
      assert fs[0] + [] == fs[0];
      assert fs == [fs[0]] + fs[1..];
    }
  }

  /** One exported line: the row's values, each quoted by the export's rule, comma
      separated. */
  function CsvLine(row: seq<string>): string {
    Join(seq(|row|, i requires 0 <= i < |row| => QuoteField(row[i])), ',')
  }

  /** The export: the lines, newline separated. An empty row is an empty line. */
  function ExportCsv(rows: seq<seq<string>>): string {
    Join(seq(|rows|, i requires 0 <= i < |rows| => CsvLine(rows[i])), '\n')
  }

  /** A value without a comma or a line break is exported as it is. */
  predicate PlainValue(v: string) {
    ',' !in v && '\n' !in v
  }

  lemma {:induction false} JoinAvoids(fs: seq<string>, sep: char, c: char)
    requires sep != c
    requires forall i :: 0 <= i < |fs| ==> c !in fs[i]
    ensures c !in Join(fs, sep)
  {
    if |fs| > 1 {
      JoinAvoids(fs[1..], sep, c);
    }
  }

  /** When no value holds a comma or a line break, splitting the export at newlines gives
      one line per row, and splitting each line at commas gives the row back (an empty row
      reads as one empty value). */
  lemma ExportReadsBack(rows: seq<seq<string>>)
    requires |rows| >= 1
    requires forall i, j :: 0 <= i < |rows| && 0 <= j < |rows[i]| ==> PlainValue(rows[i][j])
    ensures |Split(ExportCsv(rows), '\n')| == |rows|
    ensures forall i :: 0 <= i < |rows| ==>
      Split(Split(ExportCsv(rows), '\n')[i], ',') == if rows[i] == [] then [[]] else rows[i]
  {
    var lines := seq(|rows|, i requires 0 <= i < |rows| => CsvLine(rows[i]));
    forall i | 0 <= i < |rows|
      ensures '\n' !in lines[i]
      ensures Split(lines[i], ',') == if rows[i] == [] then [[]] else rows[i]
    {
      var fields := seq(|rows[i]|, k requires 0 <= k < |rows[i]| => QuoteField(rows[i][k]));
      assert fields == rows[i];
      JoinAvoids(rows[i], ',', '\n');
      if rows[i] != [] {
        SplitJoin(rows[i], ',');
      }
    }
    SplitJoin(lines, '\n');
  }
}

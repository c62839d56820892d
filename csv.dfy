/** The naive CSV reading of `loadSelectedFiles`: the (already trimmed) text
    is split on every newline, each line on every comma; the first line gives
    the headers and the remaining lines the rows. No quoting, no escaping. */
module Csv {

  /** What `loadSelectedFiles` stores for one file. */
  datatype FileData = FileData(headers: seq<string>, rows: seq<seq<string>>)

  /** Number of occurrences of `c` in `s`. */
  function Count(s: string, c: char): nat
    decreases |s|
  {
    if |s| == 0 then 0 else (if s[0] == c then 1 else 0) + Count(s[1..], c)
  }

  /** JavaScript's `s.split(sep)` for a one-character separator: the pieces
      between separators, so an empty string gives one empty piece. */
  function Split(s: string, sep: char): (parts: seq<string>)
    ensures |parts| == Count(s, sep) + 1
    ensures forall i :: 0 <= i < |parts| ==> sep !in parts[i]
    decreases |s|
  {
    if |s| == 0 then [""]
    else
      var rest := Split(s[1..], sep);
      if s[0] == sep then [""] + rest
      else [[s[0]] + rest[0]] + rest[1..]
  }

  /** JavaScript's `parts.join(sep)`. */
  function Join(parts: seq<string>, sep: char): string
    decreases |parts|
  {
    if |parts| == 0 then ""
    else if |parts| == 1 then parts[0]
    else parts[0] + [sep] + Join(parts[1..], sep)
  }

  /** Joining the pieces with the separator gives back the line. */
  lemma {:induction false} SplitJoin(s: string, sep: char)
    ensures Join(Split(s, sep), sep) == s
    decreases |s|
  {
    if |s| > 0 {
      var rest := Split(s[1..], sep);
      SplitJoin(s[1..], sep);
      if s[0] == sep {
        assert Split(s, sep) == [""] + rest;
        assert ([""] + rest)[1..] == rest;
        assert [s[0]] + s[1..] == s;
      } else if |rest| == 1 {
        assert Split(s, sep) == [[s[0]] + rest[0]];
        assert [s[0]] + s[1..] == s;
      } else {
        var parts := Split(s, sep);
        assert parts == [[s[0]] + rest[0]] + rest[1..];
        assert parts[1..] == rest[1..];
        assert Join(rest, sep) == rest[0] + [sep] + Join(rest[1..], sep);
        assert [s[0]] + s[1..] == s;
      }
    }
  }

  /** Splitting a separator-free prefix glued to `rest` extends the first
      piece of `rest`'s split. */
  lemma {:induction false} SplitCleanPrefix(p: string, rest: string, sep: char)
    requires sep !in p
    ensures Split(p + rest, sep) == [p + Split(rest, sep)[0]] + Split(rest, sep)[1..]
    decreases |p|
  {
    if |p| == 0 {
      var r := Split(rest, sep);
      assert p + rest == rest && p + r[0] == r[0];
      assert [r[0]] + r[1..] == r;
    } else {
      var S := Split(rest, sep);
      var t := p[1..] + rest;
      SplitCleanPrefix(p[1..], rest, sep);
      assert p + rest == [p[0]] + t;
      SplitCons(p[0], t, sep, Split(t, sep));
      assert [p[0]] + (p[1..] + S[0]) == p + S[0];
    }
  }

  /** A non-separator in front joins the first piece. */
  lemma SplitCons(c: char, t: string, sep: char, parts: seq<string>)
    requires c != sep && parts == Split(t, sep)
    ensures Split([c] + t, sep) == [[c] + parts[0]] + parts[1..]
  {
    assert ([c] + t)[1..] == t;
  }

  /** Splitting a join of separator-free pieces gives back the pieces. */
  lemma {:induction false} JoinSplit(parts: seq<string>, sep: char)
    requires |parts| > 0
    requires forall i :: 0 <= i < |parts| ==> sep !in parts[i]
    ensures Split(Join(parts, sep), sep) == parts
    decreases |parts|
  {
    if |parts| == 1 {
      SplitCleanPrefix(parts[0], "", sep);
      assert parts[0] + "" == parts[0];
    } else {
      var tail := Join(parts[1..], sep);
      JoinSplit(parts[1..], sep);
      SplitCleanPrefix(parts[0], [sep] + tail, sep);
      assert parts[0] + [sep] + tail == parts[0] + ([sep] + tail);
      assert ([sep] + tail)[1..] == tail;
      assert Split([sep] + tail, sep) == [""] + parts[1..];
      assert parts[0] + "" == parts[0];
      assert [parts[0]] + parts[1..] == parts;
    }
  }

  /** The text's lines, each split into its fields. */
  function Table(text: string): seq<seq<string>>
  {
    var lines := Split(text, '\n');
    seq(|lines|, i requires 0 <= i < |lines| => Split(lines[i], ','))
  }

  /** `{ headers: rows[0], rows: rows.slice(1) }` for the split text. */
  function ParseCsv(text: string): (f: FileData)
    ensures |f.headers| > 0
    ensures |f.rows| == Count(text, '\n')
    ensures forall i :: 0 <= i < |f.rows| ==> |f.rows[i]| > 0
  {
    var t := Table(text);
    FileData(t[0], t[1..])
  }

  /** Writes a file back out: fields joined with commas, lines with newlines. */
  function Unparse(f: FileData): string
  {
    Join([Join(f.headers, ',')] + seq(|f.rows|, i requires 0 <= i < |f.rows| => Join(f.rows[i], ',')), '\n')
  }

  /** The headers are the first line and the rows the remaining lines in
      order; each line has one more field than it has commas, and no field
      holds a comma or a newline. */
  lemma ParseLines(text: string)
    ensures var lines := Split(text, '\n'); var f := ParseCsv(text);
      && |lines| == |f.rows| + 1
      && Join(f.headers, ',') == lines[0]
      && |f.headers| == Count(lines[0], ',') + 1
      && (forall i :: 0 <= i < |f.rows| ==> Join(f.rows[i], ',') == lines[i + 1])
      && (forall i :: 0 <= i < |f.rows| ==> |f.rows[i]| == Count(lines[i + 1], ',') + 1)
      && (forall j :: 0 <= j < |f.headers| ==> ',' !in f.headers[j] && '\n' !in f.headers[j])
      && (forall i, j :: 0 <= i < |f.rows| && 0 <= j < |f.rows[i]| ==> ',' !in f.rows[i][j] && '\n' !in f.rows[i][j])
  {
    var lines := Split(text, '\n');
    var f := ParseCsv(text);
    forall i | 0 <= i < |lines|
      ensures Join(Split(lines[i], ','), ',') == lines[i]
    {
      SplitJoin(lines[i], ',');
    }
    forall i, j | 0 <= i < |lines| && 0 <= j < |Split(lines[i], ',')|
      ensures '\n' !in Split(lines[i], ',')[j]
    {
      SplitCleanPrefixFields(lines[i], j);
    }
    assert forall i :: 0 <= i < |f.rows| ==> f.rows[i] == Split(lines[i + 1], ',');
  }

  /** A field of a newline-free line holds no newline. */
  lemma {:induction false} SplitCleanPrefixFields(line: string, j: nat)
    requires '\n' !in line
    requires j < |Split(line, ',')|
    ensures '\n' !in Split(line, ',')[j]
  {
    SplitSubsequence(line, ',', j);
  }

  /** Every character of a piece occurs in the split string. */
  lemma {:induction false} SplitSubsequence(s: string, sep: char, j: nat)
    requires j < |Split(s, sep)|
    ensures forall c :: c in Split(s, sep)[j] ==> c in s
    decreases |s|
  {
    if |s| > 0 {
      var rest := Split(s[1..], sep);
      if s[0] == sep {
        if j > 0 { SplitSubsequence(s[1..], sep, j - 1); }
      } else if j == 0 {
        SplitSubsequence(s[1..], sep, 0);
      } else {
        SplitSubsequence(s[1..], sep, j);
      }
    }
  }

  /** Writing the parsed file back out reproduces the text exactly. */
  lemma ParseRoundTrip(text: string)
    ensures Unparse(ParseCsv(text)) == text
  {
    var lines := Split(text, '\n');
    var f := ParseCsv(text);
    ParseLines(text);
    var rejoined := [Join(f.headers, ',')] + seq(|f.rows|, i requires 0 <= i < |f.rows| => Join(f.rows[i], ','));
    assert rejoined == lines;
    SplitJoin(text, '\n');
  }
}

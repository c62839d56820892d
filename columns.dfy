/** Column selection: the checkbox fold of the "start quiz" handler that
    builds `selectedColumns`, and the column pick of
    `startOnRandomSelectedColumn`. */
module Columns {
  import opened Wrappers
  import opened Store

  /** One column checkbox of the settings screen: the file it belongs to
      (`cb.dataset.file`), the column name (`cb.value`) and its state. */
  datatype Checkbox = Checkbox(file: string, value: string, checked: bool)

  /** One pass of the gathering loop: give the file an entry if it has none,
      then append the column name when the box is checked. */
  function GatherStep(sel: map<string, seq<string>>, cb: Checkbox): map<string, seq<string>>
  {
    var current := if cb.file in sel then sel[cb.file] else [];
    sel[cb.file := if cb.checked then current + [cb.value] else current]
  }

  /** `selectedColumns` after the gathering loop over `boxes`, starting from `{}`. */
  function Gathered(boxes: seq<Checkbox>): map<string, seq<string>>
    decreases |boxes|
  {
    if |boxes| == 0 then map[]
    else GatherStep(Gathered(boxes[..|boxes| - 1]), boxes[|boxes| - 1])
  }

  /** The files that have at least one checkbox. */
  function Files(boxes: seq<Checkbox>): set<string>
  {
    set i | 0 <= i < |boxes| :: boxes[i].file
  }

  /** The checked column names of file `f`, in checkbox order. */
  function CheckedValues(boxes: seq<Checkbox>, f: string): seq<string>
    decreases |boxes|
  {
    if |boxes| == 0 then []
    else
      var last := boxes[|boxes| - 1];
      CheckedValues(boxes[..|boxes| - 1], f) + (if last.file == f && last.checked then [last.value] else [])
  }

  /** The fold gives every file that has a checkbox an entry (possibly
      empty), and no other file; the entry lists exactly that file's checked
      names in checkbox order. */
  lemma GatheredEntries(boxes: seq<Checkbox>)
    ensures Gathered(boxes).Keys == Files(boxes)
    ensures forall f :: f in Gathered(boxes) ==> Gathered(boxes)[f] == CheckedValues(boxes, f)
  {
    GatheredKeys(boxes);
    forall f | f in Gathered(boxes)
      ensures Gathered(boxes)[f] == CheckedValues(boxes, f)
    {
      GatheredAt(boxes, f);
    }
  }

  /** The fold gives an entry to exactly the files that have a checkbox. */
  lemma {:induction false} GatheredKeys(boxes: seq<Checkbox>)
    ensures Gathered(boxes).Keys == Files(boxes)
    decreases |boxes|
  {
    if |boxes| > 0 {
      var n := |boxes| - 1;
      assert Gathered(boxes) == GatherStep(Gathered(boxes[..n]), boxes[n]);
      GatheredKeys(boxes[..n]);
      FilesStep(boxes);
    }
  }

  /** The files of a sequence of checkboxes are those of all but the last,
      plus the last one's. */
  lemma FilesStep(boxes: seq<Checkbox>)
    requires |boxes| > 0
    ensures Files(boxes) == Files(boxes[..|boxes| - 1]) + {boxes[|boxes| - 1].file}
  {
    var n := |boxes| - 1;
    forall f | f in Files(boxes) ensures f in Files(boxes[..n]) + {boxes[n].file} {
      var i :| 0 <= i < |boxes| && boxes[i].file == f;
      if i < n { assert boxes[..n][i].file == f; }
    }
    forall f | f in Files(boxes[..n]) ensures f in Files(boxes) {
      var i :| 0 <= i < n && boxes[..n][i].file == f;
      assert boxes[i].file == f;
    }
  }

  /** The entry of a file lists exactly its checked names, in order. */
  lemma {:induction false} GatheredAt(boxes: seq<Checkbox>, f: string)
    requires f in Gathered(boxes)
    ensures Gathered(boxes)[f] == CheckedValues(boxes, f)
    decreases |boxes|
  {
    var n := |boxes| - 1;
    var before := Gathered(boxes[..n]);
    assert Gathered(boxes) == GatherStep(before, boxes[n]);
    if f in before {
      GatheredAt(boxes[..n], f);
    } else if f == boxes[n].file {
      GatheredKeys(boxes[..n]);
      CheckedValuesAbsent(boxes[..n], f);
    }
  }

  /** A file without a checkbox has no checked names. */
  lemma {:induction false} CheckedValuesAbsent(boxes: seq<Checkbox>, f: string)
    requires f !in Files(boxes)
    ensures CheckedValues(boxes, f) == []
    decreases |boxes|
  {
    if |boxes| > 0 {
      var n := |boxes| - 1;
      assert boxes[n].file in Files(boxes);
      CheckedValuesAbsent(boxes[..n], f);
    }
  }

  /** `selectedColumns[filePath] || currentData.headers`: the file's entry
      whenever it has one (an empty array is truthy in JavaScript), the
      row's headers only when the file has no entry at all. */
  function PossibleColumns(sel: map<string, seq<string>>, q: QuizRow): seq<string>
  {
    if q.file in sel then sel[q.file] else q.headers
  }

  /** A random pick is drawn only among two or more names; with one name it
      is ignored, and with none it indexes past the end. */
  predicate ValidPick(cols: seq<string>, pick: nat)
  {
    |cols| <= 1 || pick < |cols|
  }

  /** The name `startOnRandomSelectedColumn` looks up: the only one, the
      picked one, or `undefined` when there is none. */
  function Chosen(cols: seq<string>, pick: nat): (c: Option<string>)
    requires ValidPick(cols, pick)
    ensures c.None? <==> |cols| == 0
    ensures c.Some? ==> c.value in cols
    ensures |cols| == 1 ==> c == Some(cols[0])
    ensures |cols| > 1 ==> c == Some(cols[pick])
  {
    if |cols| == 1 then Some(cols[0])
    else if |cols| == 0 then None
    else Some(cols[pick])
  }

  /** Every possible name is looked up for some pick, so a uniform pick can
      land on any of them. */
  lemma ChosenCovers(cols: seq<string>, x: string)
    requires x in cols
    ensures exists pick: nat :: ValidPick(cols, pick) && Chosen(cols, pick) == Some(x)
  {
    var k :| 0 <= k < |cols| && cols[k] == x;
    assert ValidPick(cols, k) && Chosen(cols, k) == Some(x);
  }

  /** `headers.indexOf(x)`: the first index holding `x`, or -1 when there is
      none; `undefined` is never found among strings. */
  function IndexOf(s: seq<string>, x: Option<string>): (r: int)
    ensures -1 <= r < |s|
    ensures r == -1 <==> x.None? || x.value !in s
    ensures r >= 0 ==> x == Some(s[r]) && forall k :: 0 <= k < r ==> s[k] != x.value
    decreases |s|
  {
    if x.None? || |s| == 0 then -1
    else if s[0] == x.value then 0
    else
      var r := IndexOf(s[1..], x);
      if r == -1 then -1 else r + 1
  }

  /** The column `startOnRandomSelectedColumn` sets for row `q`. */
  function ColumnFor(sel: map<string, seq<string>>, q: QuizRow, pick: nat): (c: int)
    requires ValidPick(PossibleColumns(sel, q), pick)
    ensures -1 <= c < |q.headers|
    ensures c >= 0 ==> Chosen(PossibleColumns(sel, q), pick) == Some(q.headers[c])
    ensures c == -1 <==> |PossibleColumns(sel, q)| == 0 || Chosen(PossibleColumns(sel, q), pick).value !in q.headers
  {
    IndexOf(q.headers, Chosen(PossibleColumns(sel, q), pick))
  }

  /** Falling back to the headers always lands on a real column. */
  lemma FallbackInRange(sel: map<string, seq<string>>, q: QuizRow, pick: nat)
    requires q.file !in sel && |q.headers| > 0 && ValidPick(q.headers, pick)
    ensures 0 <= ColumnFor(sel, q, pick) < |q.headers|
  {
  }

  /** An entry that exists but is empty yields -1: no fallback. */
  lemma EmptySelectionNotFound(sel: map<string, seq<string>>, q: QuizRow, pick: nat)
    requires q.file in sel && sel[q.file] == []
    ensures ColumnFor(sel, q, pick) == -1
  {
  }

  /** A chosen name that is not among the headers yields -1. */
  lemma MissingNameNotFound(sel: map<string, seq<string>>, q: QuizRow, pick: nat)
    requires q.file in sel && ValidPick(sel[q.file], pick)
    requires |sel[q.file]| > 0 && Chosen(sel[q.file], pick).value !in q.headers
    ensures ColumnFor(sel, q, pick) == -1
  {
  }

  /** With exactly one possible column, the pick does not matter. */
  lemma SingleColumnDeterministic(sel: map<string, seq<string>>, q: QuizRow, pick1: nat, pick2: nat)
    requires |PossibleColumns(sel, q)| == 1
    ensures ColumnFor(sel, q, pick1) == ColumnFor(sel, q, pick2) == IndexOf(q.headers, Some(PossibleColumns(sel, q)[0]))
  {
  }
}

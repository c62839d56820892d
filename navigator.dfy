/** The quiz session: the module-level variables of the page script and the
    functions that change them. */
module Navigator {
  import opened Wrappers
  import opened Csv
  import opened Shuffle
  import opened Store
  import opened Columns
  import opened Wrap
  import opened Input

  /** The row-order radio button: only the value "random" shuffles. */
  datatype Mode = Sequential | Random

  /** How a handler ends: normally, or by a `TypeError` thrown when it
      indexes into an empty `allRows`. */
  datatype Outcome = Done | TypeError

  /** The order of the quiz rows: the flattened rows, shuffled once in
      random mode. */
  function QuizOrder(mode: Mode, flat: seq<QuizRow>, draws: seq<nat>): seq<QuizRow>
    requires mode == Random ==> ValidDraws(|flat|, draws)
  {
    if mode == Random then Shuffled(flat, draws) else flat
  }

  /** In either mode the quiz rows are a permutation of the flattened rows,
      so every data row of every loaded file is quizzed exactly once per
      pass. */
  lemma QuizOrderPermutes(mode: Mode, flat: seq<QuizRow>, draws: seq<nat>)
    requires mode == Random ==> ValidDraws(|flat|, draws)
    ensures |QuizOrder(mode, flat, draws)| == |flat|
    ensures multiset(QuizOrder(mode, flat, draws)) == multiset(flat)
  {
    if mode == Random {
      ShuffledPermutes(flat, draws);
    }
  }

  /** The nested `forEach` of `prepareQuizRows`: pushes every row of every
      entry, tagged with the entry's headers and path, entry after entry. */
  method CollectRows(entries: seq<Entry>) returns (rows: seq<QuizRow>)
    ensures rows == Flatten(entries)
  {
    rows := [];
    for k := 0 to |entries|
      invariant rows == Flatten(entries[..k])
    {
      var entry := entries[k];
      for r := 0 to |entry.data.rows|
        invariant rows == Flatten(entries[..k]) + Tag(entry)[..r]
      {
        TagPrefix(entry, r);
        rows := rows + [QuizRow(entry.data.headers, entry.data.rows[r], entry.path)];
      }
      FlattenPrefix(entries, k);
    }
    assert entries[..|entries|] == entries;
  }

  /** A row keeps headers under any permutation of the rows. */
  lemma MultisetHeadersPresent(before: seq<QuizRow>, after: seq<QuizRow>)
    requires multiset(after) == multiset(before)
    requires forall q :: q in before ==> |q.headers| > 0
    ensures forall q :: q in after ==> |q.headers| > 0
  {
    forall q | q in after
      ensures |q.headers| > 0
    {
      assert q in multiset(after);
    }
  }

  class Session {
    /** `loadedData`: file path to parsed file, in insertion order. */
    var loadedData: seq<Entry>
    /** `rowMode`. */
    var rowMode: Mode
    /** `currentRow`: an index into `allRows`. */
    var currentRow: int
    /** `currentCol`: an index into the current row's headers, or -1 when the
        chosen column name was not found. */
    var currentCol: int
    /** `allRows`: every loaded row, tagged with its file. */
    var allRows: seq<QuizRow>
    /** `selectedColumns`: file path to the checked column names. */
    var selectedColumns: map<string, seq<string>>

    /** What holds of the session apart from the column: distinct paths,
        every file and quiz row with at least one header, and the row index
        within `allRows` whenever there are rows. */
    ghost predicate RowsValid()
      reads this
    {
      && UniquePaths(loadedData)
      && HeadersPresent(loadedData)
      && (forall q :: q in allRows ==> |q.headers| > 0)
      && (|allRows| > 0 ==> 0 <= currentRow < |allRows|)
    }

    /** The session invariant: moreover the column is a header index of the
        current row, or -1. */
    ghost predicate Valid()
      reads this
    {
      && RowsValid()
      && (|allRows| > 0 ==> -1 <= currentCol < |allRows[currentRow].headers|)
    }

    /** The random pick is usable for the row at index `row`. */
    predicate PickFits(row: int, pick: nat)
      reads this
    {
      0 <= row < |allRows| ==> ValidPick(PossibleColumns(selectedColumns, allRows[row]), pick)
    }

    /** The random pick is usable for the row that move `m` lands on. */
    predicate MovePickFits(m: Move, pick: nat)
      reads this
    {
      |allRows| == 0 ||
      match m
      case NextRow => PickFits(NextIndex(currentRow, |allRows|), pick)
      case PrevRow => PickFits(PrevIndex(currentRow, |allRows|), pick)
      case _ => true
    }

    /** Row and column after move `m` on a session with rows. */
    ghost function MoveResult(m: Move, pick: nat): (int, int)
      reads this
      requires Valid() && |allRows| > 0 && MovePickFits(m, pick)
    {
      var n := |allRows|;
      match m
      case NextRow =>
        var r := NextIndex(currentRow, n);
        (r, ColumnFor(selectedColumns, allRows[r], pick))
      case PrevRow =>
        var r := PrevIndex(currentRow, n);
        (r, ColumnFor(selectedColumns, allRows[r], pick))
      case NextCol => (currentRow, NextIndex(currentCol, |allRows[currentRow].headers|))
      case PrevCol => (currentRow, PrevIndex(currentCol, |allRows[currentRow].headers|))
    }

    /** The initial values of the module-level variables. */
    constructor ()
      ensures Valid()
      ensures loadedData == [] && rowMode == Sequential && allRows == [] && selectedColumns == map[]
      ensures currentRow == 0 && currentCol == 0
    {
      loadedData := [];
      rowMode := Sequential;
      currentRow, currentCol := 0, 0;
      allRows := [];
      selectedColumns := map[];
    }

    /** `loadSelectedFiles`, with the fetched and trimmed text of each
        selected file given: each text is split into lines and fields and
        stored under its path. */
    method LoadSelectedFiles(selectedFiles: seq<string>, texts: seq<string>)
      requires Valid() && |texts| == |selectedFiles|
      modifies this`loadedData
      ensures Valid()
      ensures loadedData == LoadAll(old(loadedData), selectedFiles, texts)
    {
      for k := 0 to |selectedFiles|
        invariant Valid()
        invariant loadedData == LoadAll(old(loadedData), selectedFiles[..k], texts[..k])
      {
        var filePath := selectedFiles[k];
        var rows := Table(texts[k]);
        assert FileData(rows[0], rows[1..]) == ParseCsv(texts[k]);
        PutKeepsShape(loadedData, filePath, texts[k], Put(loadedData, filePath, FileData(rows[0], rows[1..])));
        loadedData := Put(loadedData, filePath, FileData(rows[0], rows[1..]));
        assert selectedFiles[..k + 1][..k] == selectedFiles[..k];
        assert texts[..k + 1][..k] == texts[..k];
      }
      assert selectedFiles[..|selectedFiles|] == selectedFiles;
      assert texts[..|texts|] == texts;
    }

    /** The gathering loop of the "start quiz" handler: `selectedColumns`
        starts empty and every checkbox gives its file an entry and adds its
        column name when checked. */
    method GatherSelectedColumns(boxes: seq<Checkbox>)
      requires Valid()
      modifies this`selectedColumns
      ensures Valid()
      ensures selectedColumns == Gathered(boxes)
    {
      selectedColumns := map[];
      for i := 0 to |boxes|
        invariant selectedColumns == Gathered(boxes[..i])
      {
        var cb := boxes[i];
        var file := cb.file;
        if file !in selectedColumns {
          selectedColumns := selectedColumns[file := []];
        }
        if cb.checked {
          selectedColumns := selectedColumns[file := selectedColumns[file] + [cb.value]];
        }
        assert boxes[..i + 1][..i] == boxes[..i];
      }
      assert boxes[..|boxes|] == boxes;
    }

    /** `prepareQuizRows`: collects every loaded row, tagged with its file's
        headers and path, file by file; shuffles them once in random mode;
        and goes back to the first row and column. */
    method PrepareQuizRows(draws: seq<nat>)
      requires Valid()
      requires rowMode == Random ==> ValidDraws(|Flatten(loadedData)|, draws)
      modifies this`allRows, this`currentRow, this`currentCol
      ensures Valid()
      ensures allRows == QuizOrder(rowMode, Flatten(loadedData), draws)
      ensures currentRow == 0 && currentCol == 0
    {
      var rows := CollectRows(loadedData);
      FlattenHeadersPresent(loadedData);
      if rowMode == Random {
        var a := new QuizRow[|rows|](i requires 0 <= i < |rows| => rows[i]);
        assert a[..] == rows;
        ShuffleArray(a, draws);
        ShuffledPermutes(rows, draws);
        MultisetHeadersPresent(rows, a[..]);
        rows := a[..];
      }
      allRows := rows;
      currentRow := 0;
      currentCol := 0;
    }

    /** `startOnRandomSelectedColumn`: picks the column of the current row
        from the file's selected names (all headers when the file has no
        entry) by `indexOf`. */
    method StartOnRandomSelectedColumn(pick: nat) returns (o: Outcome)
      requires RowsValid() && PickFits(currentRow, pick)
      modifies this`currentCol
      ensures Valid()
      ensures |allRows| == 0 ==> o == TypeError && currentCol == old(currentCol)
      ensures |allRows| > 0 ==> o == Done && currentCol == ColumnFor(selectedColumns, allRows[currentRow], pick)
    {
      if |allRows| == 0 {
        // allRows[currentRow] is undefined; reading its `file` throws
        return TypeError;
      }
      var currentData := allRows[currentRow];
      var filePath := currentData.file;
      var possibleColumns := if filePath in selectedColumns then selectedColumns[filePath] else currentData.headers;
      if |possibleColumns| == 1 {
        currentCol := IndexOf(currentData.headers, Some(possibleColumns[0]));
      } else {
        var randomColName := if pick < |possibleColumns| then Some(possibleColumns[pick]) else None;
        currentCol := IndexOf(currentData.headers, randomColName);
      }
      o := Done;
    }

    /** `nextRow`: the next row of `allRows`, wrapping to the first and
        crossing file boundaries, then a fresh column pick. */
    method NextRow(pick: nat) returns (o: Outcome)
      requires Valid() && MovePickFits(Move.NextRow, pick)
      modifies this`currentRow, this`currentCol
      ensures Valid()
      ensures |allRows| == 0 ==> o == TypeError && currentRow == old(currentRow) && currentCol == old(currentCol)
      ensures |allRows| > 0 ==> o == Done && currentRow == NextIndex(old(currentRow), |allRows|)
      ensures |allRows| > 0 ==> currentCol == ColumnFor(selectedColumns, allRows[currentRow], pick)
    {
      if |allRows| == 0 {
        // the row becomes NaN and the column pick then throws
        return TypeError;
      }
      currentRow := NextIndex(currentRow, |allRows|);
      o := StartOnRandomSelectedColumn(pick);
    }

    /** `prevRow`: the previous row of `allRows`, wrapping to the last, then
        a fresh column pick. */
    method PrevRow(pick: nat) returns (o: Outcome)
      requires Valid() && MovePickFits(Move.PrevRow, pick)
      modifies this`currentRow, this`currentCol
      ensures Valid()
      ensures |allRows| == 0 ==> o == TypeError && currentRow == old(currentRow) && currentCol == old(currentCol)
      ensures |allRows| > 0 ==> o == Done && currentRow == PrevIndex(old(currentRow), |allRows|)
      ensures |allRows| > 0 ==> currentCol == ColumnFor(selectedColumns, allRows[currentRow], pick)
    {
      if |allRows| == 0 {
        return TypeError;
      }
      currentRow := PrevIndex(currentRow, |allRows|);
      o := StartOnRandomSelectedColumn(pick);
    }

    /** `nextCol`: the next column of the current row's headers, wrapping;
        the row stays. From -1 it goes to the first column. */
    method NextCol() returns (o: Outcome)
      requires Valid()
      modifies this`currentCol
      ensures Valid()
      ensures |allRows| == 0 ==> o == TypeError && currentCol == old(currentCol)
      ensures |allRows| > 0 ==> o == Done && currentCol == NextIndex(old(currentCol), |allRows[currentRow].headers|)
      ensures |allRows| > 0 ==> 0 <= currentCol < |allRows[currentRow].headers|
    {
      if |allRows| == 0 {
        // allRows[currentRow].headers throws
        return TypeError;
      }
      var headers := allRows[currentRow].headers;
      currentCol := NextIndex(currentCol, |headers|);
      o := Done;
    }

    /** `prevCol`: the previous column of the current row's headers,
        wrapping; the row stays. */
    method PrevCol() returns (o: Outcome)
      requires Valid()
      modifies this`currentCol
      ensures Valid()
      ensures |allRows| == 0 ==> o == TypeError && currentCol == old(currentCol)
      ensures |allRows| > 0 ==> o == Done && currentCol == PrevIndex(old(currentCol), |allRows[currentRow].headers|)
      ensures |allRows| > 0 ==> 0 <= currentCol < |allRows[currentRow].headers|
    {
      if |allRows| == 0 {
        return TypeError;
      }
      var headers := allRows[currentRow].headers;
      currentCol := PrevIndex(currentCol, |headers|);
      o := Done;
    }

    /** Runs the navigation function for move `m`. */
    method Apply(m: Move, pick: nat) returns (o: Outcome)
      requires Valid() && MovePickFits(m, pick)
      modifies this`currentRow, this`currentCol
      ensures Valid()
      ensures |allRows| == 0 ==> o == TypeError && currentRow == old(currentRow) && currentCol == old(currentCol)
      ensures |allRows| > 0 ==> o == Done && (currentRow, currentCol) == old(MoveResult(m, pick))
    {
      match m
      case NextRow => o := NextRow(pick);
      case PrevRow => o := PrevRow(pick);
      case NextCol => o := NextCol();
      case PrevCol => o := PrevCol();
    }

    /** The `keydown` handler: an arrow key runs its move, any other key
        does nothing. */
    method HandleKey(key: string, pick: nat) returns (o: Outcome)
      requires Valid() && (KeyMove(key).Some? ==> MovePickFits(KeyMove(key).value, pick))
      modifies this`currentRow, this`currentCol
      ensures Valid()
      ensures KeyMove(key).None? ==> o == Done && currentRow == old(currentRow) && currentCol == old(currentCol)
      ensures KeyMove(key).Some? && |allRows| == 0 ==> o == TypeError && currentRow == old(currentRow) && currentCol == old(currentCol)
      ensures KeyMove(key).Some? && |allRows| > 0 ==> o == Done && (currentRow, currentCol) == old(MoveResult(KeyMove(key).value, pick))
    {
      match KeyMove(key)
      case None => o := Done;
      case Some(m) => o := Apply(m, pick);
    }

    /** The `touchend` handler for a movement of `(dx, dy)`. */
    method HandleSwipe(dx: int, dy: int, pick: nat) returns (o: Outcome)
      requires Valid() && (SwipeMove(dx, dy).Some? ==> MovePickFits(SwipeMove(dx, dy).value, pick))
      modifies this`currentRow, this`currentCol
      ensures Valid()
      ensures SwipeMove(dx, dy).None? ==> o == Done && currentRow == old(currentRow) && currentCol == old(currentCol)
      ensures SwipeMove(dx, dy).Some? && |allRows| == 0 ==> o == TypeError && currentRow == old(currentRow) && currentCol == old(currentCol)
      ensures SwipeMove(dx, dy).Some? && |allRows| > 0 ==> o == Done && (currentRow, currentCol) == old(MoveResult(SwipeMove(dx, dy).value, pick))
    {
      match SwipeMove(dx, dy)
      case None => o := Done;
      case Some(m) => o := Apply(m, pick);
    }

    /** The "start quiz" handler: records the mode, gathers the selected
        columns, prepares the rows and picks the first column. */
    method StartQuiz(mode: Mode, boxes: seq<Checkbox>, draws: seq<nat>, pick: nat) returns (o: Outcome)
      requires Valid()
      requires mode == Random ==> ValidDraws(|Flatten(loadedData)|, draws)
      requires var rows := QuizOrder(mode, Flatten(loadedData), draws);
        |rows| == 0 || ValidPick(PossibleColumns(Gathered(boxes), rows[0]), pick)
      modifies this`rowMode, this`selectedColumns, this`allRows, this`currentRow, this`currentCol
      ensures Valid()
      ensures rowMode == mode && selectedColumns == Gathered(boxes)
      ensures allRows == QuizOrder(mode, Flatten(loadedData), draws)
      ensures currentRow == 0
      ensures |allRows| == 0 ==> o == TypeError && currentCol == 0
      ensures |allRows| > 0 ==> o == Done && currentCol == ColumnFor(selectedColumns, allRows[0], pick)
    {
      rowMode := mode;
      GatherSelectedColumns(boxes);
      PrepareQuizRows(draws);
      o := StartOnRandomSelectedColumn(pick);
    }
  }
}

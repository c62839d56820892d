/** The loaded data (`loadedData`, a JavaScript object keyed by file path)
    and the flattened quiz rows built from it. A JavaScript object keeps its
    non-numeric string keys in insertion order and an assignment to an existing key
    keeps its place, so the object is an ordered list of entries with
    distinct paths. */
module Store {
  import opened Wrappers
  import opened Csv

  /** One key of `loadedData` with its value. */
  datatype Entry = Entry(path: string, data: FileData)

  /** One element of `allRows`: a data row tagged with its file's headers
      and path. */
  datatype QuizRow = QuizRow(headers: seq<string>, row: seq<string>, file: string)

  predicate UniquePaths(entries: seq<Entry>)
  {
    forall i, j :: 0 <= i < j < |entries| ==> entries[i].path != entries[j].path
  }

  /** `loadedData[path]`. */
  function Lookup(entries: seq<Entry>, path: string): (r: Option<FileData>)
    ensures r.None? <==> forall i :: 0 <= i < |entries| ==> entries[i].path != path
    ensures r.Some? ==> Entry(path, r.value) in entries
    decreases |entries|
  {
    if |entries| == 0 then None
    else if entries[0].path == path then Some(entries[0].data)
    else
      var r := Lookup(entries[1..], path);
      assert forall i :: 1 <= i < |entries| ==> entries[i] == entries[1..][i - 1];
      r
  }

  /** `loadedData[path] = data`: replaces the value in place when the key is
      present, appends a new entry otherwise. */
  function Put(entries: seq<Entry>, path: string, data: FileData): seq<Entry>
    decreases |entries|
  {
    if |entries| == 0 then [Entry(path, data)]
    else if entries[0].path == path then [Entry(path, data)] + entries[1..]
    else [entries[0]] + Put(entries[1..], path, data)
  }

  /** After storing, the path maps to the new data and every other path to
      what it mapped to before. */
  lemma {:induction false} PutLookup(entries: seq<Entry>, path: string, data: FileData, p: string)
    ensures Lookup(Put(entries, path, data), p) == if p == path then Some(data) else Lookup(entries, p)
    decreases |entries|
  {
    if |entries| > 0 && entries[0].path != path {
      var r := Put(entries, path, data);
      PutLookup(entries[1..], path, data, p);
      assert r[1..] == Put(entries[1..], path, data);
    }
  }

  /** Keys keep their places; a new key goes to the end; the only new value
      is the one stored. */
  lemma {:induction false} PutShape(entries: seq<Entry>, path: string, data: FileData, r: seq<Entry>)
    requires r == Put(entries, path, data)
    ensures Lookup(entries, path).None? ==> r == entries + [Entry(path, data)]
    ensures Lookup(entries, path).Some? ==> |r| == |entries|
    ensures forall i :: 0 <= i < |entries| ==> r[i].path == entries[i].path
    ensures forall e :: e in r ==> e in entries || e == Entry(path, data)
    decreases |entries|
  {
    if |entries| > 0 && entries[0].path != path {
      var tail := entries[1..];
      var rt := Put(tail, path, data);
      PutShape(tail, path, data, rt);
      assert r == [entries[0]] + rt;
      assert entries == [entries[0]] + tail;
      assert Lookup(entries, path) == Lookup(tail, path);
    }
  }

  /** Storing keeps the keys distinct. */
  lemma PutUnique(entries: seq<Entry>, path: string, data: FileData)
    requires UniquePaths(entries)
    ensures UniquePaths(Put(entries, path, data))
  {
    PutShape(entries, path, data, Put(entries, path, data));
  }

  /** The loop of `loadSelectedFiles`: each selected path in turn is stored
      with the parse of its fetched (and trimmed) text. */
  function LoadAll(entries: seq<Entry>, paths: seq<string>, texts: seq<string>): seq<Entry>
    requires |texts| == |paths|
    decreases |paths|
  {
    if |paths| == 0 then entries
    else
      var n := |paths| - 1;
      Put(LoadAll(entries, paths[..n], texts[..n]), paths[n], ParseCsv(texts[n]))
  }

  /** The last position at which `p` occurs in `paths`. */
  function LastIndex(paths: seq<string>, p: string): (k: nat)
    requires p in paths
    ensures k < |paths| && paths[k] == p
    ensures forall i :: k < i < |paths| ==> paths[i] != p
    decreases |paths|
  {
    if paths[|paths| - 1] == p then |paths| - 1
    else
      assert p in paths[..|paths| - 1] by {
        var i :| 0 <= i < |paths| && paths[i] == p;
        assert paths[..|paths| - 1][i] == p;
      }
      LastIndex(paths[..|paths| - 1], p)
  }

  /** After loading, a selected path holds the parse of the text fetched for
      it last; every other path keeps what it held. */
  lemma {:induction false} LoadAllLookup(entries: seq<Entry>, paths: seq<string>, texts: seq<string>, p: string)
    requires |texts| == |paths|
    ensures Lookup(LoadAll(entries, paths, texts), p) ==
      if p in paths then Some(ParseCsv(texts[LastIndex(paths, p)])) else Lookup(entries, p)
    decreases |paths|
  {
    if |paths| > 0 {
      var n := |paths| - 1;
      var before := LoadAll(entries, paths[..n], texts[..n]);
      assert LoadAll(entries, paths, texts) == Put(before, paths[n], ParseCsv(texts[n]));
      LoadAllLookup(entries, paths[..n], texts[..n], p);
      PutLookup(before, paths[n], ParseCsv(texts[n]), p);
      if p != paths[n] {
        LastIndexSkip(paths, texts, p);
      }
    }
  }

  /** A path other than the last one loaded is found where it was found
      before that load. */
  lemma LastIndexSkip(paths: seq<string>, texts: seq<string>, p: string)
    requires |texts| == |paths| > 0 && p != paths[|paths| - 1]
    ensures p in paths <==> p in paths[..|paths| - 1]
    ensures p in paths ==>
      texts[LastIndex(paths, p)] == texts[..|paths| - 1][LastIndex(paths[..|paths| - 1], p)]
  {
    var n := |paths| - 1;
    assert paths == paths[..n] + [paths[n]];
  }

  /** Every stored file has at least one header. */
  predicate HeadersPresent(entries: seq<Entry>)
  {
    forall e :: e in entries ==> |e.data.headers| > 0
  }

  /** Loading keeps the keys distinct and stores only parsed files, which
      always have at least one header. */
  lemma {:induction false} LoadAllShape(entries: seq<Entry>, paths: seq<string>, texts: seq<string>)
    requires |texts| == |paths|
    requires UniquePaths(entries) && HeadersPresent(entries)
    ensures UniquePaths(LoadAll(entries, paths, texts)) && HeadersPresent(LoadAll(entries, paths, texts))
    decreases |paths|
  {
    if |paths| > 0 {
      var n := |paths| - 1;
      var before := LoadAll(entries, paths[..n], texts[..n]);
      var after := LoadAll(entries, paths, texts);
      LoadAllShape(entries, paths[..n], texts[..n]);
      PutKeepsShape(before, paths[n], texts[n], after);
    }
  }

  /** Storing a parsed file keeps the keys distinct and the headers present. */
  lemma PutKeepsShape(entries: seq<Entry>, path: string, text: string, r: seq<Entry>)
    requires UniquePaths(entries) && HeadersPresent(entries)
    requires r == Put(entries, path, ParseCsv(text))
    ensures UniquePaths(r) && HeadersPresent(r)
  {
    var f := ParseCsv(text);
    PutUnique(entries, path, f);
    PutShape(entries, path, f, r);
  }

  /** The quiz rows of one entry, in file order. */
  function Tag(e: Entry): seq<QuizRow>
  {
    seq(|e.data.rows|, r requires 0 <= r < |e.data.rows| => QuizRow(e.data.headers, e.data.rows[r], e.path))
  }

  /** The nested `forEach` of `prepareQuizRows`: every entry's rows, tagged,
      entry after entry. */
  function Flatten(entries: seq<Entry>): seq<QuizRow>
    decreases |entries|
  {
    if |entries| == 0 then []
    else Flatten(entries[..|entries| - 1]) + Tag(entries[|entries| - 1])
  }

  /** Extending a prefix of the entries by one entry appends its rows. */
  lemma FlattenPrefix(entries: seq<Entry>, k: nat)
    requires k < |entries|
    ensures Flatten(entries[..k + 1]) == Flatten(entries[..k]) + Tag(entries[k])
  {
    assert entries[..k + 1][..k] == entries[..k];
  }

  /** Extending a prefix of an entry's quiz rows by one appends that row. */
  lemma TagPrefix(e: Entry, r: nat)
    requires r < |e.data.rows|
    ensures Tag(e)[..r + 1] == Tag(e)[..r] + [QuizRow(e.data.headers, e.data.rows[r], e.path)]
  {
  }

  /** Total number of data rows over all entries. */
  function SumRows(entries: seq<Entry>): nat
    decreases |entries|
  {
    if |entries| == 0 then 0
    else SumRows(entries[..|entries| - 1]) + |entries[|entries| - 1].data.rows|
  }

  /** There is one quiz row per data row. */
  lemma {:induction false} FlattenLength(entries: seq<Entry>)
    ensures |Flatten(entries)| == SumRows(entries)
    decreases |entries|
  {
    if |entries| > 0 {
      FlattenLength(entries[..|entries| - 1]);
    }
  }

  /** Row `r` of entry `k` sits after all rows of the earlier entries,
      tagged with entry `k`'s headers and path. */
  lemma {:induction false} FlattenAt(entries: seq<Entry>, k: nat, r: nat)
    requires k < |entries| && r < |entries[k].data.rows|
    ensures SumRows(entries[..k]) + r < |Flatten(entries)|
    ensures Flatten(entries)[SumRows(entries[..k]) + r]
         == QuizRow(entries[k].data.headers, entries[k].data.rows[r], entries[k].path)
    decreases |entries|
  {
    var n := |entries| - 1;
    var init := entries[..n];
    assert Flatten(entries) == Flatten(init) + Tag(entries[n]);
    FlattenLength(init);
    if k == n {
      assert entries[..k] == init;
    } else {
      FlattenAt(init, k, r);
      assert init[..k] == entries[..k];
    }
  }

  /** Every quiz row comes from some entry: its headers and path are that
      entry's and its values are one of that entry's rows. */
  lemma {:induction false} FlattenTagged(entries: seq<Entry>, q: QuizRow)
    requires q in Flatten(entries)
    ensures exists e :: e in entries && q.headers == e.data.headers && q.file == e.path && q.row in e.data.rows
    decreases |entries|
  {
    var n := |entries| - 1;
    var last := entries[n];
    if q in Flatten(entries[..n]) {
      FlattenTagged(entries[..n], q);
      var e :| e in entries[..n] && q.headers == e.data.headers && q.file == e.path && q.row in e.data.rows;
      assert e in entries;
    } else {
      assert q in Tag(last);
      var r :| 0 <= r < |Tag(last)| && Tag(last)[r] == q;
      assert q.row == last.data.rows[r];
    }
  }

  /** Files with headers give quiz rows with headers. */
  lemma FlattenHeadersPresent(entries: seq<Entry>)
    requires HeadersPresent(entries)
    ensures forall q :: q in Flatten(entries) ==> |q.headers| > 0
  {
    forall q | q in Flatten(entries)
      ensures |q.headers| > 0
    {
      FlattenTagged(entries, q);
    }
  }
}

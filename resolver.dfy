/**
 * One representative `raw_text` per fingerprint key, and the `cleaned_text`
 * column built from it (`generate_cleaned_text` in homework/clean_data.py).
 *
 * The function sorts a copy of the table by key and raw text, but then
 * deduplicates the caller's unsorted table, so the representative of a key
 * is the raw text of the first row with that key in input order.
 */
module Resolver {
  import opened StringOrder

  datatype Option<T> = None | Some(value: T)

  /** A row after `create_normalized_key`: the input text and its key. */
  datatype Row = Row(rawText: string, key: string)

  /** Row `i` is the first row, in input order, whose key is `k`. */
  ghost predicate IsFirstOf(rows: seq<Row>, i: int, k: string)
  {
    0 <= i < |rows| && rows[i].key == k && forall j :: 0 <= j < i ==> rows[j].key != k
  }

  /** What `drop_duplicates(subset="key", keep="first")` and
      `dict(zip(keys["key"], keys["raw_text"]))` leave for key `k`: the raw
      text of the first row with that key, or nothing when no row has it. */
  function Representative(rows: seq<Row>, k: string): (r: Option<string>)
    ensures r.Some? <==> exists i :: 0 <= i < |rows| && rows[i].key == k
    ensures r.Some? ==> exists i :: IsFirstOf(rows, i, k) && r.value == rows[i].rawText
    decreases |rows|
  {
    if rows == [] then None
    else
      var last := rows[|rows| - 1];
      var earlier := Representative(rows[..|rows| - 1], k);
      assert forall i :: 0 <= i < |rows| - 1 ==> rows[..|rows| - 1][i] == rows[i];
      if earlier.Some? then earlier
      else if last.key == k then Some(last.rawText)
      else None
  }

  /** The `cleaned_text` column (line 134): every row receives the
      representative of its key. */
  function CleanedColumn(rows: seq<Row>): (r: seq<string>)
    ensures |r| == |rows|
  {
    seq(|rows|, i requires 0 <= i < |rows| => Representative(rows, rows[i].key).value)
  }

  /** Every row is cleaned to the raw text of the first row of its group, so
      rows with equal keys are cleaned alike. */
  lemma CleanedColumnTakesFirst(rows: seq<Row>)
    ensures forall i :: 0 <= i < |rows| ==>
              exists j :: IsFirstOf(rows, j, rows[i].key) && CleanedColumn(rows)[i] == rows[j].rawText
    ensures forall i, j :: 0 <= i < |rows| && 0 <= j < |rows| && rows[i].key == rows[j].key ==>
              CleanedColumn(rows)[i] == CleanedColumn(rows)[j]
  {
    var r := CleanedColumn(rows);
    forall i | 0 <= i < |rows|
      ensures exists j :: IsFirstOf(rows, j, rows[i].key) && r[i] == rows[j].rawText
    {
      var rep := Representative(rows, rows[i].key);
      assert rep.Some?;
      assert r[i] == rep.value;
    }
    assert forall i :: 0 <= i < |rows| ==> r[i] == Representative(rows, rows[i].key).value;
  }

  /** The raw texts, in row order. */
  function RawTexts(rows: seq<Row>): (r: seq<string>)
    ensures |r| == |rows|
  {
    seq(|rows|, i requires 0 <= i < |rows| => rows[i].rawText)
  }

  /** Lines 125-129: the dictionary from every key that occurs to the raw
      text of its first row. Later rows with a key already seen are
      skipped, as `drop_duplicates(keep="first")` drops them. */
  method FirstOccurrenceMap(rows: seq<Row>) returns (dict: map<string, string>)
    ensures forall k :: k in dict <==> exists i :: 0 <= i < |rows| && rows[i].key == k
    ensures forall k :: k in dict ==> exists i :: IsFirstOf(rows, i, k) && dict[k] == rows[i].rawText
    ensures forall k :: Representative(rows, k) == if k in dict then Some(dict[k]) else None
  {
    dict := map[];
    var n := 0;
    while n < |rows|
      invariant 0 <= n <= |rows|
      invariant forall k :: Representative(rows[..n], k) == if k in dict then Some(dict[k]) else None
    {
      assert rows[..n + 1][..n] == rows[..n];
      var row := rows[n];
      if row.key !in dict {
        dict := dict[row.key := row.rawText];
      }
      n := n + 1;
    }
    assert rows[..n] == rows;
  }

  /** Line 134: look every row's key up in the dictionary and write the
      result into the new `cleaned_text` column of the caller's table. The
      lookup never misses, because the dictionary was built from the same
      rows. */
  method GenerateCleanedText(rows: seq<Row>, cleaned: array<string>)
    requires cleaned.Length == |rows|
    modifies cleaned
    ensures cleaned[..] == CleanedColumn(rows)
  {
    var dict := FirstOccurrenceMap(rows);
    ghost var column := CleanedColumn(rows);
    var n := 0;
    while n < |rows|
      invariant 0 <= n <= |rows|
      invariant forall i :: 0 <= i < n ==> cleaned[i] == column[i]
    {
      assert Representative(rows, rows[n].key).Some? by {
        assert rows[n].key == rows[n].key;
      }
      assert column[n] == dict[rows[n].key];
      cleaned[n] := dict[rows[n].key];
      n := n + 1;
    }
  }

  /** Every row of a group receives the raw text of the group's first row. */
  lemma GroupTakesFirstRow(rows: seq<Row>, first: int, i: int)
    requires 0 <= i < |rows| && IsFirstOf(rows, first, rows[i].key)
    ensures CleanedColumn(rows)[i] == rows[first].rawText
  {
    CleanedColumnTakesFirst(rows);
    var j :| IsFirstOf(rows, j, rows[i].key) && CleanedColumn(rows)[i] == rows[j].rawText;
    assert IsFirstOf(rows, j, rows[i].key);
    assert 0 <= j < |rows|;
    assert j == first;
  }

  /** When all rows share one key, every row gets the first row's text. */
  lemma OneGroup(rows: seq<Row>)
    requires rows != [] && forall i :: 0 <= i < |rows| ==> rows[i].key == rows[0].key
    ensures CleanedColumn(rows) == seq(|rows|, i => rows[0].rawText)
  {
    assert IsFirstOf(rows, 0, rows[0].key);
    forall i | 0 <= i < |rows| ensures CleanedColumn(rows)[i] == rows[0].rawText {
      GroupTakesFirstRow(rows, 0, i);
    }
  }

  /** When no two rows share a key, every row keeps its own text. */
  lemma DistinctKeysKeepText(rows: seq<Row>)
    requires forall i, j :: 0 <= i < j < |rows| ==> rows[i].key != rows[j].key
    ensures CleanedColumn(rows) == RawTexts(rows)
  {
    forall i | 0 <= i < |rows| ensures CleanedColumn(rows)[i] == rows[i].rawText {
      GroupTakesFirstRow(rows, i, i);
    }
  }

  /** The sort by key and raw text has no effect: in a group "Zebra",
      "apple", "Apple" every row gets "Zebra", the first in input order,
      although "Apple" is the smallest. */
  lemma FirstRowWinsOverSmallest(k: string)
    ensures CleanedColumn([Row("Zebra", k), Row("apple", k), Row("Apple", k)]) == ["Zebra", "Zebra", "Zebra"]
    ensures Less("Apple", "Zebra") && Less("Apple", "apple")
  {
    var rows := [Row("Zebra", k), Row("apple", k), Row("Apple", k)];
    assert IsFirstOf(rows, 0, k);
    GroupTakesFirstRow(rows, 0, 0);
    GroupTakesFirstRow(rows, 0, 1);
    GroupTakesFirstRow(rows, 0, 2);
  }
}

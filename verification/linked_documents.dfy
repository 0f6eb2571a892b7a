/**
 The linked fiscal documents block: the `chNFe` access keys found under
 `infMunDescarga`, laid out two per row beside the unloading municipality.
 */
module LinkedDocuments {
  import opened Wrappers
  import opened Text

  /** Height of one printed row, in millimetres. */
  const LineHeight: nat := 4

  /** One printed column: the unloading municipality and an access key. */
  datatype Cell = Cell(municipality: string, key: string)

  /** One printed row: a left cell and, when a key remains, a right cell. */
  datatype Row = Row(left: Cell, right: Option<Cell>)

  /** The keys a row prints, left before right. */
  function RowKeys(row: Row): seq<string> {
    [row.left.key] + (if row.right.Some? then [row.right.value.key] else [])
  }

  /** Every key printed by the rows, top to bottom, left to right. */
  function PrintedKeys(rows: seq<Row>): seq<string>
    decreases |rows|
  {
    if |rows| == 0 then [] else PrintedKeys(rows[..|rows| - 1]) + RowKeys(rows[|rows| - 1])
  }

  /**
   The key list: walk the children of `infMunDescarga` (each given by its
   extracted `chNFe` text) and append the ones that are not empty.
   */
  method BuildKeyList(values: seq<string>) returns (keys: seq<string>)
    ensures keys == NonEmptyOnly(values)
  {
    keys := [];
    var i := 0;
    while i < |values|
      invariant 0 <= i <= |values|
      invariant keys == NonEmptyOnly(values[..i])
    {
      assert values[..i + 1][..i] == values[..i];
      if values[i] != "" {
        keys := keys + [values[i]];
      }
      i := i + 1;
    }
    assert values[..i] == values;
  }

  /**
   The key list is exactly the non-empty values, in document order: each key
   is the value at a strictly increasing position, and every position holding a
   non-empty value is one of them.
   */
  lemma KeyListIsOrderedSubsequence(values: seq<string>, keys: seq<string>)
    requires keys == NonEmptyOnly(values)
    ensures |keys| <= |values|
    ensures forall k :: 0 <= k < |keys| ==> keys[k] != ""
    ensures |KeptIndices(values)| == |keys|
    ensures forall k :: 0 <= k < |keys| ==>
              KeptIndices(values)[k] < |values| && keys[k] == values[KeptIndices(values)[k]]
    ensures forall k, l :: 0 <= k < l < |keys| ==> KeptIndices(values)[k] < KeptIndices(values)[l]
    ensures forall i :: 0 <= i < |values| && values[i] != "" ==> i in KeptIndices(values)
  {
    NonEmptyOnlyByIndex(values);
    KeptIndicesSound(values);
    KeptIndicesComplete(values);
  }

  /**
   The loop that prints the keys two to a row, stepping `i` by two: the
   left cell gets key `i`, the right cell key `i + 1` when it exists.
   Returns the rows, the `num_lines` counter, `total_height` and the
   final `current_y`.
   */
  method LayOutKeys(keys: seq<string>, municipality: string, startY: real)
    returns (rows: seq<Row>, numLines: nat, totalHeight: nat, endY: real)
    ensures |rows| == (|keys| + 1) / 2
    ensures forall k :: 0 <= k < |rows| ==> rows[k].left == Cell(municipality, keys[2 * k])
    ensures forall k :: 0 <= k < |rows| ==>
              rows[k].right == (if 2 * k + 1 < |keys| then Some(Cell(municipality, keys[2 * k + 1])) else None)
    ensures PrintedKeys(rows) == keys
    ensures numLines == |keys|
    ensures totalHeight == LineHeight * |keys|
    ensures endY == startY + (LineHeight * |rows|) as real
  {
    rows := [];
    numLines := 0;
    var currentY := startY;
    var i := 0;
    while i < |keys|
      invariant i == 2 * |rows|
      invariant i <= |keys| + 1
      invariant numLines == if i <= |keys| then i else |keys|
      invariant forall k :: 0 <= k < |rows| ==> rows[k].left == Cell(municipality, keys[2 * k])
      invariant forall k :: 0 <= k < |rows| ==>
                  rows[k].right == (if 2 * k + 1 < |keys| then Some(Cell(municipality, keys[2 * k + 1])) else None)
      invariant PrintedKeys(rows) == keys[..numLines]
      invariant currentY == startY + (LineHeight * |rows|) as real
    {
      var right := if i + 1 < |keys| then Some(Cell(municipality, keys[i + 1])) else None;
      var row := Row(Cell(municipality, keys[i]), right);
      assert (rows + [row])[..|rows|] == rows;
      rows := rows + [row];
      numLines := numLines + 1;
      if i + 1 < |keys| {
        numLines := numLines + 1;
        assert keys[..numLines] == keys[..i] + [keys[i], keys[i + 1]];
      } else {
        assert keys[..numLines] == keys[..i] + [keys[i]];
      }
      currentY := currentY + LineHeight as real;
      i := i + 2;
    }
    assert keys[..numLines] == keys;
    totalHeight := numLines * LineHeight;
    endY := currentY;
  }
}

/** What the hash table means: its buckets as plain values, the history of its insertions, and the relation
    between the two that every insertion keeps. */
module TableSpec {
  import opened Basics
  import opened Hash

  type Pointer = nat   // a void pointer the table stores and never follows

  /** One node of a bucket: a key and the values under it, newest first. */
  datatype Cell = Cell(key: Key, values: seq<Pointer>)

  type Row = seq<Cell>
  type Shape = seq<Row>
  type Pair = (Key, Pointer)

  // ---- the history -------------------------------------------------------------------------------------

  /** The values inserted under `key`, newest first. */
  function NewestFirst(log: seq<Pair>, key: Key): seq<Pointer> {
    if log == [] then []
    else
      var last, before := log[|log| - 1], NewestFirst(log[..|log| - 1], key);
      if last.0 == key then [last.1] + before else before
  }

  /** The insertions that were the first for their key. */
  function Firsts(log: seq<Pair>): seq<Pair> {
    if log == [] then []
    else
      var last, before := log[|log| - 1], Firsts(log[..|log| - 1]);
      if NewestFirst(log[..|log| - 1], last.0) == [] then before + [last] else before
  }

  /** The insertions a table keeps: all of them, or only the first for each key. */
  function Kept(log: seq<Pair>, multi: bool): seq<Pair> {
    if multi then log else Firsts(log)
  }

  /** What a table holds under `key` after the insertions `log`. */
  function Held(log: seq<Pair>, key: Key, multi: bool): seq<Pointer> {
    var all := NewestFirst(log, key);
    if multi || all == [] then all else [all[|all| - 1]]
  }

  lemma NewestFirstStep(log: seq<Pair>, k: Key, v: Pointer, key: Key)
    ensures NewestFirst(log + [(k, v)], key) == if k == key then [v] + NewestFirst(log, key) else NewestFirst(log, key)
  {
    assert (log + [(k, v)])[..|log|] == log;
  }

  lemma FirstsStep(log: seq<Pair>, k: Key, v: Pointer)
    ensures Firsts(log + [(k, v)]) == if NewestFirst(log, k) == [] then Firsts(log) + [(k, v)] else Firsts(log)
  {
    assert (log + [(k, v)])[..|log|] == log;
  }

  // ---- buckets as values ---------------------------------------------------------------------------------

  /** The key and value pairs of a row, in the order they are met. */
  function PairsOf(key: Key, values: seq<Pointer>): seq<Pair> {
    seq(|values|, i requires 0 <= i < |values| => (key, values[i]))
  }

  function RowPairs(row: Row): seq<Pair> {
    if row == [] then [] else PairsOf(row[0].key, row[0].values) + RowPairs(row[1..])
  }

  function Pairs(shape: Shape): seq<Pair> {
    if shape == [] then [] else RowPairs(shape[0]) + Pairs(shape[1..])
  }

  /** The position of the cell for `key`, or the length of the row. */
  function Find(row: Row, key: Key): (j: nat)
    ensures j <= |row|
    ensures j < |row| ==> row[j].key == key
    ensures forall i :: 0 <= i < j ==> row[i].key != key
  {
    if row == [] then 0 else if row[0].key == key then 0 else 1 + Find(row[1..], key)
  }

  function RowInsert(row: Row, key: Key, v: Pointer, multi: bool): Row {
    var j := Find(row, key);
    if j == |row| then [Cell(key, [v])] + row
    else if multi then row[j := Cell(key, [v] + row[j].values)]
    else row
  }

  /** Cells sit in the bucket their hash selects, their keys are distinct, and they hold exactly what the
      history says; every inserted key has a cell. */
  ghost predicate Represents(shape: Shape, log: seq<Pair>, multi: bool, index: Key -> nat) {
    (forall key :: index(key) < |shape|) &&
    (forall i :: 0 <= i < |shape| ==> RowRepresents(shape[i], i, log, multi, index)) &&
    (forall key :: NewestFirst(log, key) != [] ==> HasCell(shape[index(key)], key))
  }

  predicate HasCell(row: Row, key: Key) { Find(row, key) < |row| }

  ghost predicate RowRepresents(row: Row, i: nat, log: seq<Pair>, multi: bool, index: Key -> nat)
  {
    DistinctKeys(row) &&
    (forall j :: 0 <= j < |row| ==> CellRepresents(row[j], i, log, multi, index))
  }

  ghost predicate DistinctKeys(row: Row) {
    forall j, k :: 0 <= j < k < |row| ==> row[j].key != row[k].key
  }

  ghost predicate CellRepresents(cell: Cell, i: nat, log: seq<Pair>, multi: bool, index: Key -> nat) {
    index(cell.key) == i && NewestFirst(log, cell.key) != [] && cell.values == Held(log, cell.key, multi)
  }

  /** Two cells of the table never have the same key. */
  lemma KeysDiffer(shape: Shape, log: seq<Pair>, multi: bool, index: Key -> nat, i: nat, j: nat, m: nat, n: nat)
    requires Represents(shape, log, multi, index)
    requires i < |shape| && j < |shape[i]| && m < |shape| && n < |shape[m]| && (i, j) != (m, n)
    ensures shape[i][j].key != shape[m][n].key
  {
    assert RowRepresents(shape[i], i, log, multi, index);
    assert RowRepresents(shape[m], m, log, multi, index);
    assert CellRepresents(shape[i][j], i, log, multi, index);
    assert CellRepresents(shape[m][n], m, log, multi, index);
  }

  /** Looking a key up in its bucket finds what the history says it holds. */
  lemma LookupIsHeld(shape: Shape, log: seq<Pair>, multi: bool, index: Key -> nat, key: Key)
    requires Represents(shape, log, multi, index)
    ensures var row := shape[index(key)];
      var j := Find(row, key);
      (j == |row| <==> NewestFirst(log, key) == []) && (j < |row| ==> row[j].values == Held(log, key, multi))
  {
    var i := index(key);
    assert RowRepresents(shape[i], i, log, multi, index);
    assert NewestFirst(log, key) != [] ==> HasCell(shape[i], key);
    var j := Find(shape[i], key);
    assert j < |shape[i]| ==> CellRepresents(shape[i][j], i, log, multi, index);
  }

  lemma HeldStep(log: seq<Pair>, k: Key, v: Pointer, key: Key, multi: bool)
    ensures Held(log + [(k, v)], key, multi) ==
      if k != key then Held(log, key, multi)
      else if multi || NewestFirst(log, k) == [] then [v] + Held(log, k, multi)
      else Held(log, k, multi)
  {
    NewestFirstStep(log, k, v, key);
  }

  /** What a cell of the new row must satisfy, for each of its three origins. */
  lemma InsertCell(row: Row, i: nat, log: seq<Pair>, k: Key, v: Pointer, multi: bool, index: Key -> nat, m: nat)
    requires RowRepresents(row, i, log, multi, index)
    requires index(k) == i && (NewestFirst(log, k) != [] <==> HasCell(row, k))
    requires m < |RowInsert(row, k, v, multi)|
    ensures CellRepresents(RowInsert(row, k, v, multi)[m], i, log + [(k, v)], multi, index)
  {
    var j, cell := Find(row, k), RowInsert(row, k, v, multi)[m];
    NewestFirstStep(log, k, v, cell.key);
    HeldStep(log, k, v, cell.key, multi);
    if j == |row| {
      if m > 0 {
        assert cell == row[m - 1];
        assert CellRepresents(row[m - 1], i, log, multi, index);
      } else {
        assert cell == Cell(k, [v]);
      }
    } else {
      assert CellRepresents(row[m], i, log, multi, index);
      if m == j && multi {
        assert cell == Cell(k, [v] + row[m].values);
      } else {
        assert cell == row[m];
      }
    }
  }

  lemma InsertRow(row: Row, i: nat, log: seq<Pair>, k: Key, v: Pointer, multi: bool, index: Key -> nat)
    requires RowRepresents(row, i, log, multi, index)
    requires index(k) == i && (NewestFirst(log, k) != [] <==> HasCell(row, k))
    ensures RowRepresents(RowInsert(row, k, v, multi), i, log + [(k, v)], multi, index)
  {
    var row' := RowInsert(row, k, v, multi);
    forall m | 0 <= m < |row'| ensures CellRepresents(row'[m], i, log + [(k, v)], multi, index) {
      InsertCell(row, i, log, k, v, multi, index, m);
    }
    InsertDistinct(row, k, v, multi);
  }

  lemma InsertDistinct(row: Row, k: Key, v: Pointer, multi: bool)
    requires DistinctKeys(row)
    ensures DistinctKeys(RowInsert(row, k, v, multi))
  {
    var row' := RowInsert(row, k, v, multi);
    if Find(row, k) == |row| {
      assert row' == [Cell(k, [v])] + row;
    } else {
      assert |row'| == |row| && forall j :: 0 <= j < |row| ==> row'[j].key == row[j].key;
    }
  }

  lemma FindKeeps(row: Row, k: Key, v: Pointer, multi: bool, key: Key)
    requires HasCell(row, key) || key == k
    ensures HasCell(RowInsert(row, k, v, multi), key)
  {
    var row', found := RowInsert(row, k, v, multi), Find(row, k) < |row|;
    var m := if key == k then (if found then Find(row, k) else 0)
             else if found then Find(row, key) else Find(row, key) + 1;
    assert row'[m].key == key;
  }

  /** An insertion turns buckets that represent a history into buckets that represent the longer one. */
  lemma InsertRepresents(shape: Shape, log: seq<Pair>, k: Key, v: Pointer, multi: bool, index: Key -> nat)
    requires Represents(shape, log, multi, index)
    ensures var i := index(k);
      Represents(shape[i := RowInsert(shape[i], k, v, multi)], log + [(k, v)], multi, index)
  {
    var i := index(k);
    var shape', log' := shape[i := RowInsert(shape[i], k, v, multi)], log + [(k, v)];
    assert RowRepresents(shape[i], i, log, multi, index);
    LookupIsHeld(shape, log, multi, index, k);
    InsertRow(shape[i], i, log, k, v, multi, index);
    forall m | 0 <= m < |shape'|
      ensures RowRepresents(shape'[m], m, log', multi, index)
    {
      assert RowRepresents(shape[m], m, log, multi, index);
      if m != i {
        forall j | 0 <= j < |shape[m]| ensures CellRepresents(shape[m][j], m, log', multi, index) {
          assert CellRepresents(shape[m][j], m, log, multi, index);
          NewestFirstStep(log, k, v, shape[m][j].key);
          HeldStep(log, k, v, shape[m][j].key, multi);
        }
      }
    }
    forall key | NewestFirst(log', key) != []
      ensures HasCell(shape'[index(key)], key)
    {
      NewestFirstStep(log, k, v, key);
      FindKeeps(shape[i], k, v, multi, k);
      if index(key) == i && key != k {
        assert HasCell(shape[i], key);
        FindKeeps(shape[i], k, v, multi, key);
      }
      assert key != k ==> HasCell(shape[index(key)], key);
    }
  }

  // ---- what is stored, as a whole ------------------------------------------------------------------------

  lemma {:induction false} RowPairsUpdate(row: Row, j: nat, v: Pointer)
    requires j < |row|
    ensures multiset(RowPairs(row[j := Cell(row[j].key, [v] + row[j].values)]))
         == multiset(RowPairs(row)) + multiset{(row[j].key, v)}
  {
    var cell := Cell(row[j].key, [v] + row[j].values);
    var row' := row[j := cell];
    if j == 0 {
      assert row'[1..] == row[1..];
      assert PairsOf(cell.key, cell.values) == [(cell.key, v)] + PairsOf(cell.key, row[0].values);
    } else {
      assert row'[1..] == row[1..][j - 1 := cell];
      RowPairsUpdate(row[1..], j - 1, v);
    }
  }

  /** An insertion that is kept adds one pair to its row, any other adds none. */
  lemma RowPairsInsert(row: Row, k: Key, v: Pointer, multi: bool)
    ensures multiset(RowPairs(RowInsert(row, k, v, multi)))
         == multiset(RowPairs(row)) + if multi || Find(row, k) == |row| then multiset{(k, v)} else multiset{}
  {
    var j := Find(row, k);
    if j == |row| {
      assert ([Cell(k, [v])] + row)[1..] == row;
      assert PairsOf(k, [v]) == [(k, v)];
    } else if multi {
      RowPairsUpdate(row, j, v);
    }
  }

  lemma {:induction false} PairsUpdate(shape: Shape, i: nat, row: Row)
    requires i < |shape|
    ensures multiset(Pairs(shape[i := row])) + multiset(RowPairs(shape[i]))
         == multiset(Pairs(shape)) + multiset(RowPairs(row))
  {
    if i == 0 {
      assert shape[i := row][1..] == shape[1..];
    } else {
      assert shape[i := row][1..] == shape[1..][i - 1 := row];
      PairsUpdate(shape[1..], i - 1, row);
      assert shape[1..][i - 1] == shape[i];
      calc {
        multiset(Pairs(shape[i := row])) + multiset(RowPairs(shape[i]));
        multiset(RowPairs(shape[0])) + (multiset(Pairs(shape[1..][i - 1 := row])) + multiset(RowPairs(shape[1..][i - 1])));
        multiset(RowPairs(shape[0])) + (multiset(Pairs(shape[1..])) + multiset(RowPairs(row)));
        multiset(Pairs(shape)) + multiset(RowPairs(row));
      }
    }
  }

  /** What the buckets hold is exactly what the history keeps, and an insertion keeps it so. */
  lemma InsertStores(shape: Shape, log: seq<Pair>, k: Key, v: Pointer, multi: bool, index: Key -> nat)
    requires Represents(shape, log, multi, index)
    requires multiset(Pairs(shape)) == multiset(Kept(log, multi))
    ensures var i := index(k);
      multiset(Pairs(shape[i := RowInsert(shape[i], k, v, multi)])) == multiset(Kept(log + [(k, v)], multi))
    ensures |Kept(log + [(k, v)], multi)| == |Kept(log, multi)| + if multi || NewestFirst(log, k) == [] then 1 else 0
  {
    var i := index(k);
    var row, added := RowInsert(shape[i], k, v, multi), multi || NewestFirst(log, k) == [];
    LookupIsHeld(shape, log, multi, index, k);
    PairsUpdate(shape, i, row);
    RowPairsInsert(shape[i], k, v, multi);
    KeptStep(log, k, v, multi);
    assert multiset(RowPairs(row)) == multiset(RowPairs(shape[i])) + if added then multiset{(k, v)} else multiset{};
    AddBoth(multiset(Pairs(shape[i := row])), multiset(Pairs(shape)), multiset(RowPairs(shape[i])),
            if added then multiset{(k, v)} else multiset{});
  }

  lemma AddBoth<T>(after: multiset<T>, before: multiset<T>, row: multiset<T>, more: multiset<T>)
    requires after + row == before + (row + more)
    ensures after == before + more
  {
    assert forall x :: x in after || x in before || x in more ==> (after + row)[x] == (before + (row + more))[x];
  }

  lemma KeptStep(log: seq<Pair>, k: Key, v: Pointer, multi: bool)
    ensures var added := multi || NewestFirst(log, k) == [];
      Kept(log + [(k, v)], multi) == if added then Kept(log, multi) + [(k, v)] else Kept(log, multi)
  {
    FirstsStep(log, k, v);
  }

  /** No key of one row is a key of the other. */
  ghost predicate Foreign(row: Row, other: Row) {
    forall i, j :: 0 <= i < |row| && 0 <= j < |other| ==> row[i].key != other[j].key
  }

  lemma RowsAreForeign(shape: Shape, log: seq<Pair>, multi: bool, index: Key -> nat, i: nat)
    requires Represents(shape, log, multi, index) && i < |shape|
    ensures DistinctKeys(shape[i]) && forall m :: 0 <= m < |shape| && m != i ==> Foreign(shape[i], shape[m])
  {
    assert RowRepresents(shape[i], i, log, multi, index);
    forall m | 0 <= m < |shape| && m != i ensures Foreign(shape[i], shape[m]) {
      forall j, n | 0 <= j < |shape[i]| && 0 <= n < |shape[m]| ensures shape[i][j].key != shape[m][n].key {
        KeysDiffer(shape, log, multi, index, i, j, m, n);
      }
    }
  }

  /** All that an insertion means for the buckets: where the key may be, and what comes out. */
  lemma InsertMeans(shape: Shape, log: seq<Pair>, k: Key, v: Pointer, multi: bool, index: Key -> nat)
    requires Represents(shape, log, multi, index)
    requires multiset(Pairs(shape)) == multiset(Kept(log, multi))
    ensures var i := index(k);
      DistinctKeys(shape[i]) && (forall m :: 0 <= m < |shape| && m != i ==> Foreign(shape[i], shape[m])) &&
      var shape' := shape[i := RowInsert(shape[i], k, v, multi)];
      Represents(shape', log + [(k, v)], multi, index) &&
      multiset(Pairs(shape')) == multiset(Kept(log + [(k, v)], multi)) &&
      |Kept(log + [(k, v)], multi)| == |Kept(log, multi)| + if multi || !HasCell(shape[i], k) then 1 else 0
  {
    RowsAreForeign(shape, log, multi, index, index(k));
    LookupIsHeld(shape, log, multi, index, k);
    InsertRepresents(shape, log, k, v, multi, index);
    InsertStores(shape, log, k, v, multi, index);
  }

  lemma NothingRepresents(shape: Shape, multi: bool, index: Key -> nat)
    requires (forall i :: 0 <= i < |shape| ==> shape[i] == []) && forall key :: index(key) < |shape|
    ensures Represents(shape, [], multi, index)
  {
  }

  // ---- reading the buckets off in order -------------------------------------------------------------------

  lemma {:induction false} RowPairsAppend(row: Row, cell: Cell)
    ensures RowPairs(row + [cell]) == RowPairs(row) + PairsOf(cell.key, cell.values)
  {
    if row == [] {
      assert row + [cell] == [cell];
    } else {
      assert (row + [cell])[1..] == row[1..] + [cell];
      RowPairsAppend(row[1..], cell);
    }
  }

  lemma {:induction false} PairsAppend(shape: Shape, row: Row)
    ensures Pairs(shape + [row]) == Pairs(shape) + RowPairs(row)
  {
    if shape == [] {
      assert shape + [row] == [row];
    } else {
      assert (shape + [row])[1..] == shape[1..] + [row];
      PairsAppend(shape[1..], row);
    }
  }

  lemma {:induction false} PairsOfNothing(shape: Shape)
    requires forall i :: 0 <= i < |shape| ==> shape[i] == []
    ensures Pairs(shape) == []
  {
    if shape != [] {
      PairsOfNothing(shape[1..]);
    }
  }

  lemma PairsStep(shape: Shape, i: nat)
    requires i < |shape|
    ensures Pairs(shape[..i + 1]) == Pairs(shape[..i]) + RowPairs(shape[i])
  {
    assert shape[..i + 1] == shape[..i] + [shape[i]];
    PairsAppend(shape[..i], shape[i]);
  }

  /** The values of a sequence of pairs. */
  function ValuesOf(pairs: seq<Pair>): (values: seq<Pointer>)
    ensures |values| == |pairs| && forall i :: 0 <= i < |pairs| ==> values[i] == pairs[i].1
  {
    seq(|pairs|, i requires 0 <= i < |pairs| => pairs[i].1)
  }

  lemma ValuesOfAppend(a: seq<Pair>, b: seq<Pair>)
    ensures ValuesOf(a + b) == ValuesOf(a) + ValuesOf(b)
  {
  }

  lemma RowValuesStep(row: Row, i: nat)
    requires i < |row|
    ensures ValuesOf(RowPairs(row[..i + 1])) == ValuesOf(RowPairs(row[..i])) + ValuesOf(PairsOf(row[i].key, row[i].values))
  {
    assert row[..i + 1] == row[..i] + [row[i]];
    RowPairsAppend(row[..i], row[i]);
    ValuesOfAppend(RowPairs(row[..i]), PairsOf(row[i].key, row[i].values));
  }

  lemma ValuesStep(shape: Shape, i: nat)
    requires i < |shape|
    ensures ValuesOf(Pairs(shape[..i + 1])) == ValuesOf(Pairs(shape[..i])) + ValuesOf(RowPairs(shape[i]))
  {
    PairsStep(shape, i);
    ValuesOfAppend(Pairs(shape[..i]), RowPairs(shape[i]));
  }

  /** The history decides the buckets' contents: the oldest value is the one a single-valued table keeps. */
  lemma {:induction false} OldestIsFirst(log: seq<Pair>, key: Key, i: nat)
    requires i < |log| && log[i].0 == key && forall j :: 0 <= j < i ==> log[j].0 != key
    ensures var all := NewestFirst(log, key); all != [] && all[|all| - 1] == log[i].1
    decreases |log|
  {
    var front := log[..|log| - 1];
    if i == |log| - 1 {
      NoValues(front, key);
    } else {
      OldestIsFirst(front, key, i);
    }
  }

  lemma {:induction false} NoValues(log: seq<Pair>, key: Key)
    ensures NewestFirst(log, key) == [] <==> forall j :: 0 <= j < |log| ==> log[j].0 != key
    decreases |log|
  {
    if log != [] {
      NoValues(log[..|log| - 1], key);
    }
  }

  /** And the newest is in front. */
  lemma {:induction false} NewestIsFront(log: seq<Pair>, key: Key, i: nat)
    requires i < |log| && log[i].0 == key && forall j :: i < j < |log| ==> log[j].0 != key
    ensures var all := NewestFirst(log, key); all != [] && all[0] == log[i].1
    ensures NewestFirst(log, key)[1..] == NewestFirst(log[..i], key)
    decreases |log|
  {
    if i == |log| - 1 {
    } else {
      NewestIsFront(log[..|log| - 1], key, i);
      assert log[..|log| - 1][..i] == log[..i];
    }
  }
}

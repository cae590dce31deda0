/** The buckets of src/table.c on the heap: intrusive lists of entries, each entry with an intrusive list of values
    of its own; how a bucket is searched, inserted into and traversed. The heap refines the buckets-as-values of
    TableSpec. */
module TableBuckets {
  import opened Basics
  import opened Hash
  import opened IntrusiveList
  import opened TableSpec

  /** ccbucket_node_t without its list links: a key, and the two members of the union. */
  class Entry {
    const key: Key
    const one: Option<Pointer>    // used by a table with one value per key
    const many: List<Pointer>     // used by a table with many values per key

    constructor (key: Key, one: Option<Pointer>)
      ensures this.key == key && this.one == one
      ensures many.Valid() && many.nodes == [] && many.holder == this && fresh(many) && fresh(many.head)
    {
      this.key, this.one := key, one;
      many := new List<Pointer>();
      new;
      many.holder := this;
    }
  }

  /** What the entry of a node means. Its list of values belongs to it alone. */
  ghost predicate EntryOk(e: Entry, cell: Cell, multi: bool)
    reads e.many, e.many.head, e.many.nodes
  {
    e.many.Valid() && e.many.holder == e && e.key == cell.key &&
    if multi then Items(e.many.nodes) == cell.values else e.one.Some? && cell.values == [e.one.value]
  }

  ghost predicate ListIn<T>(l: List<T>, repr: set<object>)
    reads repr
  {
    l in repr && l.head in repr && forall n <- l.nodes :: n in repr
  }

  ghost predicate EntryIn(e: Entry, cell: Cell, multi: bool, repr: set<object>)
    reads repr
  {
    ListIn(e.many, repr) && EntryOk(e, cell, multi)
  }

  /** A bucket whose objects all belong to `repr`, and what it holds. */
  ghost predicate BucketIn(b: List<Entry>, row: Row, multi: bool, repr: set<object>)
    reads repr
  {
    ListIn(b, repr) && b.Valid() && |b.nodes| == |row| &&
    forall j :: 0 <= j < |row| ==> EntryIn(b.nodes[j].item.value, row[j], multi, repr)
  }

  ghost predicate MatchIn(buckets: seq<List<Entry>>, shape: Shape, multi: bool, repr: set<object>)
    reads repr
  {
    |shape| == |buckets| && Distinct(buckets) &&
    forall i :: 0 <= i < |buckets| ==> BucketIn(buckets[i], shape[i], multi, repr)
  }

  /** The value lists of a run of nodes. */
  ghost function Lists(nodes: seq<Node<Entry>>): set<List<Pointer>> {
    set n | n in nodes && n.item.Some? :: n.item.value.many
  }

  /** Buckets without a key in common have no value list in common. */
  lemma ListsApart(b: List<Entry>, row: Row, c: List<Entry>, r: Row, multi: bool, repr: set<object>)
    requires BucketIn(b, row, multi, repr) && BucketIn(c, r, multi, repr) && Foreign(row, r)
    ensures forall j :: 0 <= j < |r| ==> c.nodes[j].item.value.many !in Lists(b.nodes)
  {
    forall j | 0 <= j < |r| ensures c.nodes[j].item.value.many !in Lists(b.nodes) {
      assert EntryIn(c.nodes[j].item.value, r[j], multi, repr);
      forall i | 0 <= i < |row| ensures b.nodes[i].item.value.many != c.nodes[j].item.value.many {
        assert EntryIn(b.nodes[i].item.value, row[i], multi, repr);
      }
    }
  }

  /** The search loop shared by insertion and lookup. */
  method Search(b: List<Entry>, key: Key, ghost row: Row, ghost multi: bool, ghost repr: set<object>) returns (node: Node?<Entry>)
    requires BucketIn(b, row, multi, repr)
    ensures node == var j := Find(row, key); if j == |row| then null else b.nodes[j]
  {
    node := b.First();
    ghost var j := 0;
    while node != null
      invariant j <= |row| && node == if j == |row| then null else b.nodes[j]
      invariant forall m :: 0 <= m < j ==> row[m].key != key
      decreases |row| - j
    {
      assert EntryOk(b.nodes[j].item.value, row[j], multi);
      if node.item.value.key == key {
        return;
      }
      node := b.Next(node);
      j := j + 1;
    }
  }

  /** Puts a value in front of an entry's list. Every other list of values stays as it is. */
  method AddValue(e: Entry, value: Pointer)
    requires e.many.Valid()
    modifies e.many, e.many.head, e.many.nodes
    ensures e.many.Valid() && e.many.holder == old(e.many.holder)
    ensures Items(e.many.nodes) == [value] + old(Items(e.many.nodes))
    ensures |e.many.nodes| == |old(e.many.nodes)| + 1 && fresh(e.many.nodes[0]) && e.many.nodes[1..] == old(e.many.nodes)
    ensures forall l: List<Pointer> :: old(allocated(l)) && l != e.many && old(l.Valid()) ==>
      l.Valid() && l.nodes == old(l.nodes) && l.holder == old(l.holder)
  {
    var node := new Node<Pointer>(Some(value));
    e.many.InsertFirst(node);
    forall l: List<Pointer> | old(allocated(l)) && l != e.many && old(l.Valid())
      ensures l.Valid() && l.nodes == old(l.nodes) && l.holder == old(l.holder)
    {
      assert forall n <- l.nodes :: old(allocated(n));
    }
  }

  /** Links an entry in front of a bucket. Every other bucket stays as it is. */
  method LinkEntry(b: List<Entry>, entry: Entry) returns (node: Node<Entry>)
    requires b.Valid()
    modifies b, b.head, b.nodes
    ensures b.Valid() && b.nodes == [node] + old(b.nodes) && fresh(node) && node.item == Some(entry)
    ensures forall c: List<Entry> :: old(allocated(c)) && c != b && old(c.Valid()) ==> c.Valid() && c.nodes == old(c.nodes)
    ensures forall l: List<Pointer> :: old(allocated(l)) && old(l.Valid()) ==>
      l.Valid() && l.nodes == old(l.nodes) && l.holder == old(l.holder)
  {
    node := new Node<Entry>(Some(entry));
    b.InsertFirst(node);
    forall c: List<Entry> | old(allocated(c)) && c != b && old(c.Valid()) ensures c.Valid() && c.nodes == old(c.nodes) {
      assert forall n <- c.nodes :: old(allocated(n));
    }
    forall l: List<Pointer> | old(allocated(l)) && old(l.Valid())
      ensures l.Valid() && l.nodes == old(l.nodes) && l.holder == old(l.holder)
    {
    }
  }

  /** A bucket with an entry in front of the nodes it had. */
  lemma BucketInFront(b: List<Entry>, node: Node<Entry>, tail: seq<Node<Entry>>, cell: Cell, row: Row, multi: bool,
                      repr: set<object>)
    requires ListIn(b, repr) && b.Valid() && b.nodes == [node] + tail && |tail| == |row|
    requires EntryIn(node.item.value, cell, multi, repr)
    requires forall j :: 0 <= j < |row| ==> EntryIn(tail[j].item.value, row[j], multi, repr)
    ensures BucketIn(b, [cell] + row, multi, repr)
  {
    forall j | 0 <= j < |row| + 1 ensures EntryIn(b.nodes[j].item.value, ([cell] + row)[j], multi, repr) {
      if j > 0 {
        assert b.nodes[j] == tail[j - 1];
      }
    }
  }

  /** The only value for a key. */
  method InsertOnly(b: List<Entry>, key: Key, value: Pointer, ghost row: Row, ghost repr: set<object>)
    returns (ghost repr': set<object>)
    requires BucketIn(b, row, false, repr)
    modifies b, b.head, b.nodes
    ensures BucketIn(b, [Cell(key, [value])] + row, false, repr') && repr <= repr' && fresh(repr' - repr)
    ensures forall c: List<Entry> :: old(allocated(c)) && c != b && old(c.Valid()) ==> c.Valid() && c.nodes == old(c.nodes)
    ensures forall l: List<Pointer> :: old(allocated(l)) && old(l.Valid()) ==>
      l.Valid() && l.nodes == old(l.nodes) && l.holder == old(l.holder)
  {
    ghost var tail := b.nodes;
    var entry := new Entry(key, Some(value));
    var node := LinkEntry(b, entry);
    repr' := repr + {entry.many, entry.many.head, node};
    forall j | 0 <= j < |row| ensures EntryIn(tail[j].item.value, row[j], false, repr') {
      assert old(EntryIn(tail[j].item.value, row[j], false, repr));
    }
    BucketInFront(b, node, tail, Cell(key, [value]), row, false, repr');
  }

  /** cctable_insert_single after the bucket has been selected. */
  method InsertSingle(b: List<Entry>, key: Key, value: Pointer, ghost row: Row, ghost repr: set<object>)
    returns (added: bool, ghost repr': set<object>)
    requires BucketIn(b, row, false, repr)
    modifies b, b.head, b.nodes
    ensures BucketIn(b, RowInsert(row, key, value, false), false, repr') && repr <= repr' && fresh(repr' - repr)
    ensures added <==> !HasCell(row, key)
    ensures forall c: List<Entry> :: old(allocated(c)) && c != b && old(c.Valid()) ==> c.Valid() && c.nodes == old(c.nodes)
    ensures forall l: List<Pointer> :: old(allocated(l)) && old(l.Valid()) ==>
      l.Valid() && l.nodes == old(l.nodes) && l.holder == old(l.holder)
  {
    var node := Search(b, key, row, false, repr);
    added := node == null;
    if added {
      repr' := InsertOnly(b, key, value, row, repr);
    } else {
      repr' := repr;
    }
  }

  /** A further value for a key that has an entry. */
  method InsertFurther(b: List<Entry>, node: Node<Entry>, value: Pointer, ghost row: Row, ghost j: nat, ghost repr: set<object>)
    returns (ghost repr': set<object>)
    requires BucketIn(b, row, true, repr) && DistinctKeys(row) && j < |row| && node == b.nodes[j] && node.item.Some?
    modifies node.item.value.many, node.item.value.many.head, node.item.value.many.nodes
    ensures BucketIn(b, row[j := Cell(row[j].key, [value] + row[j].values)], true, repr')
    ensures repr <= repr' && fresh(repr' - repr)
    ensures forall c: List<Entry> :: old(allocated(c)) && old(c.Valid()) ==> c.Valid() && c.nodes == old(c.nodes)
    ensures forall l: List<Pointer> :: old(allocated(l)) && l !in Lists(old(b.nodes)) && old(l.Valid()) ==>
      l.Valid() && l.nodes == old(l.nodes) && l.holder == old(l.holder)
  {
    ghost var row' := row[j := Cell(row[j].key, [value] + row[j].values)];
    assert EntryIn(node.item.value, row[j], true, repr) && node.item.value.many in Lists(b.nodes);
    AddValue(node.item.value, value);
    repr' := repr + {node.item.value.many.nodes[0]};
    forall m | 0 <= m < |row'| ensures EntryIn(b.nodes[m].item.value, row'[m], true, repr') {
      assert old(EntryIn(b.nodes[m].item.value, row[m], true, repr));
      assert m != j ==> row[m].key != row[j].key;
    }
  }

  /** Makes an entry, links it, and then puts the value into its list (lines 130-137). */
  method LinkNew(b: List<Entry>, key: Key, value: Pointer) returns (entry: Entry, node: Node<Entry>)
    requires b.Valid()
    modifies b, b.head, b.nodes
    ensures b.Valid() && b.nodes == [node] + old(b.nodes) && fresh(node) && node.item == Some(entry)
    ensures EntryOk(entry, Cell(key, [value]), true)
    ensures fresh(entry.many) && fresh(entry.many.head) && forall n <- entry.many.nodes :: fresh(n)
    ensures forall c: List<Entry> :: old(allocated(c)) && c != b && old(c.Valid()) ==> c.Valid() && c.nodes == old(c.nodes)
    ensures forall l: List<Pointer> :: old(allocated(l)) && old(l.Valid()) ==>
      l.Valid() && l.nodes == old(l.nodes) && l.holder == old(l.holder)
  {
    entry := new Entry(key, None);
    node := LinkEntry(b, entry);
    AddValue(entry, value);
  }

  /** The first value for a key. */
  method InsertNew(b: List<Entry>, key: Key, value: Pointer, ghost row: Row, ghost repr: set<object>)
    returns (ghost repr': set<object>)
    requires BucketIn(b, row, true, repr)
    modifies b, b.head, b.nodes
    ensures BucketIn(b, [Cell(key, [value])] + row, true, repr') && repr <= repr' && fresh(repr' - repr)
    ensures forall c: List<Entry> :: old(allocated(c)) && c != b && old(c.Valid()) ==> c.Valid() && c.nodes == old(c.nodes)
    ensures forall l: List<Pointer> :: old(allocated(l)) && old(l.Valid()) ==>
      l.Valid() && l.nodes == old(l.nodes) && l.holder == old(l.holder)
  {
    ghost var tail := b.nodes;
    var entry, node := LinkNew(b, key, value);
    repr' := repr + {entry.many, entry.many.head, node} + (set n | n in entry.many.nodes);
    forall j | 0 <= j < |row| ensures EntryIn(tail[j].item.value, row[j], true, repr') {
      assert old(EntryIn(tail[j].item.value, row[j], true, repr));
    }
    BucketInFront(b, node, tail, Cell(key, [value]), row, true, repr');
  }

  /** cctable_insert_many after the bucket has been selected. */
  method InsertMany(b: List<Entry>, key: Key, value: Pointer, ghost row: Row, ghost repr: set<object>)
    returns (ghost repr': set<object>)
    requires BucketIn(b, row, true, repr) && DistinctKeys(row)
    modifies repr
    ensures BucketIn(b, RowInsert(row, key, value, true), true, repr') && repr <= repr' && fresh(repr' - repr)
    ensures forall c: List<Entry> :: old(allocated(c)) && c != b && old(c.Valid()) ==> c.Valid() && c.nodes == old(c.nodes)
    ensures forall l: List<Pointer> :: old(allocated(l)) && l !in Lists(old(b.nodes)) && old(l.Valid()) ==>
      l.Valid() && l.nodes == old(l.nodes) && l.holder == old(l.holder)
  {
    var node := Search(b, key, row, true, repr);
    if node != null {
      repr' := InsertFurther(b, node, value, row, Find(row, key), repr);
      return;
    }
    repr' := InsertNew(b, key, value, row, repr);
  }

  function SelectBucket(signed: bool, capacity: nat): Key -> nat
    requires capacity > 0
  {
    key => BucketIndex(key, signed, capacity)
  }

  /** The loop of cctable_init. */
  method NewBuckets(capacity: nat) returns (buckets: seq<List<Entry>>)
    ensures |buckets| == capacity && Distinct(buckets)
    ensures forall b <- buckets :: b.Valid() && b.nodes == [] && fresh(b) && fresh(b.head)
  {
    buckets := [];
    while |buckets| < capacity
      invariant |buckets| <= capacity && Distinct(buckets)
      invariant forall b <- buckets :: b.Valid() && b.nodes == [] && fresh(b) && fresh(b.head)
    {
      var bucket := new List<Entry>();
      buckets := buckets + [bucket];
    }
  }

  lemma EmptyMatch(buckets: seq<List<Entry>>, shape: Shape, multi: bool, repr: set<object>)
    requires Distinct(buckets) && |shape| == |buckets| && forall i :: 0 <= i < |shape| ==> shape[i] == []
    requires forall b <- buckets :: b.Valid() && b.nodes == [] && b in repr && b.head in repr
    ensures MatchIn(buckets, shape, multi, repr)
  {
  }

  method EmptyBuckets(capacity: nat, ghost multi: bool)
    returns (buckets: seq<List<Entry>>, ghost shape: Shape, ghost repr: set<object>)
    ensures |buckets| == capacity && MatchIn(buckets, shape, multi, repr) && fresh(repr)
    ensures forall i :: 0 <= i < |shape| ==> shape[i] == []
  {
    buckets := NewBuckets(capacity);
    shape := seq(capacity, _ => []);
    repr := (set b: List<Entry> | b in buckets :: b as object) + (set b: List<Entry> | b in buckets :: b.head as object);
    EmptyMatch(buckets, shape, multi, repr);
  }

  /** A bucket whose nodes and value lists are as they were means what it did. */
  lemma BucketKept(b: List<Entry>, row: Row, multi: bool, repr: set<object>)
    requires ListIn(b, repr) && b.Valid() && |b.nodes| == |row|
    requires forall j :: 0 <= j < |row| ==> EntryIn(b.nodes[j].item.value, row[j], multi, repr)
    ensures BucketIn(b, row, multi, repr)
  {
  }

  lemma MatchUpdate(buckets: seq<List<Entry>>, shape: Shape, i: nat, row: Row, multi: bool, repr: set<object>)
    requires |shape| == |buckets| && Distinct(buckets) && i < |buckets| && BucketIn(buckets[i], row, multi, repr)
    requires forall m :: 0 <= m < |buckets| && m != i ==> BucketIn(buckets[m], shape[m], multi, repr)
    ensures MatchIn(buckets, shape[i := row], multi, repr)
  {
  }

  /** Inserts into the bucket that was selected; the others keep their meaning. */
  method InsertIntoMany(buckets: seq<List<Entry>>, i: nat, key: Key, value: Pointer, ghost shape: Shape, ghost repr: set<object>)
    returns (ghost repr': set<object>)
    requires MatchIn(buckets, shape, true, repr) && i < |buckets| && DistinctKeys(shape[i])
    requires forall m :: 0 <= m < |shape| && m != i ==> Foreign(shape[i], shape[m])
    modifies repr
    ensures MatchIn(buckets, shape[i := RowInsert(shape[i], key, value, true)], true, repr')
    ensures repr <= repr' && fresh(repr' - repr)
  {
    forall m | 0 <= m < |buckets| && m != i
      ensures forall j :: 0 <= j < |shape[m]| ==> buckets[m].nodes[j].item.value.many !in Lists(buckets[i].nodes)
    {
      ListsApart(buckets[i], shape[i], buckets[m], shape[m], true, repr);
    }
    assert BucketIn(buckets[i], shape[i], true, repr);
    repr' := InsertMany(buckets[i], key, value, shape[i], repr);
    forall m | 0 <= m < |buckets| && m != i ensures BucketIn(buckets[m], shape[m], true, repr') {
      assert old(BucketIn(buckets[m], shape[m], true, repr));
      forall j | 0 <= j < |shape[m]| ensures EntryIn(buckets[m].nodes[j].item.value, shape[m][j], true, repr') {
        assert old(EntryIn(buckets[m].nodes[j].item.value, shape[m][j], true, repr));
      }
      BucketKept(buckets[m], shape[m], true, repr');
    }
    MatchUpdate(buckets, shape, i, RowInsert(shape[i], key, value, true), true, repr');
  }

  method InsertIntoSingle(buckets: seq<List<Entry>>, i: nat, key: Key, value: Pointer, ghost shape: Shape, ghost repr: set<object>)
    returns (added: bool, ghost repr': set<object>)
    requires MatchIn(buckets, shape, false, repr) && i < |buckets|
    modifies repr
    ensures MatchIn(buckets, shape[i := RowInsert(shape[i], key, value, false)], false, repr')
    ensures repr <= repr' && fresh(repr' - repr) && (added <==> !HasCell(shape[i], key))
  {
    assert BucketIn(buckets[i], shape[i], false, repr);
    added, repr' := InsertSingle(buckets[i], key, value, shape[i], repr);
    forall m | 0 <= m < |buckets| && m != i ensures BucketIn(buckets[m], shape[m], false, repr') {
      assert old(BucketIn(buckets[m], shape[m], false, repr));
      forall j | 0 <= j < |shape[m]| ensures EntryIn(buckets[m].nodes[j].item.value, shape[m][j], false, repr') {
        assert old(EntryIn(buckets[m].nodes[j].item.value, shape[m][j], false, repr));
      }
      BucketKept(buckets[m], shape[m], false, repr');
    }
    MatchUpdate(buckets, shape, i, RowInsert(shape[i], key, value, false), false, repr');
  }

  /** Inserts in the way the table asks for. */
  method InsertInto(buckets: seq<List<Entry>>, i: nat, key: Key, value: Pointer, multi: bool, ghost shape: Shape,
                    ghost repr: set<object>)
    returns (added: bool, ghost repr': set<object>)
    requires MatchIn(buckets, shape, multi, repr) && i < |buckets| && DistinctKeys(shape[i])
    requires forall m :: 0 <= m < |shape| && m != i ==> Foreign(shape[i], shape[m])
    modifies repr
    ensures MatchIn(buckets, shape[i := RowInsert(shape[i], key, value, multi)], multi, repr')
    ensures repr <= repr' && fresh(repr' - repr)
    ensures added <==> multi || !HasCell(shape[i], key)
  {
    if multi {
      repr' := InsertIntoMany(buckets, i, key, value, shape, repr);
      added := true;
    } else {
      added, repr' := InsertIntoSingle(buckets, i, key, value, shape, repr);
    }
  }

  // ---- iteration --------------------------------------------------------------------------

  /** The callbacks for one entry. */
  method IterEntry(e: Entry, multi: bool, ghost cell: Cell) returns (calls: seq<Pair>)
    requires EntryOk(e, cell, multi)
    ensures calls == PairsOf(cell.key, cell.values)
  {
    if !multi {
      return [(e.key, e.one.value)];
    }
    calls := [];
    var value := e.many.First();
    ghost var j := 0;
    while value != null
      invariant j <= |cell.values| && value == if j == |cell.values| then null else e.many.nodes[j]
      invariant calls == PairsOf(cell.key, cell.values[..j])
      decreases |cell.values| - j
    {
      calls := calls + [(e.key, value.item.value)];
      assert cell.values[..j + 1] == cell.values[..j] + [cell.values[j]];
      value := e.many.Next(value);
      j := j + 1;
    }
    assert cell.values[..j] == cell.values;
  }

  method IterBucket(b: List<Entry>, multi: bool, ghost row: Row, ghost repr: set<object>) returns (calls: seq<Pair>)
    requires BucketIn(b, row, multi, repr)
    ensures calls == RowPairs(row)
  {
    calls := [];
    var node := b.First();
    ghost var j := 0;
    while node != null
      invariant j <= |row| && node == if j == |row| then null else b.nodes[j]
      invariant calls == RowPairs(row[..j])
      decreases |row| - j
    {
      assert EntryOk(b.nodes[j].item.value, row[j], multi);
      var more := IterEntry(node.item.value, multi, row[j]);
      calls := calls + more;
      assert row[..j + 1] == row[..j] + [row[j]];
      RowPairsAppend(row[..j], row[j]);
      node := b.Next(node);
      j := j + 1;
    }
    assert row[..j] == row;
  }
}

/** How src/table.c takes its buckets apart: what the caller's destructor is handed, and what is freed. */
module TableTeardown {
  import opened Basics
  import opened Hash
  import opened IntrusiveList
  import opened TableSpec
  import opened TableBuckets

  /** What is freed: the node of a value, or the node of an entry with the entry in it. */
  datatype Freed = ValueNode(value: Node<Pointer>) | EntryNode(entry: Node<Entry>)

  /** A node of a bucket, and the nodes of its list of values. */
  datatype Block = Block(node: Node<Entry>, values: seq<Node<Pointer>>)

  ghost function Blocks(nodes: seq<Node<Entry>>): (blocks: seq<Block>)
    requires forall n <- nodes :: n.item.Some?
    reads Lists(nodes)
    ensures |blocks| == |nodes|
    ensures forall j :: 0 <= j < |nodes| ==> blocks[j] == Block(nodes[j], nodes[j].item.value.many.nodes)
  {
    seq(|nodes|, j requires 0 <= j < |nodes| reads Lists(nodes) => Block(nodes[j], nodes[j].item.value.many.nodes))
  }

  lemma FreedStep(blocks: seq<Block>, i: nat, multi: bool)
    requires i < |blocks|
    ensures FreedBy(blocks[..i + 1], multi) == FreedBy(blocks[..i], multi) + FreedOne(blocks[i], multi)
  {
    assert blocks[..i + 1][..i] == blocks[..i];
  }

  /** The values of an entry are freed before the entry. */
  function FreedOne(block: Block, multi: bool): seq<Freed> {
    (if multi then seq(|block.values|, i requires 0 <= i < |block.values| => ValueNode(block.values[i])) else [])
    + [EntryNode(block.node)]
  }

  function FreedBy(blocks: seq<Block>, multi: bool): seq<Freed> {
    if blocks == [] then []
    else FreedBy(blocks[..|blocks| - 1], multi) + FreedOne(blocks[|blocks| - 1], multi)
  }

  /** node_destructor_single and node_destructor_many: what the caller's destructor is handed, and what is freed. */
  method DestroyNode(node: Node<Entry>, multi: bool, des: bool, ghost cell: Cell)
    returns (destroyed: seq<Pointer>, ghost freed: seq<Freed>)
    requires node.item.Some? && EntryOk(node.item.value, cell, multi)
    modifies node`prev, node`next, node.item.value.many, node.item.value.many.head, node.item.value.many.nodes
    ensures destroyed == if des then ValuesOf(PairsOf(cell.key, cell.values)) else []
    ensures freed == FreedOne(Block(node, old(node.item.value.many.nodes)), multi)
    ensures forall n: Node<Entry> :: old(allocated(n)) && n != node ==>
      n.next == old(n.next) && n.prev == old(n.prev) && n.owner == old(n.owner)
    ensures forall c: List<Entry> :: old(allocated(c)) ==> c.nodes == old(c.nodes) && c.size == old(c.size)
    ensures forall l: List<Pointer> :: old(allocated(l)) && l != node.item.value.many && old(l.Valid()) ==>
      l.Valid() && l.nodes == old(l.nodes) && l.holder == old(l.holder)
  {
    ghost var block := Block(node, node.item.value.many.nodes);
    ghost var values: seq<Node<Pointer>> := [];
    if multi {
      destroyed, values := node.item.value.many.Clear(true);
      destroyed := if des then destroyed else [];
    } else {
      destroyed := if des then [node.item.value.one.value] else [];
    }
    node.prev, node.next := null, null;
    freed := FreedOne(block, multi);
  }

  /** A bucket that is being cleared, with the nodes from `i` on still to come. */
  ghost predicate Remaining(b: List<Entry>, ring: seq<Node<Entry>>, blocks: seq<Block>, i: nat, row: Row, multi: bool,
                            repr: set<object>)
    reads repr
  {
    b in repr && b.head in repr && (forall n <- ring :: n in repr) && b.head.owner == b &&
    |ring| == |row| + 2 && |blocks| == |row| &&
    (forall j {:trigger ring[j].next} :: i < j < |row| + 1 ==> ring[j].next == ring[j + 1]) &&
    forall j :: i <= j < |row| ==> BlockIn(b, blocks[j], row[j], multi, repr)
  }

  /** A block of the bucket that has not been destroyed. */
  ghost predicate BlockIn(b: List<Entry>, block: Block, cell: Cell, multi: bool, repr: set<object>)
    reads repr
  {
    block.node in repr && block.node.item.Some? && block.node.owner == b &&
    EntryIn(block.node.item.value, cell, multi, repr) && block.node.item.value.many.nodes == block.values
  }

  /** One turn of the loop of cclist_clear: the successor is read before the node is destroyed. */
  method DestroyFirst(b: List<Entry>, node: Node<Entry>, multi: bool, des: bool,
                      ghost ring: seq<Node<Entry>>, ghost blocks: seq<Block>, ghost i: nat, ghost row: Row, ghost repr: set<object>)
    returns (next: Node<Entry>, destroyed: seq<Pointer>, ghost freed: seq<Freed>)
    requires Remaining(b, ring, blocks, i, row, multi, repr) && i < |row| && node == blocks[i].node == ring[i + 1]
    requires forall j :: i < j < |row| ==> blocks[j].node != node && row[j].key != row[i].key
    requires forall j :: i + 1 < j < |ring| ==> ring[j] != node
    modifies repr
    ensures Remaining(b, ring, blocks, i + 1, row, multi, repr) && next == ring[i + 2]
    ensures destroyed == if des then ValuesOf(PairsOf(row[i].key, row[i].values)) else []
    ensures freed == FreedOne(blocks[i], multi)
    ensures forall c: List<Entry> :: old(allocated(c)) && c != b && old(c.Valid()) ==> c.Valid() && c.nodes == old(c.nodes)
    ensures forall l: List<Pointer> :: old(allocated(l)) && l != node.item.value.many && old(l.Valid()) ==>
      l.Valid() && l.nodes == old(l.nodes) && l.holder == old(l.holder)
  {
    assert BlockIn(b, blocks[i], row[i], multi, repr);
    next := node.next;
    destroyed, freed := DestroyNode(node, multi, des, row[i]);
    forall j | i + 1 <= j < |row| ensures BlockIn(b, blocks[j], row[j], multi, repr) {
      assert old(BlockIn(b, blocks[j], row[j], multi, repr));
    }
  }

  /** The end of cclist_clear. */
  method Reset(b: List<Entry>)
    requires b.head.owner == b
    modifies b`size, b`nodes, b.head`next, b.head`prev
    ensures forall c: List<Entry> :: old(allocated(c)) && c != b && old(c.Valid()) ==> c.Valid() && c.nodes == old(c.nodes)
    ensures forall l: List<Pointer> :: old(allocated(l)) && old(l.Valid()) ==>
      l.Valid() && l.nodes == old(l.nodes) && l.holder == old(l.holder)
  {
    b.Reinit();
  }

  /** What has been handed over and freed after `i` turns. */
  ghost predicate Sofar(destroyed: seq<Pointer>, freed: seq<Freed>, des: bool, multi: bool, row: Row, blocks: seq<Block>, i: nat)
    requires i <= |row| == |blocks|
  {
    destroyed == (if des then ValuesOf(RowPairs(row[..i])) else []) && freed == FreedBy(blocks[..i], multi)
  }

  /** One turn, with what has been handed over before. */
  method DestroyTurn(b: List<Entry>, node: Node<Entry>, multi: bool, des: bool, before: seq<Pointer>, ghost freedBefore: seq<Freed>,
                     ghost ring: seq<Node<Entry>>, ghost all: seq<Node<Entry>>, ghost blocks: seq<Block>, ghost i: nat,
                     ghost row: Row, ghost repr: set<object>)
    returns (next: Node<Entry>, destroyed: seq<Pointer>, ghost freed: seq<Freed>)
    requires Remaining(b, ring, blocks, i, row, multi, repr) && i < |row| && node == ring[i + 1]
    requires ring == [b.head] + all + [b.head] && RingDistinct(ring) && DistinctKeys(row)
    requires forall j :: 0 <= j < |row| ==> all[j] == blocks[j].node
    requires Sofar(before, freedBefore, des, multi, row, blocks, i)
    modifies repr
    ensures Remaining(b, ring, blocks, i + 1, row, multi, repr) && next == ring[i + 2]
    ensures Sofar(destroyed, freed, des, multi, row, blocks, i + 1)
    ensures forall c: List<Entry> :: old(allocated(c)) && c != b && old(c.Valid()) ==> c.Valid() && c.nodes == old(c.nodes)
    ensures forall l: List<Pointer> :: old(allocated(l)) && l !in Lists(all) && old(l.Valid()) ==>
      l.Valid() && l.nodes == old(l.nodes) && l.holder == old(l.holder)
  {
    RowValuesStep(row, i);
    FreedStep(blocks, i, multi);
    assert node == all[i] && BlockIn(b, blocks[i], row[i], multi, repr);
    assert node.item.value.many in Lists(all);
    next, destroyed, freed := DestroyFirst(b, node, multi, des, ring, blocks, i, row, repr);
    destroyed, freed := before + destroyed, freedBefore + freed;
  }

  /** The loop of cclist_clear on a bucket. */
  method DestroyNodes(b: List<Entry>, multi: bool, des: bool, ghost ring: seq<Node<Entry>>, ghost all: seq<Node<Entry>>,
                      ghost row: Row, ghost blocks: seq<Block>, ghost repr: set<object>)
    returns (destroyed: seq<Pointer>, ghost freed: seq<Freed>)
    requires Remaining(b, ring, blocks, 0, row, multi, repr) && RingDistinct(ring) && DistinctKeys(row)
    requires ring == [b.head] + all + [b.head] && b.head.next == ring[1]
    requires forall j :: 0 <= j < |row| ==> all[j] == blocks[j].node
    modifies repr
    ensures Sofar(destroyed, freed, des, multi, row, blocks, |row|) && b.head.owner == b
    ensures forall c: List<Entry> :: old(allocated(c)) && c != b && old(c.Valid()) ==> c.Valid() && c.nodes == old(c.nodes)
    ensures forall l: List<Pointer> :: old(allocated(l)) && l !in Lists(all) && old(l.Valid()) ==>
      l.Valid() && l.nodes == old(l.nodes) && l.holder == old(l.holder)
  {
    var item := b.head.next;
    destroyed, freed := [], [];
    ghost var i := 0;
    while item != b.head
      invariant i <= |row| == |blocks| && item == ring[i + 1] && Remaining(b, ring, blocks, i, row, multi, repr)
      invariant Sofar(destroyed, freed, des, multi, row, blocks, i)
      invariant forall c: List<Entry> :: old(allocated(c)) && c != b && old(c.Valid()) ==> c.Valid() && c.nodes == old(c.nodes)
      invariant forall l: List<Pointer> :: old(allocated(l)) && l !in Lists(all) && old(l.Valid()) ==>
        l.Valid() && l.nodes == old(l.nodes) && l.holder == old(l.holder)
      decreases |row| - i
    {
      item, destroyed, freed := DestroyTurn(b, item, multi, des, destroyed, freed, ring, all, blocks, i, row, repr);
      i := i + 1;
    }
  }

  /** cclist_clear on a bucket. */
  method DestroyBucket(b: List<Entry>, multi: bool, des: bool, ghost row: Row, ghost blocks: seq<Block>,
                       ghost repr: set<object>)
    returns (destroyed: seq<Pointer>, ghost freed: seq<Freed>)
    requires BucketIn(b, row, multi, repr) && DistinctKeys(row) && LaidOut(b, blocks)
    modifies repr
    ensures destroyed == if des then ValuesOf(RowPairs(row)) else []
    ensures freed == FreedBy(blocks, multi)
    ensures forall c: List<Entry> :: old(allocated(c)) && c != b && old(c.Valid()) ==> c.Valid() && c.nodes == old(c.nodes)
    ensures forall l: List<Pointer> :: old(allocated(l)) && l !in Lists(old(b.nodes)) && old(l.Valid()) ==>
      l.Valid() && l.nodes == old(l.nodes) && l.holder == old(l.holder)
  {
    StartsClearing(b, blocks, row, multi, repr);
    Apart(b.head, b.nodes, b.Ring());
    assert b.Ring()[0] == b.head;
    destroyed, freed := DestroyNodes(b, multi, des, b.Ring(), b.nodes, row, blocks, repr);
    assert row[..|row|] == row && blocks[..|row|] == blocks;
    Reset(b);
  }

  lemma StartsClearing(b: List<Entry>, blocks: seq<Block>, row: Row, multi: bool, repr: set<object>)
    requires BucketIn(b, row, multi, repr) && LaidOut(b, blocks)
    ensures Remaining(b, b.Ring(), blocks, 0, row, multi, repr)
  {
    forall j | 0 <= j < |row| ensures BlockIn(b, blocks[j], row[j], multi, repr) {
      assert EntryIn(b.nodes[j].item.value, row[j], multi, repr);
    }
  }

  lemma Associative<T>(a: seq<T>, b: seq<T>, c: seq<T>)
    ensures (a + b) + c == a + (b + c)
  {
  }

  lemma {:induction false} FreedByAppend(a: seq<Block>, b: seq<Block>, multi: bool)
    ensures FreedBy(a + b, multi) == FreedBy(a, multi) + FreedBy(b, multi)
    decreases |b|
  {
    if b == [] {
      assert a + b == a;
    } else {
      var front, last := b[..|b| - 1], b[|b| - 1];
      var all := a + b;
      assert all[..|all| - 1] == a + front && all[|all| - 1] == last;
      FreedByAppend(a, front, multi);
      Associative(FreedBy(a, multi), FreedBy(front, multi), FreedOne(last, multi));
    }
  }

  lemma ListsAreIn(b: List<Entry>, row: Row, multi: bool, repr: set<object>)
    requires BucketIn(b, row, multi, repr)
    ensures (forall n <- b.nodes :: n.item.Some?) && forall l <- Lists(b.nodes) :: l in repr
  {
    forall l | l in Lists(b.nodes) ensures l in repr {
      var j :| 0 <= j < |b.nodes| && b.nodes[j].item.value.many == l;
      assert EntryIn(b.nodes[j].item.value, row[j], multi, repr);
    }
  }

  /** The blocks of the first `n` buckets. */
  ghost function PlanOf(buckets: seq<List<Entry>>, n: nat, shape: Shape, multi: bool, repr: set<object>): (plan: seq<seq<Block>>)
    requires n <= |buckets| && MatchIn(buckets, shape, multi, repr)
    reads repr
    ensures |plan| == n
    ensures forall i :: 0 <= i < n ==> LaidOut(buckets[i], plan[i])
  {
    if n == 0 then []
    else
      assert BucketIn(buckets[n - 1], shape[n - 1], multi, repr);
      ListsAreIn(buckets[n - 1], shape[n - 1], multi, repr);
      PlanOf(buckets, n - 1, shape, multi, repr) + [Blocks(buckets[n - 1].nodes)]
  }

  /** The blocks of a bucket. */
  ghost predicate LaidOut(b: List<Entry>, blocks: seq<Block>)
    reads b, Lists(b.nodes)
  {
    (forall n <- b.nodes :: n.item.Some?) && blocks == Blocks(b.nodes)
  }

  lemma FreedRowStep(plan: seq<seq<Block>>, i: nat, multi: bool)
    requires i < |plan|
    ensures FreedBy(Flat(plan[..i + 1]), multi) == FreedBy(Flat(plan[..i]), multi) + FreedBy(plan[i], multi)
  {
    assert plan[..i + 1][..i] == plan[..i];
    FreedByAppend(Flat(plan[..i]), plan[i], multi);
  }

  /** The loop of cctable_deinit. */
  method DestroyAll(buckets: seq<List<Entry>>, multi: bool, des: bool, ghost shape: Shape, ghost plan: seq<seq<Block>>,
                    ghost repr: set<object>)
    returns (destroyed: seq<Pointer>, ghost freed: seq<Freed>)
    requires MatchIn(buckets, shape, multi, repr)
    requires |plan| == |buckets| && forall i :: 0 <= i < |buckets| ==> LaidOut(buckets[i], plan[i])
    requires forall i :: 0 <= i < |shape| ==> DistinctKeys(shape[i])
    requires forall i, m :: 0 <= i < |shape| && 0 <= m < |shape| && m != i ==> Foreign(shape[i], shape[m])
    modifies repr
    ensures destroyed == if des then ValuesOf(Pairs(shape)) else []
    ensures freed == FreedBy(Flat(plan), multi)
  {
    destroyed, freed := [], [];
    for i := 0 to |buckets|
      invariant forall m :: i <= m < |buckets| ==> BucketIn(buckets[m], shape[m], multi, repr)
      invariant forall m :: i <= m < |buckets| ==> LaidOut(buckets[m], plan[m])
      invariant destroyed == if des then ValuesOf(Pairs(shape[..i])) else []
      invariant freed == FreedBy(Flat(plan[..i]), multi)
    {
      ghost var more;
      var values;
      values, more := DestroyNext(buckets, i, multi, des, shape, plan, repr);
      destroyed, freed := destroyed + values, freed + more;
      ValuesStep(shape, i);
      FreedRowStep(plan, i, multi);
    }
    assert shape[..|buckets|] == shape && plan[..|buckets|] == plan;
  }

  /** One bucket of the loop; those behind it keep their meaning and their nodes. */
  method DestroyNext(buckets: seq<List<Entry>>, i: nat, multi: bool, des: bool, ghost shape: Shape,
                     ghost plan: seq<seq<Block>>, ghost repr: set<object>)
    returns (destroyed: seq<Pointer>, ghost freed: seq<Freed>)
    requires |shape| == |buckets| == |plan| && Distinct(buckets) && i < |buckets|
    requires forall m :: i <= m < |buckets| ==> LaidOut(buckets[m], plan[m])
    requires forall m :: i <= m < |buckets| ==> BucketIn(buckets[m], shape[m], multi, repr)
    requires DistinctKeys(shape[i]) && forall m :: 0 <= m < |shape| && m != i ==> Foreign(shape[i], shape[m])
    modifies repr
    ensures forall m :: i < m < |buckets| ==> BucketIn(buckets[m], shape[m], multi, repr)
    ensures forall m :: i < m < |buckets| ==> LaidOut(buckets[m], plan[m])
    ensures destroyed == if des then ValuesOf(RowPairs(shape[i])) else []
    ensures freed == FreedBy(plan[i], multi)
  {
    forall m | i < m < |buckets|
      ensures forall j :: 0 <= j < |shape[m]| ==> buckets[m].nodes[j].item.value.many !in Lists(buckets[i].nodes)
    {
      ListsApart(buckets[i], shape[i], buckets[m], shape[m], multi, repr);
    }
    assert BucketIn(buckets[i], shape[i], multi, repr);
    destroyed, freed := DestroyBucket(buckets[i], multi, des, shape[i], plan[i], repr);
    forall m | i < m < |buckets|
      ensures BucketIn(buckets[m], shape[m], multi, repr) && LaidOut(buckets[m], plan[m])
    {
      assert old(BucketIn(buckets[m], shape[m], multi, repr)) && old(LaidOut(buckets[m], plan[m]));
      forall j | 0 <= j < |shape[m]|
        ensures EntryIn(buckets[m].nodes[j].item.value, shape[m][j], multi, repr)
        ensures plan[m][j] == Block(buckets[m].nodes[j], buckets[m].nodes[j].item.value.many.nodes)
      {
        assert old(EntryIn(buckets[m].nodes[j].item.value, shape[m][j], multi, repr));
      }
      BucketKept(buckets[m], shape[m], multi, repr);
    }
  }

  // ---- everything is freed once ---------------------------------------------------------------------------

  /** The entry of the block has the key, and a list of values of its own. */
  ghost predicate BlockOk(block: Block, key: Key)
    requires block.node.item.Some?
    reads block.node.item.value.many, block.node.item.value.many.head, block.node.item.value.many.nodes
  {
    var e := block.node.item.value;
    e.key == key && e.many.Valid() && e.many.holder == e && block.values == e.many.nodes
  }

  lemma FreedApart(a: Block, b: Block, k: Key, l: Key, multi: bool)
    requires a.node.item.Some? && b.node.item.Some? && BlockOk(a, k) && BlockOk(b, l) && k != l
    ensures forall f <- FreedOne(a, multi) :: f !in FreedOne(b, multi)
  {
    var mine, other := a.node.item.value.many, b.node.item.value.many;
    assert mine != other && a.node != b.node;
    forall f | f in FreedOne(a, multi) ensures f !in FreedOne(b, multi) {
      if f.ValueNode? {
        assert f.value in a.values && f.value.owner == mine;
        assert forall v <- b.values :: v.owner == other;
      }
    }
  }

  lemma FreedOneDistinct(block: Block, key: Key, multi: bool)
    requires block.node.item.Some? && BlockOk(block, key)
    ensures Distinct(FreedOne(block, multi))
  {
    var freed := FreedOne(block, multi);
    forall i, j | 0 <= i < j < |freed| ensures freed[i] != freed[j] {
      if j < |freed| - 1 {
        assert block.values[i] != block.values[j];
      }
    }
  }

  lemma {:induction false} FreedIn(blocks: seq<Block>, multi: bool, f: Freed) returns (j: nat)
    requires f in FreedBy(blocks, multi)
    ensures j < |blocks| && f in FreedOne(blocks[j], multi)
    decreases |blocks|
  {
    var n := |blocks| - 1;
    if f in FreedOne(blocks[n], multi) {
      j := n;
    } else {
      j := FreedIn(blocks[..n], multi, f);
    }
  }

  lemma PlanIsOk(buckets: seq<List<Entry>>, shape: Shape, plan: seq<seq<Block>>, multi: bool, repr: set<object>)
    requires MatchIn(buckets, shape, multi, repr)
    requires |plan| == |buckets| && forall i :: 0 <= i < |buckets| ==> LaidOut(buckets[i], plan[i])
    ensures forall i :: 0 <= i < |shape| ==> |plan[i]| == |shape[i]|
    ensures forall i, j :: 0 <= i < |shape| && 0 <= j < |shape[i]| ==>
      plan[i][j].node.item.Some? && BlockOk(plan[i][j], shape[i][j].key)
  {
    forall i | 0 <= i < |shape| ensures |plan[i]| == |shape[i]| {
      assert BucketIn(buckets[i], shape[i], multi, repr);
    }
    forall i, j | 0 <= i < |shape| && 0 <= j < |shape[i]|
      ensures plan[i][j].node.item.Some? && BlockOk(plan[i][j], shape[i][j].key)
    {
      assert BucketIn(buckets[i], shape[i], multi, repr);
      assert EntryIn(buckets[i].nodes[j].item.value, shape[i][j], multi, repr);
    }
  }

  /** Nothing in a bucket is freed twice. */
  lemma {:induction false} FreedRowDistinct(blocks: seq<Block>, row: Row, multi: bool)
    requires |blocks| == |row| && DistinctKeys(row)
    requires forall j :: 0 <= j < |row| ==> blocks[j].node.item.Some? && BlockOk(blocks[j], row[j].key)
    ensures Distinct(FreedBy(blocks, multi))
    decreases |blocks|
  {
    if blocks != [] {
      var n := |blocks| - 1;
      FreedRowDistinct(blocks[..n], row[..n], multi);
      FreedOneDistinct(blocks[n], row[n].key, multi);
      forall f | f in FreedBy(blocks[..n], multi) ensures f !in FreedOne(blocks[n], multi) {
        var j := FreedIn(blocks[..n], multi, f);
        FreedApart(blocks[j], blocks[n], row[j].key, row[n].key, multi);
      }
      DistinctAppend(FreedBy(blocks[..n], multi), FreedOne(blocks[n], multi));
    }
  }

  lemma FreedRowsApart(a: seq<Block>, r: Row, b: seq<Block>, q: Row, multi: bool)
    requires |a| == |r| && forall j :: 0 <= j < |r| ==> a[j].node.item.Some? && BlockOk(a[j], r[j].key)
    requires |b| == |q| && forall j :: 0 <= j < |q| ==> b[j].node.item.Some? && BlockOk(b[j], q[j].key)
    requires Foreign(r, q)
    ensures forall f <- FreedBy(a, multi) :: f !in FreedBy(b, multi)
  {
    forall f | f in FreedBy(a, multi) && f in FreedBy(b, multi) ensures false {
      var i := FreedIn(a, multi, f);
      var j := FreedIn(b, multi, f);
      FreedApart(a[i], b[j], r[i].key, q[j].key, multi);
    }
  }

  lemma {:induction false} FreedInRow(plan: seq<seq<Block>>, multi: bool, f: Freed) returns (i: nat)
    requires f in FreedBy(Flat(plan), multi)
    ensures i < |plan| && f in FreedBy(plan[i], multi)
    decreases |plan|
  {
    var n := |plan| - 1;
    if plan == [] {
      assert false;
    } else {
      FreedByAppend(Flat(plan[..n]), plan[n], multi);
      if f in FreedBy(plan[n], multi) {
        i := n;
      } else {
        i := FreedInRow(plan[..n], multi, f);
      }
    }
  }

  /** Nothing in the table is freed twice. */
  lemma {:induction false} FreedDistinct(plan: seq<seq<Block>>, shape: Shape, multi: bool)
    requires |plan| == |shape| && forall i :: 0 <= i < |shape| ==> |plan[i]| == |shape[i]| && DistinctKeys(shape[i])
    requires forall i, j :: 0 <= i < |shape| && 0 <= j < |shape[i]| ==>
      plan[i][j].node.item.Some? && BlockOk(plan[i][j], shape[i][j].key)
    requires forall i, m :: 0 <= i < |shape| && 0 <= m < |shape| && m != i ==> Foreign(shape[i], shape[m])
    ensures Distinct(FreedBy(Flat(plan), multi))
    decreases |plan|
  {
    if plan != [] {
      var n := |plan| - 1;
      var front := Flat(plan[..n]);
      FreedDistinct(plan[..n], shape[..n], multi);
      FreedRowDistinct(plan[n], shape[n], multi);
      forall f | f in FreedBy(front, multi) ensures f !in FreedBy(plan[n], multi) {
        var i := FreedInRow(plan[..n], multi, f);
        FreedRowsApart(plan[i], shape[i], plan[n], shape[n], multi);
      }
      DistinctAppend(FreedBy(front, multi), FreedBy(plan[n], multi));
      FreedByAppend(front, plan[n], multi);
    }
  }
}

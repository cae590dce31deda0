/** The multi-valued hash table of src/table.c: an array of buckets, refined to the history of its insertions. */
module Table {
  import opened Basics
  import opened Hash
  import opened IntrusiveList
  import opened TableSpec
  import opened TableBuckets
  import opened TableTeardown

  /** What the buckets hold as values, every insertion so far, and the lists, entries and nodes of the table. */
  datatype Model = Model(shape: Shape, log: seq<Pair>, repr: set<object>)

  /** The buckets represent the history; a table without buckets has none. */
  ghost predicate Means(shape: Shape, log: seq<Pair>, multi: bool, signed: bool, capacity: nat) {
    (if capacity == 0 then log == [] else Represents(shape, log, multi, SelectBucket(signed, capacity))) &&
    multiset(Pairs(shape)) == multiset(Kept(log, multi))
  }

  /** What an insertion into the selected bucket needs to know, and what it makes of the history. */
  lemma MeansStep(shape: Shape, log: seq<Pair>, k: Key, v: Pointer, multi: bool, signed: bool, capacity: nat)
    requires capacity > 0 && Means(shape, log, multi, signed, capacity)
    ensures var i := BucketIndex(k, signed, capacity);
      i < |shape| && DistinctKeys(shape[i]) && (forall m :: 0 <= m < |shape| && m != i ==> Foreign(shape[i], shape[m])) &&
      Means(shape[i := RowInsert(shape[i], k, v, multi)], log + [(k, v)], multi, signed, capacity) &&
      |Kept(log + [(k, v)], multi)| == |Kept(log, multi)| + if multi || !HasCell(shape[i], k) then 1 else 0
  {
    InsertMeans(shape, log, k, v, multi, SelectBucket(signed, capacity));
  }

  class HashTable {
    const signed: bool   // whether `char` is signed on this platform
    const multi: bool    // allow_multiple
    var capacity: nat
    var size: nat
    var buckets: seq<List<Entry>>
    ghost var model: Model

    ghost predicate Valid()
      reads this, model.repr
    {
      this !in model.repr && MatchIn(buckets, model.shape, multi, model.repr) &&
      capacity == |buckets| && Means(model.shape, model.log, multi, signed, capacity) &&
      size == |Kept(model.log, multi)|
    }

    /** What the table consists of: the nodes of each bucket, with the nodes of their lists of values. */
    ghost function Layout(): (plan: seq<seq<Block>>)
      requires Valid()
      reads this, model.repr
    {
      PlanOf(buckets, |buckets|, model.shape, multi, model.repr)
    }

    /** cctable_init. A count that rounds to zero gives a table without buckets. */
    constructor (count: nat, multi: bool, signed: bool)
      requires count < WORD
      ensures Valid() && model.log == [] && fresh(model.repr)
      ensures this.multi == multi && this.signed == signed && capacity == RoundUp(count)
    {
      var rounded := NextPowerOf2(count);
      this.multi, this.signed := multi, signed;
      capacity, size := rounded, 0;
      var lists, shape, objects := EmptyBuckets(rounded, multi);
      buckets := lists;
      model := Model(shape, [], objects);
      new;
      PairsOfNothing(shape);
      if rounded > 0 {
        NothingRepresents(shape, multi, SelectBucket(signed, capacity));
      }
    }

    /** cctable_insert. */
    method Insert(key: Key, value: Pointer)
      requires Valid() && capacity > 0
      modifies this`size, this`model, model.repr
      ensures Valid() && model.log == old(model.log) + [(key, value)] && fresh(model.repr - old(model.repr))
    {
      var bucketIdx := BucketIndex(key, signed, capacity);
      MeansStep(model.shape, model.log, key, value, multi, signed, capacity);
      Place(bucketIdx, key, value);
    }

    /** The insertion into the selected bucket, and the count of what is stored. */
    method Place(bucketIdx: nat, key: Key, value: Pointer)
      requires this !in model.repr && MatchIn(buckets, model.shape, multi, model.repr) && bucketIdx < |buckets|
      requires DistinctKeys(model.shape[bucketIdx])
      requires forall m :: 0 <= m < |model.shape| && m != bucketIdx ==> Foreign(model.shape[bucketIdx], model.shape[m])
      modifies this`size, this`model, model.repr
      ensures this !in model.repr && MatchIn(buckets, model.shape, multi, model.repr)
      ensures fresh(model.repr - old(model.repr))
      ensures var row := old(model.shape)[bucketIdx];
        model.shape == old(model.shape)[bucketIdx := RowInsert(row, key, value, multi)] &&
        model.log == old(model.log) + [(key, value)] &&
        size == old(size) + if multi || !HasCell(row, key) then 1 else 0
    {
      ghost var shape, log := model.shape, model.log;
      ghost var row := RowInsert(shape[bucketIdx], key, value, multi);
      var added, objects := InsertInto(buckets, bucketIdx, key, value, multi, shape, model.repr);
      size := if added then size + 1 else size;
      model := Model(shape[bucketIdx := row], log + [(key, value)], objects);
    }

    /** cctable_get_one: the first value ever inserted under the key. */
    method GetOne(key: Key) returns (value: Option<Pointer>)
      requires Valid() && capacity > 0 && !multi
      ensures var all := NewestFirst(model.log, key); value == if all == [] then None else Some(all[|all| - 1])
    {
      var bucketIdx := BucketIndex(key, signed, capacity);
      LookupIsHeld(model.shape, model.log, multi, SelectBucket(signed, capacity), key);
      assert BucketIn(buckets[bucketIdx], model.shape[bucketIdx], multi, model.repr);
      var node := Search(buckets[bucketIdx], key, model.shape[bucketIdx], multi, model.repr);
      if node == null {
        return None;
      }
      assert EntryOk(node.item.value, model.shape[bucketIdx][Find(model.shape[bucketIdx], key)], multi);
      return node.item.value.one;
    }

    /** cctable_get_many: the values inserted under the key, newest first, or NULL. */
    method GetMany(key: Key) returns (values: List?<Pointer>)
      requires Valid() && capacity > 0 && multi
      ensures values == null <==> NewestFirst(model.log, key) == []
      ensures values != null ==> values.Valid() && Items(values.nodes) == NewestFirst(model.log, key)
    {
      var bucketIdx := BucketIndex(key, signed, capacity);
      LookupIsHeld(model.shape, model.log, multi, SelectBucket(signed, capacity), key);
      assert BucketIn(buckets[bucketIdx], model.shape[bucketIdx], multi, model.repr);
      var node := Search(buckets[bucketIdx], key, model.shape[bucketIdx], multi, model.repr);
      if node == null {
        return null;
      }
      assert EntryOk(node.item.value, model.shape[bucketIdx][Find(model.shape[bucketIdx], key)], multi);
      return node.item.value.many;
    }

    /** cctable_iter: the callbacks, in order. Every stored pair gets exactly one. */
    method Iter() returns (calls: seq<Pair>)
      requires Valid()
      ensures calls == Pairs(model.shape)
      ensures multiset(calls) == multiset(Kept(model.log, multi)) && |calls| == size
    {
      calls := [];
      for i := 0 to capacity
        invariant calls == Pairs(model.shape[..i])
      {
        var more := IterBucket(buckets[i], multi, model.shape[i], model.repr);
        calls := calls + more;
        PairsStep(model.shape, i);
      }
      assert model.shape[..capacity] == model.shape;
      assert |multiset(calls)| == |multiset(Kept(model.log, multi))|;
    }

    /** cctable_deinit: what the caller's destructor is handed, every stored value exactly once; and what is freed,
        every node of every bucket and of every list of values exactly once, the values before their entry. */
    method Deinit(des: bool) returns (destroyed: seq<Pointer>, ghost freed: seq<Freed>)
      requires Valid()
      modifies this`capacity, this`size, this`buckets, model.repr
      ensures destroyed == if des then old(Stored()) else []
      ensures freed == old(Frees()) && Distinct(freed)
      ensures capacity == 0 && size == 0 && buckets == []
    {
      destroyed, freed := DestroyContents(des);
      Forget();
    }

    /** Lines 89-92. */
    method Forget()
      modifies this`capacity, this`size, this`buckets
      ensures capacity == 0 && size == 0 && buckets == []
    {
      capacity, size, buckets := 0, 0, [];
    }

    /** Lines 86-88. */
    method DestroyContents(des: bool) returns (destroyed: seq<Pointer>, ghost freed: seq<Freed>)
      requires Valid()
      modifies model.repr
      ensures destroyed == if des then old(Stored()) else []
      ensures freed == old(Frees()) && Distinct(freed)
    {
      ghost var plan, expected := Layout(), Frees();
      RowsForeign();
      destroyed, freed := DestroyAll(buckets, multi, des, model.shape, plan, model.repr);
    }

    /** What is to be freed, in order: for each node of each bucket, the nodes of its list of values and then the
        node itself; nothing twice. */
    ghost function Frees(): (freed: seq<Freed>)
      requires Valid()
      reads this, model.repr
      ensures freed == FreedBy(Flat(Layout()), multi) && Distinct(freed)
    {
      FreedOnce();
      FreedBy(Flat(Layout()), multi)
    }

    /** The values in the order in which they are met. */
    ghost function Stored(): (values: seq<Pointer>)
      requires Valid()
      reads this, model.repr
      ensures |values| == size
    {
      assert |multiset(Pairs(model.shape))| == |multiset(Kept(model.log, multi))|;
      ValuesOf(Pairs(model.shape))
    }

    /** They are the values of exactly the insertions that are kept. */
    lemma StoredIsKept()
      requires Valid()
      ensures Stored() == ValuesOf(Pairs(model.shape)) && multiset(Pairs(model.shape)) == multiset(Kept(model.log, multi))
    {
    }

    lemma FreedOnce()
      requires Valid()
      ensures Distinct(FreedBy(Flat(Layout()), multi))
    {
      RowsForeign();
      PlanIsOk(buckets, model.shape, Layout(), multi, model.repr);
      FreedDistinct(Layout(), model.shape, multi);
    }

    lemma RowsForeign()
      requires Valid()
      ensures forall i :: 0 <= i < |model.shape| ==> DistinctKeys(model.shape[i])
      ensures forall i, m :: 0 <= i < |model.shape| && 0 <= m < |model.shape| && m != i ==>
        Foreign(model.shape[i], model.shape[m])
    {
      forall i | 0 <= i < |model.shape|
        ensures DistinctKeys(model.shape[i])
        ensures forall m :: 0 <= m < |model.shape| && m != i ==> Foreign(model.shape[i], model.shape[m])
      {
        RowsAreForeign(model.shape, model.log, multi, SelectBucket(signed, capacity), i);
      }
    }
  }
}

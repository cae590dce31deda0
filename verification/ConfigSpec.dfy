/** What loading a configuration means: the logical lines folded into entries, up to the first bad line. */
module ConfigSpec {
  import opened Basics
  import opened ConfigLines
  import opened ConfigValues

  datatype Entry = Entry(key: string, value: Value)

  datatype Loaded = Loaded(ok: bool, entries: seq<Entry>)

  /** Where the entry of `key` is; the number of entries when there is none. */
  function Position(entries: seq<Entry>, key: string): (n: nat)
    ensures n <= |entries|
    ensures n < |entries| ==> entries[n].key == key
  {
    if entries == [] || entries[0].key == key then 0 else 1 + Position(entries[1..], key)
  }

  /** find_entry_or_add. */
  function Added(entries: seq<Entry>, key: string): (r: seq<Entry>)
    ensures Position(entries, key) < |r| && r[Position(entries, key)].key == key
  {
    if Position(entries, key) < |entries| then entries else entries + [Entry(key, Unset)]
  }

  /** The entries after a key is found or added, and given a value if there is one. */
  function Assigned(entries: seq<Entry>, key: string, value: Option<Value>): seq<Entry> {
    var added := Added(entries, key);
    if value.None? then added else added[Position(entries, key) := Entry(key, value.value)]
  }

  /** What a line does: nothing, or naming a key and perhaps giving it a value; and whether reading goes on. */
  datatype Effect = Skip | Stop | Names(key: string, value: Option<Value>, ok: bool)

  function EffectOf(line: string): Effect {
    if IsComment(line) then Skip
    else
      var sep := Find(line, ':');
      if sep == |line| then Stop
      else
        match ScanValue(Trimmed(line[sep + 1..]))
        case Failed => Names(line[..sep], None, false)
        case Scanned(value, rest) => Names(line[..sep], Some(value), TrailingOk(rest))
  }

  predicate Good(e: Effect) { e.Skip? || (e.Names? && e.ok) }

  function Effects(lines: seq<string>): seq<Effect> {
    if lines == [] then [] else [EffectOf(lines[0])] + Effects(lines[1..])
  }

  function After(e: Effect, entries: seq<Entry>): seq<Entry> {
    if e.Names? then Assigned(entries, e.key, e.value) else entries
  }

  /** parse: the loop over the lines. */
  function Fold(effects: seq<Effect>, entries: seq<Entry>): Loaded {
    if effects == [] then Loaded(true, entries)
    else if Good(effects[0]) then Fold(effects[1..], After(effects[0], entries))
    else Loaded(false, After(effects[0], entries))
  }

  lemma FoldStep(line: string, lines: seq<string>, entries: seq<Entry>)
    ensures var e := EffectOf(line);
      Fold(Effects([line] + lines), entries) ==
      if Good(e) then Fold(Effects(lines), After(e, entries)) else Loaded(false, After(e, entries))
  {
    assert ([line] + lines)[1..] == lines;
    assert ([EffectOf(line)] + Effects(lines))[1..] == Effects(lines);
  }

  function Load(text: string): Loaded { Fold(Effects(LogicalLines(text)), []) }

  /** A carriage return anywhere in the text makes no difference to what is loaded. */
  lemma LoadIgnoresReturns(text: string)
    ensures Load(NoReturns(text)) == Load(text)
  {
    ReturnsIgnored(text);
  }

  // ---- the meaning ---------------------------------------------------------------------------------------

  datatype Assignment = Assignment(key: string, value: Option<Value>)

  /** The assignments of the lines up to and including the first bad one. */
  function Heard(effects: seq<Effect>): seq<Assignment> {
    if effects == [] then []
    else
      (if effects[0].Names? then [Assignment(effects[0].key, effects[0].value)] else [])
      + (if Good(effects[0]) then Heard(effects[1..]) else [])
  }

  predicate AllGood(effects: seq<Effect>) { forall i :: 0 <= i < |effects| ==> Good(effects[i]) }

  /** The keys in the order in which they first appear. */
  function Keys(heard: seq<Assignment>): seq<string> {
    if heard == [] then []
    else
      var keys, key := Keys(heard[..|heard| - 1]), heard[|heard| - 1].key;
      if key in keys then keys else keys + [key]
  }

  /** The last value that was given to `key`. */
  function LastValue(heard: seq<Assignment>, key: string): Value {
    if heard == [] then Unset
    else
      var last := heard[|heard| - 1];
      if last.key == key && last.value.Some? then last.value.value else LastValue(heard[..|heard| - 1], key)
  }

  /** The entries a sequence of assignments stands for. */
  function Table(heard: seq<Assignment>): (entries: seq<Entry>)
    ensures |entries| == |Keys(heard)|
  {
    seq(|Keys(heard)|, i requires 0 <= i < |Keys(heard)| => Entry(Keys(heard)[i], LastValue(heard, Keys(heard)[i])))
  }

  lemma {:induction false} KeysDistinct(heard: seq<Assignment>)
    ensures Distinct(Keys(heard))
  {
    if heard != [] {
      KeysDistinct(heard[..|heard| - 1]);
    }
  }

  /** Where `key` first appears; the number of assignments when it does not. */
  function FirstUse(heard: seq<Assignment>, key: string): (n: nat)
    ensures n <= |heard|
    ensures n < |heard| ==> heard[n].key == key
    ensures forall i :: 0 <= i < n ==> heard[i].key != key
  {
    if heard == [] || heard[0].key == key then 0 else 1 + FirstUse(heard[1..], key)
  }

  lemma {:induction false} FirstUseOn(front: seq<Assignment>, a: Assignment, key: string)
    ensures FirstUse(front + [a], key) ==
      if FirstUse(front, key) < |front| then FirstUse(front, key) else |front| + Indicator(a.key != key)
  {
    if front != [] {
      assert (front + [a])[1..] == front[1..] + [a];
      FirstUseOn(front[1..], a, key);
    }
  }

  /** The keys are those that appear, and their order is the order in which they first do. */
  lemma {:induction false} KeyIff(heard: seq<Assignment>, key: string)
    ensures key in Keys(heard) <==> FirstUse(heard, key) < |heard|
  {
    if heard != [] {
      var front, a := heard[..|heard| - 1], heard[|heard| - 1];
      KeyIff(front, key);
      FirstUseOn(front, a, key);
      assert heard == front + [a];
    }
  }

  lemma {:induction false} KeysInOrder(heard: seq<Assignment>, i: nat, j: nat)
    requires i < j < |Keys(heard)|
    ensures FirstUse(heard, Keys(heard)[i]) < FirstUse(heard, Keys(heard)[j])
  {
    var front, a := heard[..|heard| - 1], heard[|heard| - 1];
    var keys := Keys(heard);
    assert heard == front + [a];
    FirstUseOn(front, a, keys[i]);
    FirstUseOn(front, a, keys[j]);
    KeyIff(front, keys[i]);
    KeyIff(front, keys[j]);
    if j < |Keys(front)| {
      KeysInOrder(front, i, j);
    }
  }

  lemma {:induction false} PositionIs(entries: seq<Entry>, i: nat)
    requires i < |entries| && forall j :: 0 <= j < i ==> entries[j].key != entries[i].key
    ensures Position(entries, entries[i].key) == i
  {
    if i > 0 {
      PositionIs(entries[1..], i - 1);
    }
  }

  lemma {:induction false} PositionNone(entries: seq<Entry>, key: string)
    requires forall j :: 0 <= j < |entries| ==> entries[j].key != key
    ensures Position(entries, key) == |entries|
  {
    if entries != [] {
      PositionNone(entries[1..], key);
    }
  }

  lemma TableKeepsKey(heard: seq<Assignment>, a: Assignment, i: nat)
    requires i < |Keys(heard)| && Keys(heard)[i] == a.key
    ensures Assigned(Table(heard), a.key, a.value) == Table(heard + [a])
  {
    assert (heard + [a])[..|heard|] == heard;
    KeysDistinct(heard);
    PositionIs(Table(heard), i);
  }

  lemma TableAddsKey(heard: seq<Assignment>, a: Assignment)
    requires a.key !in Keys(heard)
    ensures Assigned(Table(heard), a.key, a.value) == Table(heard + [a])
  {
    assert (heard + [a])[..|heard|] == heard;
    PositionNone(Table(heard), a.key);
    NeverGiven(heard, a.key);
  }

  /** Naming a key does to the entries what appending the assignment does to the history. */
  lemma TableStep(heard: seq<Assignment>, a: Assignment)
    ensures Assigned(Table(heard), a.key, a.value) == Table(heard + [a])
  {
    var keys := Keys(heard);
    if a.key in keys {
      var i :| 0 <= i < |keys| && keys[i] == a.key;
      TableKeepsKey(heard, a, i);
    } else {
      TableAddsKey(heard, a);
    }
  }

  lemma {:induction false} NeverGiven(heard: seq<Assignment>, key: string)
    requires key !in Keys(heard)
    ensures LastValue(heard, key) == Unset
  {
    if heard != [] {
      NeverGiven(heard[..|heard| - 1], key);
    }
  }

  lemma {:induction false} FoldMeans(effects: seq<Effect>, heard: seq<Assignment>)
    ensures Fold(effects, Table(heard)) == Loaded(AllGood(effects), Table(heard + Heard(effects)))
    decreases |effects|
  {
    if effects == [] {
      assert heard + Heard(effects) == heard;
    } else {
      var e := effects[0];
      var named := if e.Names? then [Assignment(e.key, e.value)] else [];
      assert AllGood(effects) <==> Good(e) && AllGood(effects[1..]);
      assert heard + named + Heard(effects[1..]) == heard + (named + Heard(effects[1..]));
      assert heard + named == heard + (named + []);
      if e.Names? {
        TableStep(heard, Assignment(e.key, e.value));
      } else {
        assert heard + named == heard;
      }
      if Good(e) {
        FoldMeans(effects[1..], heard + named);
      }
    }
  }

  /** Loading gives one entry for each key that was heard of, in order of first appearance, with the last value
      given to it; and succeeds exactly when every line is good. */
  lemma LoadMeans(text: string)
    ensures var effects := Effects(LogicalLines(text)); Load(text) == Loaded(AllGood(effects), Table(Heard(effects)))
  {
    var effects := Effects(LogicalLines(text));
    FoldMeans(effects, []);
    assert Table([]) == [];
    assert [] + Heard(effects) == Heard(effects);
  }

  /** Looking a key up finds the last value given to it, and finds nothing when it was not heard of. */
  lemma TableLookup(heard: seq<Assignment>, key: string)
    ensures var table := Table(heard);
      var p := Position(table, key);
      if FirstUse(heard, key) < |heard| then p < |table| && table[p].value == LastValue(heard, key) else p == |table|
  {
    var keys := Keys(heard);
    KeyIff(heard, key);
    KeysDistinct(heard);
    if key in keys {
      var i :| 0 <= i < |keys| && keys[i] == key;
      PositionIs(Table(heard), i);
    } else {
      PositionNone(Table(heard), key);
    }
  }
}

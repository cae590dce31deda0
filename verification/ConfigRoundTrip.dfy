/** Settings written as text are read back. */
module ConfigRoundTrip {
  import opened Basics
  import opened ConfigLines
  import opened ConfigValues
  import opened ConfigSpec

  /** A value to be written: a string in quotes of one kind, a decimal numeral, or a truth value. */
  datatype Datum = Text(s: string, quote: char) | Number(s: string) | Truth(b: bool)

  predicate OneLine(s: string) { '\n' !in s && '\r' !in s }

  predicate LegalDatum(d: Datum) {
    match d
    case Text(s, quote) => OneLine(s) && quote !in s && (quote == '\'' || quote == '\"')
    case Number(s) => StartsNumber(s) && NumeralLength(s) == |s|
    case Truth(_) => true
  }

  function Meaning(d: Datum): Value {
    match d
    case Text(s, _) => Str(s)
    case Number(s) => Num(Decimal(s))
    case Truth(b) => Bool(b)
  }

  function DatumText(d: Datum): string {
    match d
    case Text(s, quote) => [quote] + s + [quote]
    case Number(s) => s
    case Truth(b) => if b then "true" else "false"
  }

  /** A key has no colon, and does not begin like white space or a comment. */
  predicate LegalKey(key: string) {
    && OneLine(key) && ':' !in key
    && (key != [] ==> !IsSpace(key[0]) && !IsComment(key))
  }

  /** A line of a document: one that is blank or a comment, or a setting with white space before its value, and
      white space and perhaps a comment behind it. */
  datatype Item = Other(text: string) | Setting(key: string, gap: string, datum: Datum, tail: string)

  predicate LegalItem(item: Item) {
    match item
    case Other(text) => OneLine(text) && IsComment(Trimmed(text))
    case Setting(key, gap, datum, tail) =>
      && LegalKey(key) && LegalDatum(datum)
      && OneLine(gap) && Trimmed(gap) == []
      && OneLine(tail) && TrailingOk(tail)
  }

  function ItemText(item: Item): string {
    match item
    case Other(text) => text
    case Setting(key, gap, datum, tail) => key + ":" + gap + DatumText(datum) + tail
  }

  function Document(items: seq<Item>): string {
    if items == [] then [] else ItemText(items[0]) + "\n" + Document(items[1..])
  }

  /** The document, with carriage returns put in anywhere, and with or without its last newline. */
  predicate IsDocument(text: string, items: seq<Item>) {
    NoReturns(text) == Document(items) || NoReturns(text) + "\n" == Document(items)
  }

  function Settings(items: seq<Item>): seq<Entry> {
    if items == [] then []
    else (if items[0].Setting? then [Entry(items[0].key, Meaning(items[0].datum))] else []) + Settings(items[1..])
  }

  // ---- the scanner reads what was written ----------------------------------------------------------------

  lemma {:induction false} FindAppend(s: string, c: char, rest: string)
    requires c !in s
    ensures Find(s + [c] + rest, c) == |s|
  {
    if s != [] {
      assert (s + [c] + rest)[1..] == s[1..] + [c] + rest;
      FindAppend(s[1..], c, rest);
    }
  }

  lemma {:induction false} DigitsAppend(s: string, tail: string, base: nat)
    requires base <= MANY && (tail == [] || DigitOf(tail[0]) >= base)
    ensures LeadingDigits(s + tail, base) == LeadingDigits(s, base)
  {
    if s == [] {
      assert s + tail == tail;
    } else {
      assert (s + tail)[1..] == s[1..] + tail;
      DigitsAppend(s[1..], tail, base);
    }
  }

  lemma FixedAppend(s: string, tail: string)
    requires FixedEnd(s, 10) == |s| && (tail == [] || (DigitOf(tail[0]) == MANY && tail[0] != '.'))
    ensures FixedEnd(s + tail, 10) == |s|
  {
    var n := LeadingDigits(s, 10);
    DigitsAppend(s, tail, 10);
    if n < |s| {
      var after := s[n..][1..];
      DigitsAppend(after, tail, 10);
      assert (s + tail)[n..][1..] == after + tail;
    }
  }

  /** What may follow a value neither continues a numeral nor is a point. */
  lemma TailIsApart(tail: string)
    requires TrailingOk(tail)
    ensures tail == [] || (DigitOf(tail[0]) == MANY && tail[0] != '.')
  {
  }

  lemma NumeralIsWhole(s: string, tail: string)
    requires StartsNumber(s) && NumeralLength(s) == |s| && TrailingOk(tail)
    ensures StartsNumber(s + tail) && NumeralLength(s + tail) == |s|
  {
    var sign := SignLength(s);
    TailIsApart(tail);
    assert SignLength(s + tail) == sign;
    assert (s + tail)[sign..] == s[sign..] + tail;
    FixedAppend(s[sign..], tail);
  }

  lemma NumeralScans(s: string, tail: string)
    requires StartsNumber(s) && NumeralLength(s) == |s| && TrailingOk(tail)
    ensures ScanValue(s + tail) == Scanned(Num(Decimal(s)), tail)
  {
    var t := s + tail;
    NumeralIsWhole(s, tail);
    assert t[..|s|] == s && t[|s|..] == tail;
    AtofReadsNumeral(t);
    NumberIsScanned(t);
  }

  lemma NumberIsScanned(t: string)
    requires StartsNumber(t)
    ensures ScanValue(t) == Scanned(Num(Atof(t)), t[NumeralLength(t)..])
  {
  }

  lemma DatumScans(d: Datum, tail: string)
    requires LegalDatum(d) && TrailingOk(tail)
    ensures ScanValue(DatumText(d) + tail) == Scanned(Meaning(d), tail)
  {
    match d
    case Text(s, quote) =>
      var t := DatumText(d) + tail;
      assert t[1..] == s + [quote] + tail;
      FindAppend(s, quote, tail);
      assert (s + [quote] + tail)[..|s|] == s && (s + [quote] + tail)[|s| + 1..] == tail;
    case Number(s) =>
      NumeralScans(s, tail);
    case Truth(b) =>
      var t := DatumText(d) + tail;
      assert t[..|DatumText(d)|] == DatumText(d) && t[|DatumText(d)|..] == tail;
  }

  // ---- lines ---------------------------------------------------------------------------------------------

  lemma {:induction false} SplitLine(line: string, rest: string)
    requires '\n' !in line
    ensures Split(line + "\n" + rest) == [line] + Split(rest)
  {
    if line == [] {
      assert (line + "\n" + rest)[1..] == rest;
    } else {
      assert (line + "\n" + rest)[1..] == line[1..] + "\n" + rest;
      SplitLine(line[1..], rest);
      assert ([line[1..]] + Split(rest))[1..] == Split(rest);
      assert [line[0]] + line[1..] == line;
    }
  }

  lemma {:induction false} NoReturnsSame(s: string)
    requires '\r' !in s
    ensures NoReturns(s) == s
  {
    if s != [] {
      NoReturnsSame(s[1..]);
    }
  }

  lemma {:induction false} GapTrimmed(gap: string, rest: string)
    requires Trimmed(gap) == [] && rest != [] && !IsSpace(rest[0])
    ensures Trimmed(gap + rest) == rest
  {
    if gap == [] {
      assert gap + rest == rest;
    } else {
      assert (gap + rest)[1..] == gap[1..] + rest;
      GapTrimmed(gap[1..], rest);
    }
  }

  lemma DatumBegins(d: Datum)
    requires LegalDatum(d)
    ensures DatumText(d) != [] && !IsSpace(DatumText(d)[0])
  {
  }

  lemma DatumOneLine(d: Datum)
    requires LegalDatum(d)
    ensures OneLine(DatumText(d))
  {
    if d.Number? {
      NumeralOneLine(d.s);
    }
  }

  lemma FixedAt(s: string, i: nat)
    requires i < FixedEnd(s, 10)
    ensures s[i] == '.' || DigitOf(s[i]) < 10
  {
    var n := LeadingDigits(s, 10);
    LeadingDigitsMean(s, 10);
    if i > n {
      LeadingDigitsMean(s[n..][1..], 10);
      assert s[i] == s[n..][1..][i - n - 1];
    }
  }

  lemma NumeralOneLine(s: string)
    requires StartsNumber(s) && NumeralLength(s) == |s|
    ensures OneLine(s)
  {
    var sign := SignLength(s);
    forall i | 0 <= i < |s| ensures s[i] != '\n' && s[i] != '\r' {
      if i >= sign {
        FixedAt(s[sign..], i - sign);
      }
    }
  }

  lemma SettingOneLine(item: Item)
    requires item.Setting? && LegalItem(item)
    ensures OneLine(ItemText(item))
  {
    DatumOneLine(item.datum);
  }

  lemma SettingIsLogical(item: Item)
    requires item.Setting? && LegalItem(item)
    ensures Logical(ItemText(item)) == ItemText(item) != []
  {
    var line := ItemText(item);
    SettingOneLine(item);
    NoReturnsSame(line);
    assert line[0] == if item.key == [] then ':' else item.key[0];
  }

  lemma SettingValue(gap: string, datum: Datum, tail: string)
    requires LegalDatum(datum) && Trimmed(gap) == [] && TrailingOk(tail)
    ensures ScanValue(Trimmed(gap + (DatumText(datum) + tail))) == Scanned(Meaning(datum), tail)
  {
    DatumBegins(datum);
    GapTrimmed(gap, DatumText(datum) + tail);
    DatumScans(datum, tail);
  }

  /** A setting gives its value to its key. */
  lemma SettingEffect(item: Item)
    requires item.Setting? && LegalItem(item)
    ensures EffectOf(ItemText(item)) == Names(item.key, Some(Meaning(item.datum)), true)
  {
    var Setting(key, gap, datum, tail) := item;
    var value := gap + (DatumText(datum) + tail);
    assert ItemText(item) == key + [':'] + value;
    SettingIsNoComment(item);
    SettingValue(gap, datum, tail);
    ColonEffect(key, value);
  }

  lemma ColonEffect(key: string, value: string)
    requires ':' !in key && !IsComment(key + [':'] + value) && ScanValue(Trimmed(value)).Scanned?
    ensures var scan := ScanValue(Trimmed(value));
      EffectOf(key + [':'] + value) == Names(key, Some(scan.value), TrailingOk(scan.rest))
  {
    var line := key + [':'] + value;
    FindAppend(key, ':', value);
    assert line[..|key|] == key && line[|key| + 1..] == value;
  }

  lemma SettingIsNoComment(item: Item)
    requires item.Setting? && LegalItem(item)
    ensures !IsComment(ItemText(item))
  {
    var line := ItemText(item);
    if |item.key| >= 2 {
      assert line[0] == item.key[0] && line[1] == item.key[1];
    } else if |item.key| == 1 {
      assert line[0] == item.key[0] && line[1] == ':';
    } else {
      assert line[0] == ':';
    }
  }

  /** What the settings leave behind, in the order in which they are written. */
  function AssignAll(settings: seq<Entry>, entries: seq<Entry>): seq<Entry> {
    if settings == [] then entries
    else AssignAll(settings[1..], Assigned(entries, settings[0].key, Some(settings[0].value)))
  }

  lemma DocumentStep(items: seq<Item>)
    requires items != [] && LegalItem(items[0])
    ensures LogicalLines(Document(items)) ==
      (if Logical(ItemText(items[0])) == [] then [] else [Logical(ItemText(items[0]))])
      + LogicalLines(Document(items[1..]))
  {
    if items[0].Setting? {
      SettingOneLine(items[0]);
    }
    SplitLine(ItemText(items[0]), Document(items[1..]));
    WrittenCons(ItemText(items[0]), Split(Document(items[1..])));
  }

  lemma {:induction false} DocumentFolds(items: seq<Item>, entries: seq<Entry>)
    requires forall item <- items :: LegalItem(item)
    ensures Fold(Effects(LogicalLines(Document(items))), entries) == Loaded(true, AssignAll(Settings(items), entries))
    decreases |items|
  {
    if items == [] {
      assert LogicalLines([]) == [];
    } else {
      var item, rest := items[0], LogicalLines(Document(items[1..]));
      DocumentStep(items);
      if item.Setting? {
        var e := Entry(item.key, Meaning(item.datum));
        SettingIsLogical(item);
        SettingEffect(item);
        FoldStep(ItemText(item), rest, entries);
        assert ([e] + Settings(items[1..]))[1..] == Settings(items[1..]);
        DocumentFolds(items[1..], Assigned(entries, e.key, Some(e.value)));
      } else {
        NoReturnsSame(item.text);
        var line := Logical(item.text);
        if line == [] {
          assert [] + rest == rest;
        } else {
          FoldStep(line, rest, entries);
        }
        assert [] + Settings(items[1..]) == Settings(items[1..]);
        DocumentFolds(items[1..], entries);
      }
    }
  }

  predicate DistinctKeys(entries: seq<Entry>) {
    forall i, j :: 0 <= i < j < |entries| ==> entries[i].key != entries[j].key
  }

  lemma {:induction false} AssignDistinct(settings: seq<Entry>, entries: seq<Entry>)
    requires DistinctKeys(entries + settings)
    ensures AssignAll(settings, entries) == entries + settings
    decreases |settings|
  {
    if settings == [] {
      assert entries + settings == entries;
    } else {
      var all := entries + settings;
      forall j | 0 <= j < |entries| ensures entries[j].key != settings[0].key {
        assert all[j].key != all[|entries|].key;
      }
      PositionNone(entries, settings[0].key);
      assert Assigned(entries, settings[0].key, Some(settings[0].value)) == entries + [settings[0]];
      assert entries + [settings[0]] + settings[1..] == all;
      AssignDistinct(settings[1..], entries + [settings[0]]);
    }
  }

  /** A document loads as its settings. */
  lemma RoundTrip(items: seq<Item>, text: string)
    requires (forall item <- items :: LegalItem(item)) && DistinctKeys(Settings(items))
    requires IsDocument(text, items)
    ensures Load(text) == Loaded(true, Settings(items))
  {
    LoadIgnoresReturns(text);
    LastNewlineIgnored(NoReturns(text));
    DocumentFolds(items, []);
    assert [] + Settings(items) == Settings(items);
    AssignDistinct(Settings(items), []);
  }

  // ---- maps ----------------------------------------------------------------------------------------------

  ghost function AsMap(entries: seq<Entry>): map<string, Value>
    requires DistinctKeys(entries)
  {
    map i | 0 <= i < |entries| :: entries[i].key := entries[i].value
  }

  /** The entries hold each key of the map once, with its value. */
  ghost predicate Lists(entries: seq<Entry>, values: map<string, Value>) {
    && DistinctKeys(entries)
    && (forall i :: 0 <= i < |entries| ==> entries[i].key in values && entries[i].value == values[entries[i].key])
    && (forall key <- values.Keys :: exists i :: 0 <= i < |entries| && entries[i].key == key)
  }

  lemma ListsIsMap(entries: seq<Entry>, values: map<string, Value>)
    requires Lists(entries, values)
    ensures AsMap(entries) == values
  {
  }

  lemma ListsOneMore(entries: seq<Entry>, values: map<string, Value>, key: string)
    requires key in values && Lists(entries, values - {key})
    ensures Lists([Entry(key, values[key])] + entries, values)
  {
    var all := [Entry(key, values[key])] + entries;
    forall k <- values.Keys ensures exists i :: 0 <= i < |all| && all[i].key == k {
      if k == key {
        assert all[0].key == k;
      } else {
        assert k in (values - {key}).Keys;
        var i :| 0 <= i < |entries| && entries[i].key == k;
        assert all[i + 1].key == k;
      }
    }
  }

  ghost function Meanings(m: map<string, Datum>): map<string, Value> { map key | key in m :: Meaning(m[key]) }

  /** A map of legal keys and values, written in any order between any blank and comment lines, with white space,
      trailing comments and carriage returns, is read back. */
  lemma MapIsRead(m: map<string, Datum>, items: seq<Item>, text: string)
    requires (forall item <- items :: LegalItem(item)) && Lists(Settings(items), Meanings(m))
    requires IsDocument(text, items)
    ensures Load(text).ok && DistinctKeys(Load(text).entries) && AsMap(Load(text).entries) == Meanings(m)
  {
    var settings, values := Settings(items), Meanings(m);
    RoundTrip(items, text);
    ListsIsMap(settings, values);
  }

  lemma PlainIsLegal(key: string, d: Datum)
    requires LegalKey(key) && LegalDatum(d)
    ensures LegalItem(Setting(key, "", d, ""))
  {
  }

  /** And every such map can be written. */
  lemma {:induction false} MapCanBeWritten(m: map<string, Datum>) returns (items: seq<Item>)
    requires forall key <- m.Keys :: LegalKey(key) && LegalDatum(m[key])
    ensures (forall item <- items :: LegalItem(item)) && Lists(Settings(items), Meanings(m))
    decreases |m|
  {
    items := [];
    if |m| > 0 {
      var key :| key in m;
      var others := m - {key};
      assert m.Keys == others.Keys + {key};
      assert |others.Keys| < |m.Keys|;
      var rest := MapCanBeWritten(others);
      var item := Setting(key, "", m[key], "");
      PlainIsLegal(key, m[key]);
      items := [item] + rest;
      assert items[1..] == rest;
      assert Meanings(others) == Meanings(m) - {key};
      ListsOneMore(Settings(rest), Meanings(m), key);
    }
  }

  // ---- the legal keys are all there are ------------------------------------------------------------------

  predicate IsLine(line: string) { OneLine(line) && line != [] && !IsSpace(line[0]) }

  lemma {:induction false} SplitClean(text: string)
    ensures forall i :: 0 <= i < |Split(text)| ==> '\n' !in Split(text)[i]
  {
    if text != [] {
      SplitClean(text[1..]);
    }
  }

  lemma {:induction false} NoReturnsClean(s: string)
    ensures '\r' !in NoReturns(s) && forall c <- NoReturns(s) :: c in s
  {
    if s != [] {
      NoReturnsClean(s[1..]);
    }
  }

  lemma {:induction false} TrimmedClean(s: string)
    ensures forall c <- Trimmed(s) :: c in s
  {
    if s != [] && IsSpace(s[0]) {
      TrimmedClean(s[1..]);
    }
  }

  lemma {:induction false} WrittenClean(lines: seq<string>)
    requires forall i :: 0 <= i < |lines| ==> '\n' !in lines[i]
    ensures forall i :: 0 <= i < |Written(lines)| ==> IsLine(Written(lines)[i])
  {
    if lines != [] {
      NoReturnsClean(lines[0]);
      TrimmedClean(NoReturns(lines[0]));
      WrittenClean(lines[1..]);
    }
  }

  lemma LineNamesLegalKey(line: string)
    requires IsLine(line) && EffectOf(line).Names?
    ensures LegalKey(EffectOf(line).key)
  {
    var key := line[..Find(line, ':')];
    assert EffectOf(line).key == key;
    assert forall c <- key :: c in line;
    if |key| >= 2 {
      assert key[0] == line[0] && key[1] == line[1];
    }
  }

  lemma {:induction false} HeardLegal(lines: seq<string>)
    requires forall i :: 0 <= i < |lines| ==> IsLine(lines[i])
    ensures forall i :: 0 <= i < |Heard(Effects(lines))| ==> LegalKey(Heard(Effects(lines))[i].key)
  {
    if lines != [] {
      assert ([EffectOf(lines[0])] + Effects(lines[1..]))[1..] == Effects(lines[1..]);
      if EffectOf(lines[0]).Names? {
        LineNamesLegalKey(lines[0]);
      }
      HeardLegal(lines[1..]);
    }
  }

  ghost predicate CanBeLoaded(key: string) {
    exists text :: Position(Load(text).entries, key) < |Load(text).entries|
  }

  /** The legal keys are exactly those that some text gives a configuration. */
  lemma LegalKeyIff(key: string)
    ensures LegalKey(key) <==> CanBeLoaded(key)
  {
    if LegalKey(key) {
      var item := Setting(key, "", Truth(true), "");
      var text := Document([item]);
      PlainIsLegal(key, Truth(true));
      assert [item][1..] == [] && text == ItemText(item) + "\n" + Document([]);
      SettingOneLine(item);
      NoReturnsSame(text);
      RoundTrip([item], text);
      PositionIs(Load(text).entries, 0);
    }
    if text :| Position(Load(text).entries, key) < |Load(text).entries| {
      var heard := Heard(Effects(LogicalLines(text)));
      SplitClean(text);
      WrittenClean(Split(text));
      HeardLegal(LogicalLines(text));
      LoadMeans(text);
      TableLookup(heard, key);
    }
  }
}

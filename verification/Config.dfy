/** The configuration loader of src/cfg.c: a growing line buffer that is cut up in place, and a growing array of
    entries. */
module Config {
  import opened Basics
  import opened ConfigLines
  import opened ConfigValues
  import opened ConfigSpec

  const FIRST_LINE := 128
  const FIRST_ENTRIES := 32

  /** A stream over a text. Reaching the end is only noticed by reading there. */
  class File {
    const text: string
    var pos: nat
    var eof: bool

    ghost predicate Valid()
      reads this
    {
      pos <= |text| && NUL !in text
    }

    ghost function Rest(): string
      reads this
      requires Valid()
    {
      text[pos..]
    }

    constructor (text: string)
      requires NUL !in text
      ensures Valid() && Rest() == text && !eof
    {
      this.text, pos, eof := text, 0, false;
    }

    method GetC() returns (c: Option<char>)
      requires Valid()
      modifies this
      ensures Valid()
      ensures if old(Rest()) == [] then c == None && eof && pos == old(pos)
              else c == Some(old(Rest())[0]) && eof == old(eof) && pos == old(pos) + 1 && Rest() == old(Rest())[1..]
    {
      if pos == |text| {
        eof := true;
        return None;
      }
      c := Some(text[pos]);
      pos := pos + 1;
    }
  }

  /** cc_realloc to a larger size. */
  method Realloc<T(0)>(a: array<T>, capacity: nat) returns (grown: array<T>)
    requires a.Length <= capacity
    ensures fresh(grown) && grown.Length == capacity && (forall i :: 0 <= i < a.Length ==> grown[i] == a[i])
  {
    grown := new T[capacity];
    forall i | 0 <= i < a.Length {
      grown[i] := a[i];
    }
  }

  // ---- strings in the line buffer ------------------------------------------------------------------------

  lemma Suffix(buffer: seq<char>, at: nat, s: string, i: nat)
    requires StringAt(buffer, at, s) && i <= |s|
    ensures StringAt(buffer, at + i, s[i..])
    ensures buffer[at + i] == if i == |s| then NUL else s[i]
    ensures i < |s| ==> s[i] != NUL
  {
  }

  /** Putting a NUL over the character at `i` cuts the string in two. */
  lemma CutInTwo(before: seq<char>, after: seq<char>, at: nat, s: string, i: nat)
    requires StringAt(before, at, s) && i < |s| && after == before[at + i := NUL]
    ensures StringAt(after, at, s[..i]) && StringAt(after, at + i + 1, s[i + 1..])
  {
  }

  /** read_line. */
  method ReadLine(f: File, buffer: array<char>) returns (size: nat, line: array<char>)
    requires f.Valid() && !f.eof
    modifies f, buffer
    ensures f.Valid() && (line == buffer || fresh(line))
    ensures var r := ReadOn(old(f.Rest()), []);
      && size == |r.line| && f.Rest() == r.rest && f.eof == r.eof
      && (size > 0 ==> HoldsString(line[..], r.line))
  {
    size, line := 0, buffer;
    ghost var sofar: string := [];
    while true
      invariant f.Valid() && !f.eof && (line == buffer || fresh(line))
      invariant size == |sofar| && (size > 0 ==> HoldsString(line[..], sofar))
      invariant ReadOn(f.Rest(), sofar) == ReadOn(old(f.Rest()), [])
      decreases |f.text| - f.pos
    {
      var c := f.GetC();
      if c.None? {
        break;
      }
      if size == 0 && IsSpace(c.value) {
        continue;
      }
      if c.value == '\r' {
        continue;
      }
      if c.value == '\n' {
        break;
      }
      if size + 2 > line.Length {
        line := Realloc(line, if line.Length > 0 then line.Length * 2 else FIRST_LINE);
      }
      line[size] := c.value;
      line[size + 1] := NUL;
      size := size + 1;
      sofar := sofar + [c.value];
    }
  }

  /** line_is_comment of the string of length `size` at `at`. */
  predicate LineIsComment(line: seq<char>, at: nat, size: nat)
    requires at + size <= |line|
  {
    size == 0 || line[at] == '#' || (size >= 2 && line[at] == '/' && line[at + 1] == '/')
  }

  lemma CommentInBuffer(line: seq<char>, at: nat, s: string)
    requires StringAt(line, at, s)
    ensures LineIsComment(line, at, |s|) <==> IsComment(s)
  {
    Suffix(line, at, s, 0);
    if |s| >= 2 {
      Suffix(line, at, s, 1);
    }
  }

  /** trim. */
  method Trim(line: array<char>, at: nat, ghost s: string) returns (to: nat)
    requires StringAt(line[..], at, s)
    ensures to + |Trimmed(s)| == at + |s| && StringAt(line[..], to, Trimmed(s))
  {
    to := at;
    ghost var rest := s;
    Suffix(line[..], to, rest, 0);
    while line[to] != NUL && IsSpace(line[to])
      invariant StringAt(line[..], to, rest) && Trimmed(rest) == Trimmed(s) && to + |rest| == at + |s|
      invariant line[to] == if rest == [] then NUL else rest[0]
      decreases |rest|
    {
      Suffix(line[..], to, rest, 1);
      to, rest := to + 1, rest[1..];
      Suffix(line[..], to, rest, 0);
    }
  }

  /** string_duplicate. */
  method StringDuplicate(line: array<char>, at: nat, ghost s: string) returns (copy: string)
    requires StringAt(line[..], at, s)
    ensures copy == s
  {
    copy := [];
    Suffix(line[..], at, s, 0);
    while line[at + |copy|] != NUL
      invariant |copy| <= |s| && copy == s[..|copy|] && line[at + |copy|] == if |copy| == |s| then NUL else s[|copy|]
      decreases |s| - |copy|
    {
      Suffix(line[..], at, s, |copy|);
      Suffix(line[..], at, s, |copy| + 1);
      copy := copy + [line[at + |copy|]];
    }
    Suffix(line[..], at, s, |copy|);
  }

  /** strchr, as an index; the position of the terminator when `c` is not there. */
  method StrChr(line: array<char>, at: nat, c: char, ghost s: string) returns (to: nat)
    requires StringAt(line[..], at, s) && c != NUL
    ensures to == at + Find(s, c)
    ensures line[to] == if Find(s, c) == |s| then NUL else c
  {
    var n := 0;
    Suffix(line[..], at, s, 0);
    while line[at + n] != NUL && line[at + n] != c
      invariant n <= |s| && n + Find(s[n..], c) == Find(s, c)
      invariant line[at + n] == if n == |s| then NUL else s[n]
      decreases |s| - n
    {
      assert s[n..][1..] == s[n + 1..];
      Suffix(line[..], at, s, n);
      Suffix(line[..], at, s, n + 1);
      n := n + 1;
    }
    Suffix(line[..], at, s, n);
    to := at + n;
  }

  /** A loop over the digits at `at`. */
  method SkipDigits(line: array<char>, at: nat, ghost s: string) returns (to: nat)
    requires StringAt(line[..], at, s)
    ensures to == at + LeadingDigits(s, 10) && StringAt(line[..], to, s[LeadingDigits(s, 10)..])
  {
    var n := 0;
    Suffix(line[..], at, s, 0);
    while IsDigit(line[at + n])
      invariant n <= |s| && n + LeadingDigits(s[n..], 10) == LeadingDigits(s, 10)
      invariant line[at + n] == if n == |s| then NUL else s[n]
      decreases |s| - n
    {
      assert s[n..][1..] == s[n + 1..];
      Suffix(line[..], at, s, n + 1);
      n := n + 1;
    }
    Suffix(line[..], at, s, n);
    to := at + n;
  }

  /** strncmp with a word, for equality. */
  method StartsWith(line: array<char>, at: nat, word: string, ghost s: string) returns (b: bool)
    requires StringAt(line[..], at, s) && NUL !in word
    ensures b <==> word <= s
  {
    for i := 0 to |word|
      invariant i <= |s| && word[..i] == s[..i]
    {
      Suffix(line[..], at, s, i);
      if line[at + i] != word[i] {
        return false;
      }
    }
    return true;
  }

  /** The scan of a numeral in parse_number. */
  method SkipNumeral(line: array<char>, at: nat, ghost s: string) returns (ok: bool, to: nat)
    requires StringAt(line[..], at, s)
    ensures ok == StartsNumber(s)
    ensures ok ==> StringAt(line[..], to, s[NumeralLength(s)..])
  {
    to := at;
    ghost var body := s[SignLength(s)..];
    Suffix(line[..], to, s, 0);
    Suffix(line[..], to, s, SignLength(s));
    if line[to] == '-' || line[to] == '+' {
      to := to + 1;
    }
    if !IsDigit(line[to]) && line[to] != '.' {
      return false, to;
    }
    to := SkipFixed(line, to, body);
    NumeralRest(s);
    ok := true;
  }

  lemma NumeralRest(s: string)
    ensures var body := s[SignLength(s)..]; body[FixedEnd(body, 10)..] == s[NumeralLength(s)..]
  {
  }

  lemma FixedEndSplits(s: string)
    ensures var after := s[LeadingDigits(s, 10)..];
      s[FixedEnd(s, 10)..] ==
      if after != [] && after[0] == '.' then after[1..][LeadingDigits(after[1..], 10)..] else after
  {
  }

  method SkipFixed(line: array<char>, at: nat, ghost s: string) returns (to: nat)
    requires StringAt(line[..], at, s)
    ensures StringAt(line[..], to, s[FixedEnd(s, 10)..])
  {
    to := SkipDigits(line, at, s);
    ghost var after := s[LeadingDigits(s, 10)..];
    FixedEndSplits(s);
    Suffix(line[..], to, after, 0);
    if line[to] == '.' {
      Suffix(line[..], to, after, 1);
      to := SkipDigits(line, to + 1, after[1..]);
    }
  }

  /** The scan of a quoted string in parse_string, which puts a NUL over the closing quote. */
  method CutString(line: array<char>, at: nat, delim: char, ghost s: string) returns (ok: bool, to: nat)
    requires StringAt(line[..], at, s) && s != [] && delim == s[0]
    modifies line
    ensures ok == ScanString(s).Scanned?
    ensures ok ==> StringAt(line[..], at + 1, ScanString(s).value.str) && StringAt(line[..], to, ScanString(s).rest)
  {
    ghost var body := s[1..];
    ghost var end := Find(body, delim);
    Suffix(line[..], at, s, 0);
    Suffix(line[..], at, s, 1);
    to := StrChr(line, at + 1, delim, body);
    if line[to] == NUL {
      return false, to;
    }
    ghost var before := line[..];
    line[to] := NUL;
    CutInTwo(before, line[..], at + 1, body, end);
    assert ScanString(s) == Scanned(Str(body[..end]), body[end + 1..]);
    return true, to + 1;
  }

  /** strlen. */
  method StrLen(line: array<char>, at: nat, ghost s: string) returns (length: nat)
    requires StringAt(line[..], at, s)
    ensures length == |s|
  {
    length := 0;
    Suffix(line[..], at, s, 0);
    while line[at + length] != NUL
      invariant length <= |s| && line[at + length] == if length == |s| then NUL else s[length]
      decreases |s| - length
    {
      Suffix(line[..], at, s, length);
      length := length + 1;
      Suffix(line[..], at, s, length);
    }
    Suffix(line[..], at, s, length);
  }

  /** Puts a NUL over the colon, and finds the key before it and the value behind it. */
  method CutKey(line: array<char>, sep: nat, ghost s: string) returns (key: string, value: nat)
    requires HoldsString(line[..], s) && sep < |s|
    modifies line
    ensures key == s[..sep] && StringAt(line[..], value, Trimmed(s[sep + 1..]))
  {
    ghost var before := line[..];
    line[sep] := NUL;
    CutInTwo(before, line[..], 0, s, sep);
    key := StringDuplicate(line, 0, s[..sep]);
    value := Trim(line, sep + 1, s[sep + 1..]);
  }

  lemma SettingIs(s: string, sep: nat, scan: Scan, entries: seq<Entry>)
    requires sep == Find(s, ':') < |s| && !IsComment(s) && scan == ScanValue(Trimmed(s[sep + 1..]))
    ensures var key := s[..sep];
      var added := Added(entries, key);
      && Good(EffectOf(s)) == (scan.Scanned? && TrailingOk(scan.rest))
      && After(EffectOf(s), entries) ==
         if scan.Scanned? then added[Position(entries, key) := Entry(key, scan.value)] else added
  {
  }

  // ---- entries -------------------------------------------------------------------------------------------

  class Settings {
    var entries: array<Entry>   // its length is the capacity
    var count: nat

    ghost predicate Valid()
      reads this
    {
      count <= entries.Length
    }

    ghost function Contents(): seq<Entry>
      reads this, entries
      requires Valid()
    {
      entries[..count]
    }

    constructor ()
      ensures Valid() && Contents() == [] && fresh(entries)
    {
      count := 0;
      entries := new Entry[0];
    }

    /** find_entry. */
    method FindEntry(key: string) returns (found: Option<nat>)
      requires Valid()
      ensures var n := Position(Contents(), key); found == if n < count then Some(n) else None
    {
      var i := 0;
      assert Contents()[0..] == Contents();
      while i < count
        invariant i <= count && i + Position(Contents()[i..], key) == Position(Contents(), key)
      {
        assert Contents()[i..][1..] == Contents()[i + 1..];
        if entries[i].key == key {
          return Some(i);
        }
        i := i + 1;
      }
      return None;
    }

    /** ensure: makes room for one more entry. */
    method Ensure()
      requires Valid()
      modifies this`entries
      ensures Valid() && count < entries.Length && Contents() == old(Contents())
      ensures entries == old(entries) || fresh(entries)
    {
      if count + 1 < entries.Length {
        return;
      }
      entries := Realloc(entries, if entries.Length > 0 then entries.Length * 2 else FIRST_ENTRIES);
    }

    /** find_entry_or_add. */
    method FindEntryOrAdd(key: string) returns (i: nat)
      requires Valid()
      modifies this, entries
      ensures Valid() && i == Position(old(Contents()), key) < count && Contents() == Added(old(Contents()), key)
      ensures entries == old(entries) || fresh(entries)
    {
      var found := FindEntry(key);
      if found.Some? {
        return found.value;
      }
      Ensure();
      i := count;
      entries[i] := Entry(key, Unset);
      count := count + 1;
    }

    /** What a scan of the value `s` at `at` leaves behind: the entry and the position after it, or nothing. */
    twostate predicate Scans(line: array<char>, i: nat, scan: Scan, ok: bool, to: nat)
      requires old(Valid()) && Valid() && i < old(count)
      reads this, entries, line
    {
      && entries == old(entries) && count == old(count)
      && match scan
         case Failed => !ok && Contents() == old(Contents())
         case Scanned(value, rest) =>
           && ok && Contents() == old(Contents())[i := Entry(old(Contents())[i].key, value)]
           && StringAt(line[..], to, rest)
    }

    method SetValue(i: nat, value: Value)
      requires Valid() && i < count
      modifies entries
      ensures Valid() && Contents() == old(Contents())[i := Entry(old(Contents())[i].key, value)]
    {
      entries[i] := entries[i].(value := value);
    }

    /** parse_number. */
    method ParseNumber(line: array<char>, value: nat, i: nat, ghost s: string) returns (ok: bool, to: nat)
      requires Valid() && i < count && StringAt(line[..], value, s)
      modifies entries
      ensures Valid() && Scans(line, i, ScanNumber(s), ok, to)
    {
      ok, to := SkipNumeral(line, value, s);
      if !ok {
        return;
      }
      var text := StringDuplicate(line, value, s);
      SetValue(i, Num(Atof(text)));
    }

    /** parse_string. */
    method ParseString(line: array<char>, value: nat, i: nat, delim: char, ghost s: string)
      returns (ok: bool, to: nat)
      requires Valid() && i < count && StringAt(line[..], value, s) && s != [] && delim == s[0]
      modifies entries, line
      ensures Valid() && Scans(line, i, ScanString(s), ok, to)
    {
      ok, to := CutString(line, value, delim, s);
      if !ok {
        return;
      }
      var str := StringDuplicate(line, value + 1, ScanString(s).value.str);
      SetValue(i, Str(str));
    }

    /** parse_bool. */
    method ParseBool(line: array<char>, value: nat, i: nat, ghost s: string) returns (ok: bool, to: nat)
      requires Valid() && i < count && StringAt(line[..], value, s)
      modifies entries
      ensures Valid() && Scans(line, i, ScanBool(s), ok, to)
    {
      var isTrue := StartsWith(line, value, "true", s);
      if isTrue {
        to := value + 4;
        Suffix(line[..], value, s, 4);
        SetValue(i, Bool(true));
        return true, to;
      }
      var isFalse := StartsWith(line, value, "false", s);
      if isFalse {
        to := value + 5;
        Suffix(line[..], value, s, 5);
        SetValue(i, Bool(false));
        return true, to;
      }
      return false, value;
    }

    /** parse_value. */
    method ParseValue(line: array<char>, value: nat, i: nat, ghost s: string) returns (ok: bool, to: nat)
      requires Valid() && i < count && StringAt(line[..], value, s)
      modifies entries, line
      ensures Valid() && Scans(line, i, ScanValue(s), ok, to)
    {
      Suffix(line[..], value, s, 0);
      var c := line[value];
      if c == '.' || c == '+' || c == '-' || IsDigit(c) {
        ok, to := ParseNumber(line, value, i, s);
      } else if c == 't' || c == 'f' {
        ok, to := ParseBool(line, value, i, s);
      } else if c == '\'' || c == '\"' {
        ok, to := ParseString(line, value, i, c, s);
      } else {
        ok, to := false, value;
      }
    }

    /** The text after a value is white space and perhaps a comment. */
    method TextLeft(line: array<char>, at: nat, ghost rest: string) returns (left: bool)
      requires StringAt(line[..], at, rest)
      ensures left <==> !TrailingOk(rest)
    {
      var value := Trim(line, at, rest);
      Suffix(line[..], value, Trimmed(rest), 0);
      var length := StrLen(line, value, Trimmed(rest));
      CommentInBuffer(line[..], value, Trimmed(rest));
      left := line[value] != NUL && !LineIsComment(line[..], value, length);
    }

    /** The part of parse for a line that has a colon at `sep`. */
    method ParseSetting(line: array<char>, sep: nat, ghost s: string) returns (ok: bool)
      requires Valid() && HoldsString(line[..], s) && sep == Find(s, ':') < |s| && !IsComment(s)
      modifies this, entries, line
      ensures Valid() && (entries == old(entries) || fresh(entries))
      ensures ok == Good(EffectOf(s)) && Contents() == After(EffectOf(s), old(Contents()))
    {
      var key, value := CutKey(line, sep, s);
      ghost var text := Trimmed(s[sep + 1..]);
      SettingIs(s, sep, ScanValue(text), Contents());
      var i := FindEntryOrAdd(key);
      ok, value := ParseValue(line, value, i, text);
      if !ok {
        return;
      }
      var left := TextLeft(line, value, ScanValue(text).rest);
      ok := !left;
    }

    /** The body of the loop of parse, after a line that is not empty was read. */
    method ParseLine(line: array<char>, size: nat, ghost s: string) returns (ok: bool)
      requires Valid() && HoldsString(line[..], s) && size == |s|
      modifies this, entries, line
      ensures Valid() && (entries == old(entries) || fresh(entries))
      ensures ok == Good(EffectOf(s)) && Contents() == After(EffectOf(s), old(Contents()))
    {
      CommentInBuffer(line[..], 0, s);
      if LineIsComment(line[..], 0, size) {
        return true;
      }
      var sep := StrChr(line, 0, ':', s);
      if line[sep] == NUL {
        return false;
      }
      ok := ParseSetting(line, sep, s);
    }

    /** parse. */
    method Parse(f: File) returns (success: bool)
      requires Valid() && f.Valid() && !f.eof
      modifies this, entries, f
      ensures Valid()
      ensures Loaded(success, Contents()) == Fold(Effects(LogicalLines(old(f.Rest()))), old(Contents()))
    {
      var line := new char[0];
      ghost var todo := LogicalLines(f.Rest());
      while !f.eof
        invariant Valid() && f.Valid() && fresh(line) && (entries == old(entries) || fresh(entries))
        invariant todo == if f.eof then [] else LogicalLines(f.Rest())
        invariant Fold(Effects(todo), Contents()) == Fold(Effects(LogicalLines(old(f.Rest()))), old(Contents()))
        decreases |f.Rest()|, !f.eof
      {
        ghost var r := ReadOn(f.Rest(), []);
        ReadsLogicalLine(f.Rest());
        var size;
        size, line := ReadLine(f, line);
        todo := if f.eof then [] else LogicalLines(f.Rest());
        if size == 0 {
          assert [] + todo == todo;
          continue;
        }
        FoldStep(r.line, todo, Contents());
        success := ParseLine(line, size, r.line);
        if !success {
          return;
        }
      }
      success := true;
    }
  }

  /** cc_cfg_load, of a file with the given text. */
  method LoadConfig(text: string) returns (cfg: Settings)
    requires NUL !in text
    ensures fresh(cfg) && cfg.Valid() && cfg.Contents() == Load(text).entries
  {
    cfg := new Settings();
    var file := new File(text);
    var success := cfg.Parse(file);
  }
}

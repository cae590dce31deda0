/** How the configuration reader of src/cfg.c divides a text into logical lines. */
module ConfigLines {
  import opened Basics

  /** isspace in the C locale. */
  predicate IsSpace(c: char) { c == ' ' || c == '\t' || c == '\n' || c == '\r' || c == '\U{0B}' || c == '\U{0C}' }

  /** trim: the string from its first character that is not white space. */
  function Trimmed(s: string): (r: string)
    ensures |r| <= |s| && (r != [] ==> !IsSpace(r[0]))
  {
    if s != [] && IsSpace(s[0]) then Trimmed(s[1..]) else s
  }

  function NoReturns(s: string): string {
    if s == [] then []
    else if s[0] == '\r' then NoReturns(s[1..])
    else [s[0]] + NoReturns(s[1..])
  }

  // ---- what a text means ---------------------------------------------------------------------------------

  /** The pieces of a text between its newlines. */
  function Split(text: string): (lines: seq<string>)
    ensures lines != []
  {
    if text == [] then [[]]
    else
      var rest := Split(text[1..]);
      if text[0] == '\n' then [[]] + rest else [[text[0]] + rest[0]] + rest[1..]
  }

  /** A logical line is a line without its carriage returns and without its leading white space. */
  function Logical(line: string): string { Trimmed(NoReturns(line)) }

  /** The logical lines that are not empty. */
  function Written(lines: seq<string>): seq<string> {
    if lines == [] then []
    else (if Logical(lines[0]) == [] then [] else [Logical(lines[0])]) + Written(lines[1..])
  }

  function LogicalLines(text: string): seq<string> { Written(Split(text)) }

  // ---- what the reader does ------------------------------------------------------------------------------

  datatype Reading = Reading(line: string, rest: string, eof: bool)

  /** read_line, with `line` read so far and `rest` to come. */
  function ReadOn(rest: string, line: string): (r: Reading)
    ensures |r.rest| <= |rest| && (!r.eof ==> |r.rest| < |rest|) && (r.eof ==> r.rest == [])
  {
    if rest == [] then Reading(line, [], true)
    else if line == [] && IsSpace(rest[0]) then ReadOn(rest[1..], line)
    else if rest[0] == '\r' then ReadOn(rest[1..], line)
    else if rest[0] == '\n' then Reading(line, rest[1..], false)
    else ReadOn(rest[1..], line + [rest[0]])
  }

  lemma {:induction false} ReadsToNewline(rest: string, line: string)
    requires line != []
    ensures var r, lines := ReadOn(rest, line), Split(rest);
      && r.line == line + NoReturns(lines[0])
      && (r.eof <==> lines[1..] == []) && (!r.eof ==> Split(r.rest) == lines[1..])
    decreases |rest|
  {
    if rest != [] {
      var lines := Split(rest[1..]);
      assert ([[rest[0]] + lines[0]] + lines[1..])[1..] == lines[1..];
      assert ([[]] + lines)[1..] == lines;
      if rest[0] == '\r' {
        ReadsToNewline(rest[1..], line);
        assert NoReturns([rest[0]] + lines[0]) == NoReturns(lines[0]);
      } else if rest[0] != '\n' {
        ReadsToNewline(rest[1..], line + [rest[0]]);
        assert NoReturns([rest[0]] + lines[0]) == [rest[0]] + NoReturns(lines[0]);
      }
    }
  }

  lemma WrittenCons(line: string, lines: seq<string>)
    ensures Written([line] + lines) == (if Logical(line) == [] then [] else [Logical(line)]) + Written(lines)
  {
    assert ([line] + lines)[1..] == lines;
  }

  /** One call of read_line takes the first logical line that is not empty, and the rest keeps the others. */
  lemma {:induction false} ReadsLogicalLine(rest: string)
    ensures var r := ReadOn(rest, []);
      LogicalLines(rest) == (if r.line == [] then [] else [r.line]) + (if r.eof then [] else LogicalLines(r.rest))
    decreases |rest|
  {
    if rest != [] {
      var c, lines := rest[0], Split(rest[1..]);
      if !IsSpace(c) {
        assert [c] + rest[1..] == rest;
        ReadsWord(c, rest[1..]);
      } else {
        ReadsLogicalLine(rest[1..]);
        if c == '\n' {
          WrittenCons([], lines);
        } else {
          SpaceIsDropped(c, lines[0]);
          WrittenCons([c] + lines[0], lines[1..]);
          WrittenCons(lines[0], lines[1..]);
          assert [lines[0]] + lines[1..] == lines;
        }
      }
    }
  }

  lemma ReadsWord(c: char, rest: string)
    requires !IsSpace(c)
    ensures var r := ReadOn([c] + rest, []);
      r.line != [] && LogicalLines([c] + rest) == [r.line] + (if r.eof then [] else LogicalLines(r.rest))
  {
    var lines := Split(rest);
    assert ([c] + rest)[1..] == rest && [] + [c] == [c];
    ReadsToNewline(rest, [c]);
    LogicalWord(c, lines[0]);
    WrittenCons([c] + lines[0], lines[1..]);
  }

  lemma LogicalWord(c: char, line: string)
    requires !IsSpace(c)
    ensures Logical([c] + line) == [c] + NoReturns(line)
  {
    assert ([c] + line)[1..] == line;
  }

  lemma SpaceIsDropped(c: char, line: string)
    requires IsSpace(c)
    ensures Logical([c] + line) == Logical(line)
  {
    assert ([c] + line)[1..] == line;
    if c != '\r' {
      assert ([c] + NoReturns(line))[1..] == NoReturns(line);
    }
  }

  // ---- carriage returns ----------------------------------------------------------------------------------

  lemma {:induction false} NoReturnsTwice(s: string)
    ensures NoReturns(NoReturns(s)) == NoReturns(s)
  {
    if s != [] {
      NoReturnsTwice(s[1..]);
      if s[0] != '\r' {
        assert ([s[0]] + NoReturns(s[1..]))[1..] == NoReturns(s[1..]);
      }
    }
  }

  function Each(lines: seq<string>): seq<string> {
    if lines == [] then [] else [NoReturns(lines[0])] + Each(lines[1..])
  }

  lemma {:induction false} SplitNoReturns(text: string)
    ensures Split(NoReturns(text)) == Each(Split(text))
  {
    if text != [] {
      SplitNoReturns(text[1..]);
      var c, lines := text[0], Split(text[1..]);
      if c == '\n' {
        assert ([[]] + lines)[1..] == lines;
      } else {
        assert ([[c] + lines[0]] + lines[1..])[1..] == lines[1..];
        assert ([c] + lines[0])[1..] == lines[0];
        assert Each(lines) == [NoReturns(lines[0])] + Each(lines[1..]);
      }
      if c != '\r' {
        assert ([c] + NoReturns(text[1..]))[1..] == NoReturns(text[1..]);
      }
    }
  }

  lemma {:induction false} WrittenSame(lines: seq<string>)
    ensures Written(Each(lines)) == Written(lines)
  {
    if lines != [] {
      NoReturnsTwice(lines[0]);
      WrittenSame(lines[1..]);
      WrittenCons(NoReturns(lines[0]), Each(lines[1..]));
    }
  }

  /** A carriage return anywhere in the text makes no difference. */
  lemma ReturnsIgnored(text: string)
    ensures LogicalLines(NoReturns(text)) == LogicalLines(text)
  {
    SplitNoReturns(text);
    WrittenSame(Split(text));
  }

  // ---- the last newline ----------------------------------------------------------------------------------

  lemma {:induction false} SplitEnd(text: string)
    ensures Split(text + "\n") == Split(text) + [[]]
  {
    if text == [] {
      assert text + "\n" == "\n" && "\n"[1..] == [];
    } else {
      assert (text + "\n")[1..] == text[1..] + "\n";
      SplitEnd(text[1..]);
    }
  }

  lemma {:induction false} WrittenEnd(lines: seq<string>)
    ensures Written(lines + [[]]) == Written(lines)
  {
    if lines == [] {
      assert lines + [[]] == [[]];
    } else {
      assert (lines + [[]])[1..] == lines[1..] + [[]];
      WrittenEnd(lines[1..]);
    }
  }

  /** A newline at the end of the text makes no difference. */
  lemma LastNewlineIgnored(text: string)
    ensures LogicalLines(text + "\n") == LogicalLines(text)
  {
    SplitEnd(text);
    WrittenEnd(Split(text));
  }
}

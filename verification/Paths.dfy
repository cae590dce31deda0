/** The path functions of src/filesystem.c, on character buffers, and what they compute on strings. */
module Paths {
  import opened Basics

  const SEP: char := '/'

  predicate IsSep(c: char) { c == '\\' || c == '/' }

  // ---- joining -------------------------------------------------------------------------------------------

  function Normalised(s: string): (r: string)
    ensures |r| == |s| && forall i :: 0 <= i < |s| ==> r[i] == if IsSep(s[i]) then SEP else s[i]
  {
    seq(|s|, i requires 0 <= i < |s| => if IsSep(s[i]) then SEP else s[i])
  }

  /** A component without its trailing separators. */
  function Stripped(s: string): (r: string)
    ensures |r| <= |s| && r == s[..|r|]
    ensures forall i :: |r| <= i < |s| ==> IsSep(s[i])
    ensures r != [] ==> !IsSep(r[|r| - 1])
  {
    if s == [] then []
    else if IsSep(s[|s| - 1]) then Stripped(s[..|s| - 1])
    else s
  }

  function Component(s: string): string { Normalised(Stripped(s)) }

  function Joined(comps: seq<string>): string {
    if comps == [] then []
    else if |comps| == 1 then Component(comps[0])
    else Joined(comps[..|comps| - 1]) + [SEP] + Component(comps[|comps| - 1])
  }

  /** The test of the loop in ccfs_path_concat for component `k`. */
  predicate Fits(comps: seq<string>, size: nat, k: nat)
    requires k < |comps|
  {
    |Joined(comps[..k])| + |Component(comps[k])| + 1 < size
  }

  /** How many components are joined, when the first `k` are. */
  ghost function Kept(comps: seq<string>, size: nat, k: nat): (n: nat)
    requires k <= |comps|
    ensures k <= n <= |comps|
    decreases |comps| - k
  {
    if k < |comps| && Fits(comps, size, k) then Kept(comps, size, k + 1) else k
  }

  /** The components joined are those before the first one that does not fit. */
  lemma {:induction false} KeptFit(comps: seq<string>, size: nat, k: nat)
    requires k <= |comps|
    ensures var n := Kept(comps, size, k);
      (forall i :: k <= i < n ==> Fits(comps, size, i)) && (n < |comps| ==> !Fits(comps, size, n))
    decreases |comps| - k
  {
    if k < |comps| && Fits(comps, size, k) {
      KeptFit(comps, size, k + 1);
    }
  }

  function Extend(joined: string, comp: string, isFirst: bool): string {
    joined + (if isFirst then [] else [SEP]) + Component(comp)
  }

  /** What the loop of ccfs_path_concat makes of `joined` from component `i` on. */
  ghost function Concat(comps: seq<string>, size: nat, i: nat, joined: string): string
    requires i <= |comps|
    decreases |comps| - i
  {
    if i < |comps| && |joined| + |Component(comps[i])| + 1 < size
    then Concat(comps, size, i + 1, Extend(joined, comps[i], i == 0))
    else joined
  }

  method ComponentLength(comp: string) returns (length: nat)
    ensures length == |Component(comp)|
  {
    length := |comp|;
    while length != 0 && IsSep(comp[length - 1])
      invariant length <= |comp| && Stripped(comp[..length]) == Stripped(comp)
    {
      assert comp[..length][..length - 1] == comp[..length - 1];
      length := length - 1;
    }
    assert comp[..|comp|] == comp;
  }

  /** Copies at most `n` characters with normalised separators, and pads with NUL up to `n`. */
  method PathCpy(out: array<char>, dest: nat, src: string, n: nat)
    requires dest + n <= out.Length
    modifies out
    ensures out[..dest] == old(out[..dest]) && out[dest + n..] == old(out[dest + n..])
    ensures n <= |src| ==> out[dest..dest + n] == Normalised(src[..n])
    ensures |src| < n ==> out[dest..dest + |src|] == Normalised(src) && forall j :: dest + |src| <= j < dest + n ==> out[j] == NUL
  {
    var i := 0;
    while i < n && i < |src|
      invariant i <= n && i <= |src|
      invariant out[..dest] == old(out[..dest]) && out[dest + i..] == old(out[dest + i..])
      invariant forall j :: 0 <= j < i ==> out[dest + j] == if IsSep(src[j]) then SEP else src[j]
    {
      out[dest + i] := if IsSep(src[i]) then SEP else src[i];
      i := i + 1;
    }
    ghost var copied := i;
    while i < n
      invariant copied <= i <= n
      invariant out[..dest] == old(out[..dest]) && out[dest + i..] == old(out[dest + i..])
      invariant forall j :: 0 <= j < copied ==> out[dest + j] == if IsSep(src[j]) then SEP else src[j]
      invariant forall j :: dest + copied <= j < dest + i ==> out[j] == NUL
    {
      out[dest + i] := NUL;
      i := i + 1;
    }
  }

  /** The end of the loop body of ccfs_path_concat: a separator unless the component is the first, then the
      component. */
  method Append(out: array<char>, head: nat, isFirst: bool, comp: string, compLength: nat) returns (end: nat)
    requires compLength == |Component(comp)| && head + compLength + 1 < out.Length
    modifies out
    ensures head <= end <= head + compLength + 1
    ensures out[..end] == Extend(old(out[..head]), comp, isFirst)
    ensures out[end..] == old(out[end..])
  {
    end := head;
    if !isFirst {
      out[end] := SEP;
      end := end + 1;
    }
    assert out[..end] == old(out[..head]) + if isFirst then [] else [SEP];
    PathCpy(out, end, comp, compLength);
    assert comp[..compLength] == Stripped(comp);
    end := end + compLength;
  }

  lemma {:induction false} ConcatMeans(comps: seq<string>, size: nat, i: nat, joined: string)
    requires i <= |comps| && joined == Joined(comps[..i])
    ensures Concat(comps, size, i, joined) == Joined(comps[..Kept(comps, size, i)])
    decreases |comps| - i
  {
    if i < |comps| && |joined| + |Component(comps[i])| + 1 < size {
      JoinedStep(comps, i);
      ConcatMeans(comps, size, i + 1, Extend(joined, comps[i], i == 0));
    }
  }

  lemma JoinedStep(comps: seq<string>, i: nat)
    requires i < |comps|
    ensures Joined(comps[..i + 1]) == Extend(Joined(comps[..i]), comps[i], i == 0)
  {
    assert comps[..i + 1][..i] == comps[..i];
  }

  /** The body of the loop of ccfs_path_concat (lines 61-70); false leaves the loop. */
  method AppendIfFits(out: array<char>, size: nat, head: nat, isFirst: bool, comp: string)
    returns (fits: bool, end: nat)
    requires size <= out.Length && head <= out.Length
    modifies out
    ensures fits <==> head + |Component(comp)| + 1 < size
    ensures fits ==> end < size && out[..end] == Extend(old(out[..head]), comp, isFirst)
    ensures !fits ==> end == head && out[..] == old(out[..])
    ensures head <= end && (end <= out.Length ==> out[end..] == old(out[end..]))
  {
    var compLength := ComponentLength(comp);
    if head + compLength + 1 >= size {
      return false, head;
    }
    end := Append(out, head, isFirst, comp, compLength);
    fits := true;
  }

  /** ccfs_path_concat: joins the components before the first that does not fit, and terminates the string.
      Nothing after the terminator is written. The terminator is written even for a size of zero. */
  method PathConcat(out: array<char>, size: nat, comps: seq<string>) returns (head: nat)
    requires size <= out.Length && out.Length > 0
    modifies out
    ensures head < out.Length && (size > 0 ==> head < size)
    ensures out[..head] == Joined(comps[..Kept(comps, size, 0)]) && out[head] == NUL
    ensures out[head + 1..] == old(out[head + 1..])
  {
    head := 0;
    var isFirst := true;
    ghost var joined := [];
    for i := 0 to |comps|
      invariant head < out.Length && (size > 0 ==> head < size) && out[..head] == joined && out[head..] == old(out[head..])
      invariant (isFirst <==> i == 0) && Concat(comps, size, i, joined) == Concat(comps, size, 0, [])
    {
      var fits;
      fits, head := AppendIfFits(out, size, head, isFirst, comps[i]);
      if !fits {
        break;
      }
      joined := Extend(joined, comps[i], isFirst);
      isFirst := false;
    }
    ConcatMeans(comps, size, 0, []);
    out[head] := NUL;
  }

  lemma ComponentHasNoNul(comp: string)
    requires NUL !in comp
    ensures NUL !in Component(comp)
  {
    var stripped := Stripped(comp);
    forall i | 0 <= i < |stripped| ensures Component(comp)[i] != NUL {
      assert stripped[i] == comp[i] && comp[i] in comp;
    }
  }

  /** So the string that is left is the join, and ends at the NUL that is written. */
  lemma {:induction false} JoinedHasNoNul(comps: seq<string>)
    requires forall comp <- comps :: NUL !in comp
    ensures NUL !in Joined(comps)
    decreases |comps|
  {
    if comps != [] {
      JoinedHasNoNul(comps[..|comps| - 1]);
      ComponentHasNoNul(comps[|comps| - 1]);
    }
  }

  lemma {:induction false} JoinedGrows(comps: seq<string>, k: nat)
    requires k < |comps|
    ensures |Joined(comps[..k])| + |Component(comps[k])| + (if k == 0 then 0 else 1) == |Joined(comps[..k + 1])|
    ensures |Joined(comps[..k + 1])| <= |Joined(comps)|
    decreases |comps|
  {
    JoinedStep(comps, k);
    if k + 1 < |comps| {
      var n := |comps| - 1;
      JoinedGrows(comps[..n], k);
      assert comps[..n][..k + 1] == comps[..k + 1];
      JoinedStep(comps, n);
      assert comps[..n + 1] == comps;
    } else {
      assert comps[..k + 1] == comps;
    }
  }

  /** Every component is kept exactly when the buffer has room for the join and its terminator; except that a
      single component needs one byte more than that, for a separator that is not written. */
  lemma AllKeptIff(comps: seq<string>, size: nat)
    requires comps != []
    ensures Kept(comps, size, 0) == |comps| <==>
      |Joined(comps)| + 1 <= size && |Component(comps[0])| + 2 <= size
  {
    KeptFit(comps, size, 0);
    JoinedGrows(comps, 0);
    JoinedGrows(comps, |comps| - 1);
    assert comps[..|comps|] == comps;
    if |Joined(comps)| + 1 <= size && |Component(comps[0])| + 2 <= size {
      forall k | 0 <= k < |comps| ensures Fits(comps, size, k) {
        JoinedGrows(comps, k);
      }
    } else if |Component(comps[0])| + 2 > size {
      assert !Fits(comps, size, 0);
    } else {
      assert !Fits(comps, size, |comps| - 1);
    }
  }

  /** The result contains only the platform's separator. */
  lemma {:induction false} JoinedIsNormal(comps: seq<string>)
    ensures '\\' !in Joined(comps)
    decreases |comps|
  {
    if comps != [] {
      JoinedIsNormal(comps[..|comps| - 1]);
    }
  }

  // ---- trimming ------------------------------------------------------------------------------------------

  /** How many separators `s` has from position `i` on. */
  function SepsFrom(s: string, i: nat): nat
    decreases |s| - i
  {
    if i >= |s| then 0 else Indicator(IsSep(s[i])) + SepsFrom(s, i + 1)
  }

  /** Where the scan of ccfs_path_rtrim_i ends up writing, from position `head` with `dirs` separators seen. */
  function Scan(s: string, head: nat, dirs: int, numDirs: int): nat
    requires head < |s|
  {
    if dirs < numDirs + 1 && head != 0 then Scan(s, head - 1, dirs + Indicator(IsSep(s[head])), numDirs) else head + 2
  }

  function Cut(s: string, numDirs: int): nat
    requires s != [] || numDirs < 0
  {
    if s == [] then 1 else Scan(s, |s| - 1, 0, numDirs)
  }

  lemma {:induction false} ScanPositive(s: string, head: nat, dirs: int, numDirs: int)
    requires head < |s|
    ensures Scan(s, head, dirs, numDirs) >= 2
  {
    if dirs < numDirs + 1 && head != 0 {
      ScanPositive(s, head - 1, dirs + Indicator(IsSep(s[head])), numDirs);
    }
  }

  lemma CutPositive(s: string, numDirs: int)
    requires s != [] || numDirs < 0
    ensures Cut(s, numDirs) > 0
  {
    if s != [] {
      ScanPositive(s, |s| - 1, 0, numDirs);
    }
  }

  /** The string ccfs_path_rtrim_i leaves. */
  function Trim(s: string, numDirs: int): (r: string)
    requires s != [] || numDirs < 0
    ensures r == [] <==> s == []
  {
    var cut := Cut(s, numDirs);
    CutPositive(s, numDirs);
    if cut <= |s| then s[..cut] else s
  }

  /** ccfs_path_rtrim_i. The scan of an empty string would leave the buffer to the left, and it is made unless the
      count is negative; the buffer must reach as far as the terminator that is written. */
  method PathRTrim(path: array<char>, ghost s: string, numDirs: int)
    requires HoldsString(path[..], s) && (s != [] || numDirs < 0) && Cut(s, numDirs) < path.Length
    modifies path
    ensures HoldsString(path[..], Trim(s, numDirs))
  {
    var length := 0;
    assert forall i :: 0 <= i < |s| ==> path[i] == path[..][i] == path[..][..|s|][i] == s[i] != NUL;
    while path[length] != NUL
      invariant length <= |s| < path.Length
      decreases |s| - length
    {
      length := length + 1;
    }
    var head, dirs := length - 1, 0;
    while dirs < numDirs + 1 && head != 0
      invariant if s == [] then head == -1 && dirs == 0
                else 0 <= head < |s| && Scan(s, head, dirs, numDirs) == Cut(s, numDirs)
      invariant path[..] == old(path[..])
      decreases head
    {
      var c := path[head];
      assert c == s[head];
      head := head - 1;
      if IsSep(c) {
        dirs := dirs + 1;
      }
    }
    path[head + 2] := NUL;
  }

  lemma ScanStops(s: string, head: nat, dirs: nat, numDirs: nat)
    requires head < |s| && dirs == numDirs + 1
    ensures Scan(s, head, dirs, numDirs) == head + 2
  {
  }

  /** With enough separators after the first character, the string is kept through the one that has `numDirs`
      separators after it; without, the first two characters are kept. */
  lemma {:induction false} ScanMeans(s: string, head: nat, dirs: nat, numDirs: nat)
    requires head < |s| && dirs == SepsFrom(s, head + 1) <= numDirs
    ensures var cut := Scan(s, head, dirs, numDirs);
      if SepsFrom(s, 1) > numDirs
      then 2 <= cut <= |s| && IsSep(s[cut - 1]) && SepsFrom(s, cut - 1) == numDirs + 1
      else cut == 2
    decreases head
  {
    if head > 0 {
      var seen := dirs + Indicator(IsSep(s[head]));
      SepsGrow(s, 1, head);
      if seen <= numDirs {
        ScanMeans(s, head - 1, seen, numDirs);
      } else {
        ScanStops(s, head - 1, seen, numDirs);
      }
    }
  }

  lemma {:induction false} SepsGrow(s: string, i: nat, j: nat)
    requires i <= j
    ensures SepsFrom(s, j) <= SepsFrom(s, i)
    decreases j - i
  {
    if i < j {
      SepsGrow(s, i + 1, j);
    }
  }

  /** No two separators have the same number of separators after them. */
  lemma SepsUnique(s: string, i: nat, j: nat)
    requires i < |s| && j < |s| && IsSep(s[i]) && IsSep(s[j]) && SepsFrom(s, i) == SepsFrom(s, j)
    ensures i == j
  {
    SepsDrop(s, i, j);
    SepsDrop(s, j, i);
  }

  lemma SepsDrop(s: string, i: nat, j: nat)
    requires i < |s| && IsSep(s[i])
    ensures i < j ==> SepsFrom(s, j) < SepsFrom(s, i)
  {
    if i < j {
      SepsGrow(s, i + 1, j);
    }
  }

  lemma {:induction false} SepsOfPrefix(s: string, q: nat, i: nat)
    requires i <= q <= |s|
    ensures SepsFrom(s[..q], i) + SepsFrom(s, q) == SepsFrom(s, i)
    decreases q - i
  {
    if i < q {
      SepsOfPrefix(s, q, i + 1);
    }
  }

  /** The NUL is written at or before the end of the string exactly when the string has two characters and the
      count is not negative; in every other case it is written one past its terminator. */
  lemma CutInsideIff(s: string, numDirs: int)
    requires s != [] || numDirs < 0
    ensures Cut(s, numDirs) <= |s| <==> |s| >= 2 && numDirs >= 0
    ensures Cut(s, numDirs) <= |s| + 1
  {
    if numDirs >= 0 {
      ScanMeans(s, |s| - 1, 0, numDirs);
    }
  }

  lemma TrimMeans(s: string, n: nat)
    requires s != []
    ensures var t := Trim(s, n);
      if SepsFrom(s, 1) > n
      then 2 <= |t| <= |s| && t == s[..|t|] && IsSep(s[|t| - 1]) && SepsFrom(s, |t| - 1) == n + 1
      else t == if |s| == 1 then s else s[..2]
  {
    ScanMeans(s, |s| - 1, 0, n);
  }

  lemma TrimAt(s: string, n: nat, p: nat)
    requires 1 <= p < |s| && IsSep(s[p]) && SepsFrom(s, p) == n + 1
    ensures Trim(s, n) == s[..p + 1]
  {
    SepsGrow(s, 1, p);
    TrimMeans(s, n);
    SepsUnique(s, p, |Trim(s, n)| - 1);
  }

  /** What is left of `s` after trimming by `n`, when it ends at the separator at `p`, trims as `s` does. */
  lemma TrimPrefix(s: string, n: nat, p: nat, m: nat)
    requires 1 <= p < |s| && IsSep(s[p]) && SepsFrom(s, p) == n + 1
    ensures Trim(s[..p + 1], m) == Trim(s, n + m)
  {
    var t := s[..p + 1];
    SepsOfPrefix(s, p + 1, 1);
    TrimMeans(t, m);
    if SepsFrom(t, 1) > m {
      var r := |Trim(t, m)| - 1;
      SepsOfPrefix(s, p + 1, r);
      TrimAt(s, n + m, r);
    } else {
      TrimMeans(s, n + m);
    }
  }

  /** Trimming by `n` and then by `m` is trimming by their sum, for every path. */
  lemma TrimComposes(s: string, n: nat, m: nat)
    requires s != []
    ensures Trim(Trim(s, n), m) == Trim(s, n + m)
  {
    TrimMeans(s, n);
    if SepsFrom(s, 1) > n {
      TrimPrefix(s, n, |Trim(s, n)| - 1, m);
    } else {
      TrimMeans(s, n + m);
      if |s| > 1 {
        TrimTwo(s[..2], m);
      } else {
        TrimMeans(s, m);
      }
    }
  }

  lemma TrimTwo(s: string, m: nat)
    requires |s| == 2
    ensures Trim(s, m) == s
  {
    TrimMeans(s, m);
    assert s[..2] == s;
  }

  // ---- trimming undoes joining ---------------------------------------------------------------------------

  /** A component that is neither empty nor contains a separator. */
  predicate Plain(comp: string) { comp != [] && forall c <- comp :: !IsSep(c) }

  lemma PlainComponent(comp: string)
    requires Plain(comp)
    ensures Component(comp) == comp
  {
    assert Stripped(comp) == comp;
  }

  lemma {:induction false} SepsOfPlain(s: string, comp: string, i: nat)
    requires Plain(comp) && |s| <= i <= |s| + |comp|
    ensures SepsFrom(s + comp, i) == 0
    decreases |s| + |comp| - i
  {
    if i < |s| + |comp| {
      assert (s + comp)[i] in comp;
      SepsOfPlain(s, comp, i + 1);
    }
  }

  /** A join of plain components has one separator fewer than components, and the last is before the last one. */
  lemma {:induction false} SepsOfJoined(comps: seq<string>)
    requires comps != [] && forall comp <- comps :: Plain(comp)
    ensures Joined(comps) != [] && !IsSep(Joined(comps)[0]) && SepsFrom(Joined(comps), 1) == |comps| - 1
    decreases |comps|
  {
    var last := comps[|comps| - 1];
    PlainComponent(last);
    if |comps| == 1 {
      SepsOfPlain([], last, 1);
      assert [] + last == last;
    } else {
      var front := Joined(comps[..|comps| - 1]);
      var whole := front + [SEP] + last;
      SepsOfJoined(comps[..|comps| - 1]);
      SepsOfPlain(front + [SEP], last, |front| + 1);
      SepsOfPrefix(whole, |front|, 1);
      assert whole[..|front|] == front;
      assert SepsFrom(whole, |front|) == 1 + SepsFrom(whole, |front| + 1);
    }
  }

  /** Trimming one component off, and going on in what is before it. */
  lemma TrimStep(front: string, last: string, n: nat)
    requires front != [] && Plain(last) && n <= SepsFrom(front, 1)
    ensures Trim(front + [SEP] + last, n) == if n == 0 then front + [SEP] else Trim(front, n - 1)
  {
    var whole := front + [SEP] + last;
    SepsOfPlain(front + [SEP], last, |front| + 1);
    assert whole[..|front|] == front;
    if n == 0 {
      TrimAt(whole, 0, |front|);
    } else {
      TrimMeans(front, n - 1);
      var p := |Trim(front, n - 1)| - 1;
      SepsOfPrefix(whole, |front|, p);
      TrimAt(whole, n, p);
    }
  }

  /** Trimming a join by `n` drops its last n + 1 components and keeps the separator before them. */
  lemma {:induction false} TrimUndoesJoin(comps: seq<string>, n: nat)
    requires n + 1 < |comps| && forall comp <- comps :: Plain(comp)
    ensures Trim(Joined(comps), n) == Joined(comps[..|comps| - 1 - n]) + [SEP]
    decreases n
  {
    var k := |comps| - 1;
    SepsOfJoined(comps[..k]);
    PlainComponent(comps[k]);
    TrimStep(Joined(comps[..k]), comps[k], n);
    if n > 0 {
      TrimUndoesJoin(comps[..k], n - 1);
      assert comps[..k][..k - n] == comps[..k - n];
    }
  }
}

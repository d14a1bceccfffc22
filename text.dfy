/** String primitives that the segmenter and the whitespace normaliser rely on, as the
    two runtimes of the application define them: splitting on the sentence separator
    (Python's str.split and JavaScript's String.prototype.split agree on it), joining,
    suffix tests, and trimming, whose notion of whitespace differs between the two. */
module Text {

  /** The runtime whose string library a piece of code uses. */
  datatype Runtime = Python | JavaScript

  /** The separator the segmenter splits on and writes back after every sentence. */
  const Separator: string := ". "

  /** Whitespace as each runtime sees it: Python's str.isspace (used by str.strip) and
      the ECMAScript WhiteSpace and LineTerminator code points (used by trim() and by the
      regular-expression class \s). Python also counts the four information separators
      U+001C..U+001F and NEXT LINE U+0085; JavaScript also counts the byte order mark U+FEFF. */
  predicate IsSpace(rt: Runtime, c: char)
  {
    || ('\t' <= c <= '\r')
    || c == ' ' || c == '\U{00A0}' || c == '\U{1680}'
    || ('\U{2000}' <= c <= '\U{200A}')
    || c == '\U{2028}' || c == '\U{2029}' || c == '\U{202F}' || c == '\U{205F}' || c == '\U{3000}'
    || (rt == Python && (('\U{001C}' <= c <= '\U{001F}') || c == '\U{0085}'))
    || (rt == JavaScript && c == '\U{FEFF}')
  }

  /** Leading whitespace removed: the longest suffix that does not start with whitespace. */
  function TrimStart(rt: Runtime, s: string): (r: string)
    ensures |r| <= |s| && r == s[|s| - |r|..]
    ensures r == [] || !IsSpace(rt, r[0])
    ensures forall i :: 0 <= i < |s| - |r| ==> IsSpace(rt, s[i])
    decreases |s|
  {
    if s != [] && IsSpace(rt, s[0]) then TrimStart(rt, s[1..]) else s
  }

  /** Trailing whitespace removed: the longest prefix that does not end with whitespace. */
  function TrimEnd(rt: Runtime, s: string): (r: string)
    ensures |r| <= |s| && r == s[..|r|]
    ensures r == [] || !IsSpace(rt, r[|r| - 1])
    ensures forall i :: |r| <= i < |s| ==> IsSpace(rt, s[i])
    decreases |s|
  {
    if s != [] && IsSpace(rt, s[|s| - 1]) then TrimEnd(rt, s[..|s| - 1]) else s
  }

  /** Python's str.strip() with no argument, and JavaScript's String.prototype.trim(). */
  function Trim(rt: Runtime, s: string): string
  {
    TrimEnd(rt, TrimStart(rt, s))
  }

  /** The trimmed string neither starts nor ends with whitespace. */
  lemma TrimEnds(rt: Runtime, s: string)
    ensures Trim(rt, s) == [] || (!IsSpace(rt, Trim(rt, s)[0]) && !IsSpace(rt, Trim(rt, s)[|Trim(rt, s)| - 1]))
  {
    var t := TrimStart(rt, s);
    var r := TrimEnd(rt, t);
    if r != [] {
      assert r[0] == t[0];
    }
  }

  /** Trimming leaves nothing exactly when the string is whitespace only; this is the test
      `if current_segment.strip()` (and `currentSegment.trim() !== ''`) performs. */
  lemma TrimEmptyIff(rt: Runtime, s: string)
    ensures Trim(rt, s) == [] <==> forall i :: 0 <= i < |s| ==> IsSpace(rt, s[i])
  {
  }

  /** Trimming the start cuts exactly the leading whitespace: at the first position that is
      not whitespace, or at the end. */
  lemma {:induction false} TrimStartAt(rt: Runtime, s: string, k: nat)
    requires k <= |s| && (k == |s| || !IsSpace(rt, s[k]))
    requires forall i :: 0 <= i < k ==> IsSpace(rt, s[i])
    ensures TrimStart(rt, s) == s[k..]
    decreases k
  {
    if k > 0 {
      var rest := s[1..];
      forall i | 0 <= i < k - 1 ensures IsSpace(rt, rest[i]) {
        assert rest[i] == s[i + 1];
      }
      assert k - 1 == |rest| || rest[k - 1] == s[k];
      TrimStartAt(rt, rest, k - 1);
      assert rest[k - 1..] == s[k..];
    }
  }

  /** Trimming the end cuts exactly the trailing whitespace. */
  lemma {:induction false} TrimEndAt(rt: Runtime, s: string, k: nat)
    requires k <= |s| && (k == 0 || !IsSpace(rt, s[k - 1]))
    requires forall i :: k <= i < |s| ==> IsSpace(rt, s[i])
    ensures TrimEnd(rt, s) == s[..k]
    decreases |s| - k
  {
    if k < |s| {
      var init := s[..|s| - 1];
      forall i | k <= i < |init| ensures IsSpace(rt, init[i]) {
        assert init[i] == s[i];
      }
      assert k == 0 || init[k - 1] == s[k - 1];
      TrimEndAt(rt, init, k);
      assert init[..k] == s[..k];
    }
  }

  /** True when a separator starts at position j of s. */
  predicate SeparatorAt(s: string, j: int)
  {
    0 <= j && j + 1 < |s| && s[j] == '.' && s[j + 1] == ' '
  }

  /** A piece that the split cannot cut any further. */
  predicate NoSeparator(p: string)
  {
    forall j :: 0 <= j < |p| ==> !SeparatorAt(p, j)
  }

  /** The pieces joined with the separator between them (Python's '. '.join). */
  function Join(parts: seq<string>): string
  {
    if parts == [] then ""
    else if |parts| == 1 then parts[0]
    else parts[0] + Separator + Join(parts[1..])
  }

  /** The scan behind Split: s[start..i] is the piece being read, and no separator starts
      inside it. */
  function SplitFrom(s: string, start: nat, i: nat): (parts: seq<string>)
    requires start <= i <= |s|
    requires forall j :: start <= j < i ==> !SeparatorAt(s, j)
    ensures |parts| >= 1
    decreases |s| - i
  {
    if i + 1 >= |s| then [s[start..]]
    else if s[i] == '.' && s[i + 1] == ' ' then [s[start..i]] + SplitFrom(s, i + 2, i + 2)
    else SplitFrom(s, start, i + 1)
  }

  /** Joining the pieces the scan cuts gives back the text from where the scan started. */
  lemma {:induction false} SplitFromJoin(s: string, start: nat, i: nat)
    requires start <= i <= |s|
    requires forall j :: start <= j < i ==> !SeparatorAt(s, j)
    ensures Join(SplitFrom(s, start, i)) == s[start..]
    decreases |s| - i
  {
    if i + 1 >= |s| {
    } else if s[i] == '.' && s[i + 1] == ' ' {
      SplitFromJoin(s, i + 2, i + 2);
      assert s[start..] == s[start..i] + Separator + s[i + 2..];
    } else {
      SplitFromJoin(s, start, i + 1);
    }
  }

  /** The pieces the scan cuts hold no separator. */
  lemma {:induction false} SplitFromPieces(s: string, start: nat, i: nat)
    requires start <= i <= |s|
    requires forall j :: start <= j < i ==> !SeparatorAt(s, j)
    ensures forall k :: 0 <= k < |SplitFrom(s, start, i)| ==> NoSeparator(SplitFrom(s, start, i)[k])
    decreases |s| - i
  {
    if i + 1 >= |s| {
      var p := s[start..];
      forall j | 0 <= j < |p| ensures !SeparatorAt(p, j) {
        assert SeparatorAt(p, j) ==> SeparatorAt(s, start + j);
      }
    } else if s[i] == '.' && s[i + 1] == ' ' {
      SplitFromPieces(s, i + 2, i + 2);
      var p := s[start..i];
      forall j | 0 <= j < |p| ensures !SeparatorAt(p, j) {
        assert SeparatorAt(p, j) ==> SeparatorAt(s, start + j);
      }
    } else {
      SplitFromPieces(s, start, i + 1);
    }
  }

  /** text.split('. ') in Python and in JavaScript: the pieces between the separators, found
      from left to right without overlap. The empty string splits into [""]. */
  function Split(s: string): (parts: seq<string>)
    ensures |parts| >= 1
    ensures Join(parts) == s
    ensures forall k :: 0 <= k < |parts| ==> NoSeparator(parts[k])
  {
    SplitFromJoin(s, 0, 0);
    SplitFromPieces(s, 0, 0);
    SplitFrom(s, 0, 0)
  }

  /** The empty string splits into one empty piece. */
  lemma SplitEmpty(s: string)
    requires s == ""
    ensures Split(s) == [s]
  {
    assert SplitFrom(s, 0, 0) == [s[0..]];
  }

  /** The scan is unaffected by where the string it reads begins. */
  lemma {:induction false} SplitFromShift(s: string, m: nat, start: nat, i: nat)
    requires m <= |s| && start <= i <= |s| - m
    requires forall j :: start <= j < i ==> !SeparatorAt(s[m..], j)
    ensures forall j :: m + start <= j < m + i ==> !SeparatorAt(s, j)
    ensures SplitFrom(s, m + start, m + i) == SplitFrom(s[m..], start, i)
    decreases |s| - i
  {
    NoSeparatorShift(s, m, start, i);
    var t := s[m..];
    if i + 1 >= |t| {
      ShiftAtEnd(s, m, start, i);
    } else if SeparatorAt(t, i) {
      SplitFromShift(s, m, i + 2, i + 2);
      ShiftAtSeparator(s, m, start, i);
    } else {
      SplitFromShift(s, m, start, i + 1);
      ShiftStep(s, m, start, i);
    }
  }

  lemma NoSeparatorShift(s: string, m: nat, start: nat, i: nat)
    requires m <= |s| && start <= i <= |s| - m
    requires forall j :: start <= j < i ==> !SeparatorAt(s[m..], j)
    ensures forall j :: m + start <= j < m + i ==> !SeparatorAt(s, j)
  {
    forall j | m + start <= j < m + i ensures !SeparatorAt(s, j) {
      assert SeparatorAt(s, j) <==> SeparatorAt(s[m..], j - m);
    }
  }

  lemma ShiftAtEnd(s: string, m: nat, start: nat, i: nat)
    requires m <= |s| && start <= i <= |s| - m && i + 1 >= |s| - m
    requires forall j :: start <= j < i ==> !SeparatorAt(s[m..], j)
    requires forall j :: m + start <= j < m + i ==> !SeparatorAt(s, j)
    ensures SplitFrom(s, m + start, m + i) == SplitFrom(s[m..], start, i)
  {
    SplitFromEnd(s, m + start, m + i);
    SplitFromEnd(s[m..], start, i);
    assert s[m + start..] == s[m..][start..];
  }

  lemma ShiftAtSeparator(s: string, m: nat, start: nat, i: nat)
    requires m <= |s| && start <= i <= |s| - m && SeparatorAt(s[m..], i)
    requires forall j :: start <= j < i ==> !SeparatorAt(s[m..], j)
    requires forall j :: m + start <= j < m + i ==> !SeparatorAt(s, j)
    requires SplitFrom(s, m + i + 2, m + i + 2) == SplitFrom(s[m..], i + 2, i + 2)
    ensures SplitFrom(s, m + start, m + i) == SplitFrom(s[m..], start, i)
  {
    var t := s[m..];
    assert SeparatorAt(s, m + i);
    SplitFromAtSeparator(s, m + start, m + i);
    SplitFromAtSeparator(t, start, i);
    assert s[m + start..m + i] == t[start..i];
  }

  lemma ShiftStep(s: string, m: nat, start: nat, i: nat)
    requires m <= |s| && start <= i && i + 1 < |s| - m && !SeparatorAt(s[m..], i)
    requires forall j :: start <= j < i ==> !SeparatorAt(s[m..], j)
    requires forall j :: m + start <= j < m + i ==> !SeparatorAt(s, j)
    requires SplitFrom(s, m + start, m + i + 1) == SplitFrom(s[m..], start, i + 1)
    ensures SplitFrom(s, m + start, m + i) == SplitFrom(s[m..], start, i)
  {
    assert !SeparatorAt(s, m + i);
    SplitFromStep(s, m + start, m + i);
    SplitFromStep(s[m..], start, i);
  }

  /** Near the end of the string the scan yields the rest as its last piece. */
  lemma SplitFromEnd(s: string, start: nat, i: nat)
    requires start <= i <= |s| && i + 1 >= |s|
    requires forall j :: start <= j < i ==> !SeparatorAt(s, j)
    ensures SplitFrom(s, start, i) == [s[start..]]
  {
  }

  /** Where no separator starts the scan moves on by one character. */
  lemma SplitFromStep(s: string, start: nat, i: nat)
    requires start <= i && i + 1 < |s| && !SeparatorAt(s, i)
    requires forall j :: start <= j < i ==> !SeparatorAt(s, j)
    ensures SplitFrom(s, start, i) == SplitFrom(s, start, i + 1)
  {
  }

  /** The scan passes over positions where no separator starts without changing its result. */
  lemma {:induction false} SplitFromSkip(s: string, start: nat, i: nat, j: nat)
    requires start <= i <= j <= |s|
    requires forall k :: start <= k < j ==> !SeparatorAt(s, k)
    ensures SplitFrom(s, start, i) == SplitFrom(s, start, j)
    decreases j - i
  {
    if i < j {
      assert !SeparatorAt(s, i);
      SplitFromSkip(s, start, i + 1, j);
    }
  }

  /** Split undoes Join: pieces that hold no separator come back from the split of their
      join unchanged, so Split(text) is the only way to write text as such a join. */
  lemma {:induction false} SplitJoin(parts: seq<string>)
    requires |parts| >= 1
    requires forall k :: 0 <= k < |parts| ==> NoSeparator(parts[k])
    ensures Split(Join(parts)) == parts
    decreases |parts|
  {
    var s := Join(parts);
    if |parts| == 1 {
      assert forall k :: 0 <= k < |s| ==> !SeparatorAt(s, k);
      SplitFromSkip(s, 0, 0, |s|);
    } else {
      SplitCons(parts[0], Join(parts[1..]));
      SplitJoin(parts[1..]);
      assert parts == [parts[0]] + parts[1..];
    }
  }

  /** A first piece without a separator, then the separator: the split yields that piece
      and then the split of the rest. */
  lemma SplitCons(p: string, rest: string)
    requires NoSeparator(p)
    ensures Split(p + Separator + rest) == [p] + Split(rest)
  {
    var s := p + Separator + rest;
    NoSeparatorBeforeCut(p, rest);
    assert SeparatorAt(s, |p|);
    SplitAtFirstSeparator(s, |p|);
    assert s[..|p|] == p && s[|p| + 2..] == rest;
  }

  /** Where the first separator starts at i, the split yields s[..i] and then the split of
      what follows the separator. */
  lemma SplitAtFirstSeparator(s: string, i: nat)
    requires i <= |s| && SeparatorAt(s, i)
    requires forall k :: 0 <= k < i ==> !SeparatorAt(s, k)
    ensures Split(s) == [s[..i]] + Split(s[i + 2..])
  {
    SplitFromSkip(s, 0, 0, i);
    SplitFromAtSeparator(s, 0, i);
    SplitFromShift(s, i + 2, 0, 0);
    assert s[0..i] == s[..i];
  }

  /** No separator starts inside the first piece, not even one that would run into the
      separator after it. */
  lemma NoSeparatorBeforeCut(p: string, rest: string)
    requires NoSeparator(p)
    ensures forall k :: 0 <= k < |p| ==> !SeparatorAt(p + Separator + rest, k)
  {
    var s := p + Separator + rest;
    forall k | 0 <= k < |p| ensures !SeparatorAt(s, k) {
      if k + 1 < |p| {
        assert !SeparatorAt(p, k);
      } else {
        assert s[k + 1] == '.';
      }
    }
  }

  /** The scan cuts a piece where a separator starts. */
  lemma SplitFromAtSeparator(s: string, start: nat, i: nat)
    requires start <= i <= |s| && SeparatorAt(s, i)
    requires forall j :: start <= j < i ==> !SeparatorAt(s, j)
    ensures SplitFrom(s, start, i) == [s[start..i]] + SplitFrom(s, i + 2, i + 2)
  {
  }

  /** Python's str.endswith and JavaScript's String.prototype.endsWith. */
  predicate EndsWith(s: string, suffix: string)
  {
    |suffix| <= |s| && s[|s| - |suffix|..] == suffix
  }
}

/** The sentence-packing segmenter, as a specification over groups of sentences.

    Both split_text_into_segments (app/main.py) and splitTextIntoSegments
    (static/js/main.js) split the text on ". " and walk the sentences once, keeping a
    growing buffer: before a sentence is added, the buffer is closed as a segment when
    its length plus the sentence's length exceeds the limit; then the sentence and ". "
    are appended. Pack below records which sentences end up together; a segment is
    its group written out with a separator after every sentence. */
module Segmenter {
  import opened Text

  /** The group's sentences one after another, each followed by the separator. */
  function Terminated(group: seq<string>): string
  {
    if group == [] then "" else group[0] + Separator + Terminated(group[1..])
  }

  /** All groups' sentences, in order. */
  function Flatten(groups: seq<seq<string>>): seq<string>
  {
    if groups == [] then [] else groups[0] + Flatten(groups[1..])
  }

  /** All segments one after another. */
  function Concat(segments: seq<string>): string
  {
    if segments == [] then "" else segments[0] + Concat(segments[1..])
  }

  /** The segment text of every group. */
  function Render(groups: seq<seq<string>>): seq<string>
  {
    seq(|groups|, k requires 0 <= k < |groups| => Terminated(groups[k]))
  }

  /** The buffer's state after some sentences: the groups already closed as segments,
      and the sentences of the buffer still open. */
  datatype Packing = Packing(closed: seq<seq<string>>, open: seq<string>)

  /** The greedy packing of the sentences, one sentence at a time. The test compares the
      buffer's length with the sentence's length alone: the ". " appended after it is not
      counted. */
  function Pack(sentences: seq<string>, maxLength: int): Packing
    decreases |sentences|
  {
    if sentences == [] then Packing([], [])
    else
      var p := Pack(sentences[..|sentences| - 1], maxLength);
      var s := sentences[|sentences| - 1];
      if |Terminated(p.open)| + |s| > maxLength then Packing(p.closed + [p.open], [s])
      else Packing(p.closed, p.open + [s])
  }

  /** The groups of sentences behind the segments, the last buffer included. */
  function Groups(text: string, maxLength: int): seq<seq<string>>
  {
    var p := Pack(Split(text), maxLength);
    p.closed + [p.open]
  }

  /** The segments that the segmenter of runtime rt returns: the closed segments, then the
      final buffer unless trimming it (with rt's notion of whitespace) leaves nothing. */
  function Segments(text: string, maxLength: int, rt: Runtime): seq<string>
  {
    var p := Pack(Split(text), maxLength);
    var last := Terminated(p.open);
    Render(p.closed) + (if Trim(rt, last) != "" then [last] else [])
  }

  // ---------------------------------------------------------------------------------
  // Facts about writing groups out

  lemma {:induction false} TerminatedAppend(a: seq<string>, b: seq<string>)
    ensures Terminated(a + b) == Terminated(a) + Terminated(b)
    decreases |a|
  {
    if a != [] {
      assert (a + b)[0] == a[0] && (a + b)[1..] == a[1..] + b;
      TerminatedAppend(a[1..], b);
    } else {
      assert a + b == b;
    }
  }

  /** Adding a sentence to a buffer appends it and the separator. */
  lemma TerminatedSnoc(group: seq<string>, s: string)
    ensures Terminated(group + [s]) == Terminated(group) + s + Separator
  {
    TerminatedAppend(group, [s]);
  }

  /** A non-empty group is written out as its sentences joined by the separator, plus a final
      separator. */
  lemma {:induction false} TerminatedJoin(group: seq<string>)
    requires group != []
    ensures Terminated(group) == Join(group) + Separator
    decreases |group|
  {
    if |group| > 1 {
      TerminatedJoin(group[1..]);
    }
  }

  /** A non-empty group's text ends with the separator, so it contains a full stop. */
  lemma TerminatedEndsWithSeparator(group: seq<string>)
    requires group != []
    ensures EndsWith(Terminated(group), Separator)
    ensures |Terminated(group)| >= 2
  {
    TerminatedJoin(group);
  }

  lemma {:induction false} FlattenAppend(a: seq<seq<string>>, b: seq<seq<string>>)
    ensures Flatten(a + b) == Flatten(a) + Flatten(b)
    decreases |a|
  {
    if a != [] {
      assert (a + b)[0] == a[0] && (a + b)[1..] == a[1..] + b;
      FlattenAppend(a[1..], b);
    } else {
      assert a + b == b;
    }
  }

  /** The segments of a packing, concatenated, are the concatenation of all its sentences
      each followed by the separator. */
  lemma {:induction false} ConcatRender(groups: seq<seq<string>>)
    ensures Concat(Render(groups)) == Terminated(Flatten(groups))
    decreases |groups|
  {
    if groups != [] {
      assert Render(groups)[1..] == Render(groups[1..]);
      ConcatRender(groups[1..]);
      TerminatedAppend(groups[0], Flatten(groups[1..]));
    }
  }

  // ---------------------------------------------------------------------------------
  // Invariants of the packing

  /** A group of two or more sentences was admitted sentence by sentence; its last sentence
      passed the length test against the buffer that held the others. */
  predicate Fits(group: seq<string>, maxLength: int)
  {
    |group| < 2 || |Terminated(group[..|group| - 1])| + |group[|group| - 1]| <= maxLength
  }

  /** Every closed group was closed because the next group's first sentence did not fit
      after it. */
  predicate Greedy(p: Packing, maxLength: int)
  {
    forall j :: 0 < j <= |p.closed| ==>
      var next := (p.closed + [p.open])[j];
      next != [] && |Terminated(p.closed[j - 1])| + |next[0]| > maxLength
  }

  /** The groups are the sentences, neither split nor reordered, and the buffer is never
      empty once a sentence has been read. */
  lemma {:induction false} PackPartition(sentences: seq<string>, maxLength: int)
    ensures Flatten(Pack(sentences, maxLength).closed) + Pack(sentences, maxLength).open == sentences
    ensures sentences != [] ==> Pack(sentences, maxLength).open != []
    decreases |sentences|
  {
    if sentences != [] {
      var init := sentences[..|sentences| - 1];
      var s := sentences[|sentences| - 1];
      var p := Pack(init, maxLength);
      PackPartition(init, maxLength);
      LastSplit(sentences);
      if |Terminated(p.open)| + |s| > maxLength {
        FlattenClose(p.closed, p.open, s);
      } else {
        FlattenSnoc(Flatten(p.closed), p.open, s);
      }
    }
  }

  /** A non-empty list is its front followed by its last element. */
  lemma LastSplit(xs: seq<string>)
    requires xs != []
    ensures xs == xs[..|xs| - 1] + [xs[|xs| - 1]]
  {
  }

  /** Closing the buffer before a sentence keeps the sentences in order. */
  lemma FlattenClose(closed: seq<seq<string>>, open: seq<string>, s: string)
    ensures Flatten(closed + [open]) + [s] == Flatten(closed) + open + [s]
  {
    FlattenAppend(closed, [open]);
    assert Flatten([open]) == open;
  }

  /** Adding a sentence to the buffer keeps the sentences in order. */
  lemma FlattenSnoc(flat: seq<string>, open: seq<string>, s: string)
    ensures flat + (open + [s]) == flat + open + [s]
  {
  }

  /** Only the first closed group can be empty, and it is empty exactly when the first
      sentence alone is longer than the limit. */
  lemma {:induction false} PackEmptyGroups(sentences: seq<string>, maxLength: int)
    requires sentences != []
    ensures var p := Pack(sentences, maxLength);
      && (forall k :: 0 < k < |p.closed| ==> p.closed[k] != [])
      && ((|p.closed| > 0 && p.closed[0] == []) <==> |sentences[0]| > maxLength)
    decreases |sentences|
  {
    var init := sentences[..|sentences| - 1];
    if init != [] {
      PackEmptyGroups(init, maxLength);
      PackPartition(init, maxLength);
      assert init[0] == sentences[0];
    }
  }

  /** Every group, the open one included, passed the length test for each sentence after
      its first. */
  lemma {:induction false} PackFits(sentences: seq<string>, maxLength: int)
    ensures var p := Pack(sentences, maxLength);
      && (forall k :: 0 <= k < |p.closed| ==> Fits(p.closed[k], maxLength))
      && Fits(p.open, maxLength)
    decreases |sentences|
  {
    if sentences != [] {
      var init := sentences[..|sentences| - 1];
      var s := sentences[|sentences| - 1];
      var p := Pack(init, maxLength);
      PackFits(init, maxLength);
      if |Terminated(p.open)| + |s| <= maxLength {
        assert (p.open + [s])[..|p.open|] == p.open;
      }
    }
  }

  /** A group is closed only when the sentence after it does not fit. */
  lemma {:induction false} PackGreedy(sentences: seq<string>, maxLength: int)
    ensures Greedy(Pack(sentences, maxLength), maxLength)
    decreases |sentences|
  {
    if sentences != [] {
      var init := sentences[..|sentences| - 1];
      var s := sentences[|sentences| - 1];
      var p := Pack(init, maxLength);
      PackGreedy(init, maxLength);
      PackPartition(init, maxLength);
      var q := Pack(sentences, maxLength);
      forall j | 0 < j <= |q.closed|
        ensures var next := (q.closed + [q.open])[j];
          next != [] && |Terminated(q.closed[j - 1])| + |next[0]| > maxLength
      {
        if |Terminated(p.open)| + |s| > maxLength {
          if j <= |p.closed| {
            assert (q.closed + [q.open])[j] == (p.closed + [p.open])[j];
          }
        } else {
          if j < |p.closed| {
            assert (q.closed + [q.open])[j] == (p.closed + [p.open])[j];
          } else {
            assert init != [];
            assert (q.closed + [q.open])[j] == p.open + [s];
            assert (p.closed + [p.open])[j] == p.open;
          }
        }
      }
    }
  }

  /** The packing of a single sentence: one open buffer, after an empty closed one when the
      sentence alone exceeds the limit. */
  lemma PackOne(s: string, maxLength: int)
    ensures Pack([s], maxLength) == if |s| > maxLength then Packing([[]], [s]) else Packing([], [s])
  {
    assert [s][..0] == [];
  }

  /** A non-empty group's text holds a full stop, so trimming never empties it. */
  lemma TerminatedSurvivesTrim(rt: Runtime, group: seq<string>)
    requires group != []
    ensures Trim(rt, Terminated(group)) != ""
  {
    var t := Terminated(group);
    TerminatedEndsWithSeparator(group);
    assert t[|t| - 2] == '.';
    TrimEmptyIff(rt, t);
  }

  lemma RenderSnoc(groups: seq<seq<string>>, g: seq<string>)
    ensures Render(groups + [g]) == Render(groups) + [Terminated(g)]
  {
  }

  // ---------------------------------------------------------------------------------
  // Properties of the segments

  /** The final buffer always holds at least one sentence and a full stop, so the strip()
      or trim() test keeps it whichever runtime's whitespace is used: the segments are the
      groups written out. */
  lemma SegmentsAreGroups(text: string, maxLength: int, rt: Runtime)
    ensures Segments(text, maxLength, rt) == Render(Groups(text, maxLength))
  {
    var p := Pack(Split(text), maxLength);
    PackPartition(Split(text), maxLength);
    TerminatedSurvivesTrim(rt, p.open);
    RenderSnoc(p.closed, p.open);
  }

  /** The Python and the JavaScript segmenter return the same list. */
  lemma RuntimesAgree(text: string, maxLength: int)
    ensures Segments(text, maxLength, Python) == Segments(text, maxLength, JavaScript)
  {
    SegmentsAreGroups(text, maxLength, Python);
    SegmentsAreGroups(text, maxLength, JavaScript);
  }

  /** Nothing is lost or added: the segments concatenate to the text plus one separator. */
  lemma SegmentsConcat(text: string, maxLength: int, rt: Runtime)
    ensures Concat(Segments(text, maxLength, rt)) == text + Separator
  {
    var groups := Groups(text, maxLength);
    var p := Pack(Split(text), maxLength);
    SegmentsAreGroups(text, maxLength, rt);
    ConcatRender(groups);
    PackPartition(Split(text), maxLength);
    FlattenAppend(p.closed, [p.open]);
    assert Flatten([p.open]) == p.open;
    TerminatedJoin(Split(text));
  }

  /** The result is never empty and its last segment ends with the separator. */
  lemma SegmentsNonEmpty(text: string, maxLength: int, rt: Runtime)
    ensures var segments := Segments(text, maxLength, rt);
      |segments| >= 1 && EndsWith(segments[|segments| - 1], Separator)
  {
    var p := Pack(Split(text), maxLength);
    SegmentsAreGroups(text, maxLength, rt);
    PackPartition(Split(text), maxLength);
    TerminatedEndsWithSeparator(p.open);
  }

  /** The empty text is one empty sentence: with a limit of zero or more the result is
      [". "], not an empty list; with a negative limit an empty first segment precedes it. */
  lemma SegmentsOfEmptyText(text: string, maxLength: int, rt: Runtime)
    requires text == ""
    ensures Segments(text, maxLength, rt) == if maxLength >= 0 then [Separator] else ["", Separator]
  {
    SegmentsAreGroups(text, maxLength, rt);
    GroupsOfEmptyText(text, maxLength);
    TerminatedOfEmptySentence(text);
    if maxLength >= 0 {
      RenderOne([text]);
    } else {
      RenderTwo([], [text]);
    }
  }

  lemma TerminatedOfEmptySentence(s: string)
    requires s == ""
    ensures Terminated([s]) == Separator
  {
    assert [s][1..] == [];
  }

  lemma RenderOne(g: seq<string>)
    ensures Render([g]) == [Terminated(g)]
  {
  }

  lemma RenderTwo(g: seq<string>, h: seq<string>)
    ensures Render([g, h]) == [Terminated(g), Terminated(h)]
  {
  }

  lemma GroupsOfEmptyText(text: string, maxLength: int)
    requires text == ""
    ensures Groups(text, maxLength) == if maxLength >= 0 then [[""]] else [[], [""]]
  {
    SplitEmpty(text);
    PackOne(text, maxLength);
  }

  /** Only the first segment can be "", which happens exactly when the first sentence alone
      is longer than the limit; every other segment ends with the separator. */
  lemma SegmentsEmptyOnlyFirst(text: string, maxLength: int, rt: Runtime)
    ensures |Segments(text, maxLength, rt)| >= 1
    ensures var segments := Segments(text, maxLength, rt);
      && (segments[0] == "" <==> |Split(text)[0]| > maxLength)
      && (forall k :: 0 <= k < |segments| && segments[k] != "" ==> EndsWith(segments[k], Separator))
      && (forall k :: 0 < k < |segments| ==> segments[k] != "")
  {
    var p := Pack(Split(text), maxLength);
    var groups := Groups(text, maxLength);
    SegmentsAreGroups(text, maxLength, rt);
    PackPartition(Split(text), maxLength);
    PackEmptyGroups(Split(text), maxLength);
    forall k | 0 <= k < |groups| && groups[k] != []
      ensures EndsWith(Terminated(groups[k]), Separator) && Terminated(groups[k]) != ""
    {
      TerminatedEndsWithSeparator(groups[k]);
    }
  }

  /** A segment of two or more sentences is at most two characters over the limit (the
      separator after its last sentence is not counted by the test); a longer segment is a
      single sentence and its separator. */
  lemma SegmentsLengthBound(text: string, maxLength: int, rt: Runtime)
    requires maxLength >= -2
    ensures var segments := Segments(text, maxLength, rt);
      var groups := Groups(text, maxLength);
      && |segments| == |groups|
      && (forall k :: 0 <= k < |groups| && |groups[k]| >= 2 ==> |segments[k]| <= maxLength + 2)
      && (forall k :: 0 <= k < |segments| && |segments[k]| > maxLength + 2 ==>
            |groups[k]| == 1 && segments[k] == groups[k][0] + Separator)
  {
    var p := Pack(Split(text), maxLength);
    var groups := Groups(text, maxLength);
    SegmentsAreGroups(text, maxLength, rt);
    PackFits(Split(text), maxLength);
    forall k | 0 <= k < |groups| && |groups[k]| >= 2
      ensures |Terminated(groups[k])| <= maxLength + 2
    {
      var g := groups[k];
      assert Fits(g, maxLength);
      assert g == g[..|g| - 1] + [g[|g| - 1]];
      TerminatedSnoc(g[..|g| - 1], g[|g| - 1]);
    }
    forall k | 0 <= k < |groups| && |Terminated(groups[k])| > maxLength + 2
      ensures |groups[k]| == 1 && Terminated(groups[k]) == groups[k][0] + Separator
    {
      assert groups[k] != [];
      assert Terminated(groups[k][1..]) == "";
    }
  }

  /** The sentences of the text appear across the groups in their original order, each in
      exactly one group, and every segment is its group written out. */
  lemma SegmentsKeepSentenceOrder(text: string, maxLength: int, rt: Runtime)
    ensures Flatten(Groups(text, maxLength)) == Split(text)
    ensures var segments := Segments(text, maxLength, rt);
      var groups := Groups(text, maxLength);
      |segments| == |groups| && forall k :: 0 <= k < |segments| ==> segments[k] == Terminated(groups[k])
  {
    var p := Pack(Split(text), maxLength);
    SegmentsAreGroups(text, maxLength, rt);
    PackPartition(Split(text), maxLength);
    FlattenAppend(p.closed, [p.open]);
    assert Flatten([p.open]) == p.open;
  }

  /** Each segment but the last is as long as the greedy rule allows: the first sentence of
      the next segment would not have fitted after it. */
  lemma SegmentsGreedy(text: string, maxLength: int, rt: Runtime)
    ensures |Segments(text, maxLength, rt)| == |Groups(text, maxLength)|
    ensures forall j :: 0 < j < |Segments(text, maxLength, rt)| ==>
      && Groups(text, maxLength)[j] != []
      && |Segments(text, maxLength, rt)[j - 1]| + |Groups(text, maxLength)[j][0]| > maxLength
  {
    var p := Pack(Split(text), maxLength);
    var groups := Groups(text, maxLength);
    var segments := Segments(text, maxLength, rt);
    SegmentsAreGroups(text, maxLength, rt);
    PackGreedy(Split(text), maxLength);
    assert groups == p.closed + [p.open];
    forall j | 0 < j < |segments|
      ensures groups[j] != [] && |segments[j - 1]| + |groups[j][0]| > maxLength
    {
      assert segments[j - 1] == Terminated(p.closed[j - 1]);
      assert groups[j] == (p.closed + [p.open])[j];
    }
  }
}

/** The browser side (static/js/main.js): the twin of the server's segmenter, the
    whitespace normaliser applied to extracted book text, and the queue that sends one
    segment at a time to the provider and fills the slot of each answered segment. The
    provider is a function from the segment's position and its request to the reply;
    timers, the progress bar and the decoding that follows the merge are not part of this
    model. */
module Client {
  import opened Text
  import opened Octets
  import opened Segmenter
  import opened Tts

  /** The limit generateAudiobook passes to the segmenter. */
  const SegmentLength: int := 4000

  /** splitTextIntoSegments: the same walk as the server's, with JavaScript's trim. It
      yields the server's list for every text and limit. */
  method SplitTextIntoSegments(text: string, maxLength: int) returns (segments: seq<string>)
    ensures segments == Segments(text, maxLength, JavaScript)
    ensures segments == Segments(text, maxLength, Python)
    ensures |segments| >= 1
  {
    var sentences := Split(text);
    segments := [];
    var currentSegment := "";
    for i := 0 to |sentences|
      invariant segments == Render(Pack(sentences[..i], maxLength).closed)
      invariant currentSegment == Terminated(Pack(sentences[..i], maxLength).open)
    {
      var sentence := sentences[i];
      assert sentences[..i + 1][..i] == sentences[..i];
      TerminatedSnoc(Pack(sentences[..i], maxLength).open, sentence);
      TerminatedSnoc([], sentence);
      if |currentSegment| + |sentence| > maxLength {
        segments := segments + [currentSegment];
        currentSegment := "";
      }
      currentSegment := currentSegment + sentence + Separator;
    }
    assert sentences[..|sentences|] == sentences;
    if Trim(JavaScript, currentSegment) != "" {
      segments := segments + [currentSegment];
    }
    RuntimesAgree(text, maxLength);
    SegmentsNonEmpty(text, maxLength, JavaScript);
  }

  // ---------------------------------------------------------------------------------
  // removeWhitespace: text.replace(/\s+/g, ' ').trim()
  // ---------------------------------------------------------------------------------

  /** Shorthand for IsSpace(JavaScript, c). */
  predicate Blank(c: char)
  {
    IsSpace(JavaScript, c)
  }

  /** Every whitespace character is a plain space, and no two of them are adjacent. */
  predicate Collapsed(s: string)
  {
    && (forall i :: 0 <= i < |s| && Blank(s[i]) ==> s[i] == ' ')
    && (forall i :: 0 < i < |s| ==> !(Blank(s[i - 1]) && Blank(s[i])))
  }

  /** Collapsed, with no whitespace at either end: the form removeWhitespace produces. */
  predicate Normalized(s: string)
  {
    Collapsed(s) && (s == [] || (!Blank(s[0]) && !Blank(s[|s| - 1])))
  }

  /** The replace with the global pattern /\s+/: every maximal run of whitespace becomes a
      single space, everything else is kept. */
  function CollapseRuns(s: string): (r: string)
    ensures r == [] <==> s == []
    ensures r != [] ==> (Blank(r[0]) <==> Blank(s[0]))
    ensures Collapsed(r)
    decreases |s|
  {
    if s == [] then []
    else if Blank(s[0]) then [' '] + CollapseRuns(TrimStart(JavaScript, s))
    else [s[0]] + CollapseRuns(s[1..])
  }

  /** removeWhitespace. */
  function RemoveWhitespace(s: string): string
  {
    Trim(JavaScript, CollapseRuns(s))
  }

  /** The characters of s that are not whitespace, in order. */
  function Visible(s: string): string
  {
    if s == [] then []
    else (if Blank(s[0]) then [] else [s[0]]) + Visible(s[1..])
  }

  lemma {:induction false} VisibleAppend(a: string, b: string)
    ensures Visible(a + b) == Visible(a) + Visible(b)
    decreases |a|
  {
    if a != [] {
      assert (a + b)[0] == a[0] && (a + b)[1..] == a[1..] + b;
      VisibleAppend(a[1..], b);
    } else {
      assert a + b == b;
    }
  }

  lemma {:induction false} VisibleOfBlanks(s: string)
    requires forall i :: 0 <= i < |s| ==> Blank(s[i])
    ensures Visible(s) == []
    decreases |s|
  {
    if s != [] {
      VisibleOfBlanks(s[1..]);
    }
  }

  /** Trimming removes whitespace only. */
  lemma TrimKeepsVisible(s: string)
    ensures Visible(TrimStart(JavaScript, s)) == Visible(s)
    ensures Visible(TrimEnd(JavaScript, s)) == Visible(s)
  {
    VisibleSuffix(s, TrimStart(JavaScript, s));
    VisiblePrefix(s, TrimEnd(JavaScript, s));
  }

  /** Dropping leading whitespace keeps the visible characters. */
  lemma VisibleSuffix(s: string, t: string)
    requires |t| <= |s| && t == s[|s| - |t|..]
    requires forall i :: 0 <= i < |s| - |t| ==> Blank(s[i])
    ensures Visible(t) == Visible(s)
  {
    var cut := |s| - |t|;
    assert s == s[..cut] + t;
    VisibleAppend(s[..cut], t);
    VisibleOfBlanks(s[..cut]);
  }

  /** Dropping trailing whitespace keeps the visible characters. */
  lemma VisiblePrefix(s: string, e: string)
    requires |e| <= |s| && e == s[..|e|]
    requires forall i :: |e| <= i < |s| ==> Blank(s[i])
    ensures Visible(e) == Visible(s)
  {
    assert s == e + s[|e|..];
    VisibleAppend(e, s[|e|..]);
    VisibleOfBlanks(s[|e|..]);
  }

  /** Collapsing the runs keeps every visible character, in order. */
  lemma {:induction false} CollapseRunsKeepsVisible(s: string)
    ensures Visible(CollapseRuns(s)) == Visible(s)
    decreases |s|
  {
    if s != [] {
      if Blank(s[0]) {
        var t := TrimStart(JavaScript, s);
        CollapseRunsKeepsVisible(t);
        VisibleAppend([' '], CollapseRuns(t));
        TrimKeepsVisible(s);
      } else {
        CollapseRunsKeepsVisible(s[1..]);
        VisibleAppend([s[0]], CollapseRuns(s[1..]));
      }
    }
  }

  /** Any slice of a collapsed string is collapsed. */
  lemma CollapsedSlice(s: string, lo: nat, hi: nat)
    requires lo <= hi <= |s| && Collapsed(s)
    ensures Collapsed(s[lo..hi])
  {
    var t := s[lo..hi];
    forall i | 0 <= i < |t| && Blank(t[i]) ensures t[i] == ' ' {
      assert t[i] == s[lo + i];
    }
    forall i | 0 < i < |t| ensures !(Blank(t[i - 1]) && Blank(t[i])) {
      assert t[i - 1] == s[lo + i - 1] && t[i] == s[lo + i];
    }
  }

  /** The result of removeWhitespace has no whitespace at either end, none but plain
      spaces, and no two whitespace characters side by side. */
  lemma RemoveWhitespaceNormalized(s: string)
    ensures Normalized(RemoveWhitespace(s))
  {
    var c := CollapseRuns(s);
    var t := TrimStart(JavaScript, c);
    var r := TrimEnd(JavaScript, t);
    CollapsedSlice(c, |c| - |t|, |c|);
    assert Collapsed(t);
    CollapsedSlice(t, 0, |r|);
    assert Collapsed(r);
    TrimEnds(JavaScript, c);
  }

  /** removeWhitespace drops whitespace and nothing else: its visible characters are the
      input's, in order. */
  lemma RemoveWhitespaceKeepsVisible(s: string)
    ensures Visible(RemoveWhitespace(s)) == Visible(s)
  {
    var c := CollapseRuns(s);
    CollapseRunsKeepsVisible(s);
    TrimKeepsVisible(c);
    TrimKeepsVisible(TrimStart(JavaScript, c));
  }

  /** A collapsed string is left as it is by the replace. */
  lemma {:induction false} CollapseRunsOfCollapsed(s: string)
    requires Collapsed(s)
    ensures CollapseRuns(s) == s
    decreases |s|
  {
    if s != [] {
      var rest := s[1..];
      CollapsedSlice(s, 1, |s|);
      CollapseRunsOfCollapsed(rest);
      if Blank(s[0]) {
        SingleSpaceRun(s);
        assert CollapseRuns(s) == [' '] + rest;
        assert s[0] == ' ';
      } else {
        assert CollapseRuns(s) == [s[0]] + rest;
      }
      assert s == [s[0]] + rest;
    }
  }

  /** In a collapsed string a run of whitespace is one character long. */
  lemma SingleSpaceRun(s: string)
    requires Collapsed(s) && s != [] && Blank(s[0])
    ensures TrimStart(JavaScript, s) == s[1..]
  {
    assert s[1..] == [] || !Blank(s[1]);
    assert TrimStart(JavaScript, s) == TrimStart(JavaScript, s[1..]);
  }

  /** removeWhitespace leaves a string unchanged exactly when it is already normalized. */
  lemma RemoveWhitespaceFixedPoints(s: string)
    ensures RemoveWhitespace(s) == s <==> Normalized(s)
  {
    RemoveWhitespaceNormalized(s);
    if Normalized(s) {
      CollapseRunsOfCollapsed(s);
      assert TrimStart(JavaScript, s) == s;
      assert TrimEnd(JavaScript, s) == s;
    }
  }

  /** Normalizing twice is normalizing once. */
  lemma RemoveWhitespaceIdempotent(s: string)
    ensures RemoveWhitespace(RemoveWhitespace(s)) == RemoveWhitespace(s)
  {
    RemoveWhitespaceNormalized(s);
    RemoveWhitespaceFixedPoints(RemoveWhitespace(s));
  }

  // An independent account of removeWhitespace: the input's words, one space between
  // neighbours.

  /** A word: a non-empty run of characters none of which is whitespace. */
  predicate IsWord(w: string)
  {
    w != [] && forall i :: 0 <= i < |w| ==> !Blank(w[i])
  }

  /** The word at the start of s: its longest prefix free of whitespace. */
  function Word(s: string): (w: string)
    ensures |w| <= |s| && w == s[..|w|]
    ensures forall i :: 0 <= i < |w| ==> !Blank(w[i])
    ensures |w| == |s| || Blank(s[|w|])
    decreases |s|
  {
    if s == [] || Blank(s[0]) then [] else [s[0]] + Word(s[1..])
  }

  /** The words of s: its maximal runs of characters other than whitespace, in order. */
  function Words(s: string): (ws: seq<string>)
    ensures forall k :: 0 <= k < |ws| ==> IsWord(ws[k])
    decreases |s|
  {
    if s == [] then []
    else if Blank(s[0]) then Words(s[1..])
    else
      var w := Word(s);
      [w] + Words(s[|w|..])
  }

  /** Words written out with a single space between neighbours. */
  function Unwords(ws: seq<string>): string
  {
    if ws == [] then ""
    else if |ws| == 1 then ws[0]
    else ws[0] + " " + Unwords(ws[1..])
  }

  /** Text that ends in whitespace. */
  predicate EndsBlank(s: string)
  {
    s != [] && Blank(s[|s| - 1])
  }

  /** Whitespace before the text does not change its words. */
  lemma {:induction false} WordsSkipBlanks(s: string, t: string)
    requires |t| <= |s| && t == s[|s| - |t|..]
    requires forall i :: 0 <= i < |s| - |t| ==> Blank(s[i])
    ensures Words(s) == Words(t)
    decreases |s|
  {
    if |s| > |t| {
      assert t == s[1..][|s[1..]| - |t|..];
      WordsSkipBlanks(s[1..], t);
    }
  }

  /** The replace copies a word as it is and carries on after it. */
  lemma {:induction false} CollapseRunsWord(s: string)
    requires s != [] && !Blank(s[0])
    ensures CollapseRuns(s) == Word(s) + CollapseRuns(s[|Word(s)|..])
    decreases |s|
  {
    var rest := s[1..];
    VisibleStart(s);
    if rest == [] || Blank(rest[0]) {
      assert Word(rest) == [];
    } else {
      CollapseRunsWord(rest);
      var w := Word(rest);
      DropShift(s, |w| + 1);
      PrependAssoc(s[0], w, CollapseRuns(rest[|w|..]));
    }
  }

  /** The replace and the word at the start, on a text that starts with a character that is
      not whitespace: both keep that character and go on with the rest. */
  lemma VisibleStart(s: string)
    requires s != [] && !Blank(s[0])
    ensures CollapseRuns(s) == [s[0]] + CollapseRuns(s[1..])
    ensures Word(s) == [s[0]] + Word(s[1..])
  {
  }

  lemma DropShift(s: string, k: nat)
    requires 1 <= k <= |s|
    ensures s[k..] == s[1..][k - 1..]
  {
  }

  lemma PrependAssoc(c: char, w: string, r: string)
    ensures [c] + (w + r) == ([c] + w) + r
  {
  }

  /** A text that starts with a word collapses to its words with one space between them,
      and one more space if it ends in whitespace. */
  lemma {:induction false} CollapseRunsAsWords(s: string)
    requires s == [] || !Blank(s[0])
    ensures CollapseRuns(s) == Unwords(Words(s)) + (if EndsBlank(s) then " " else "")
    decreases |s|, 1
  {
    if s != [] {
      var w := Word(s);
      if |w| == |s| {
        EndsWithWord(s);
        CollapseRunsWord(s);
        WordsOfWordStart(s);
        assert s[|w|..] == [];
      } else {
        CollapseRunsAfterWord(s);
      }
    }
  }

  /** The step of CollapseRunsAsWords for a text with whitespace after its first word. */
  lemma {:induction false} CollapseRunsAfterWord(s: string)
    requires s != [] && !Blank(s[0]) && |Word(s)| < |s|
    ensures CollapseRuns(s) == Unwords(Words(s)) + (if EndsBlank(s) then " " else "")
    decreases |s|, 0
  {
    var w := Word(s);
    var rest := s[|w|..];
    CollapseRunsWord(s);
    WordsOfWordStart(s);
    var t := TrimStart(JavaScript, rest);
    CollapseRunsBlankStart(rest);
    WordsSkipBlanks(rest, t);
    if t == [] {
      BlankTail(s, rest);
      assert CollapseRuns(s) == w + " ";
      assert Unwords(Words(s)) == w;
    } else {
      CollapseRunsAsWords(t);
      EndsBlankSuffix(s, rest);
      EndsBlankSuffix(rest, t);
      UnwordsCons(w, Words(t));
      var tail: string := if EndsBlank(t) then " " else "";
      AppendAssoc(w, Unwords(Words(t)), tail);
      assert CollapseRuns(s) == w + (" " + (Unwords(Words(t)) + tail));
    }
  }

  /** The words of a text that starts with a word: that word, then the words after it. */
  lemma WordsOfWordStart(s: string)
    requires s != [] && !Blank(s[0])
    ensures Words(s) == [Word(s)] + Words(s[|Word(s)|..])
  {
  }

  /** The replace on a text that starts with whitespace: one space for the leading run. */
  lemma CollapseRunsBlankStart(s: string)
    requires s != [] && Blank(s[0])
    ensures CollapseRuns(s) == " " + CollapseRuns(TrimStart(JavaScript, s))
  {
  }

  /** A text that is one word does not end in whitespace. */
  lemma EndsWithWord(s: string)
    requires s != [] && !Blank(s[0]) && |Word(s)| == |s|
    ensures !EndsBlank(s) && Word(s) == s
  {
    var w := Word(s);
    assert w[|w| - 1] == s[|s| - 1];
  }

  /** A text whose tail is whitespace only ends in whitespace. */
  lemma BlankTail(s: string, rest: string)
    requires rest != [] && |rest| <= |s| && rest == s[|s| - |rest|..]
    requires TrimStart(JavaScript, rest) == []
    ensures EndsBlank(s)
  {
    assert s[|s| - 1] == rest[|rest| - 1];
  }

  /** Whether a text ends in whitespace is decided by any non-empty tail of it. */
  lemma EndsBlankSuffix(s: string, t: string)
    requires t != [] && |t| <= |s| && t == s[|s| - |t|..]
    ensures EndsBlank(s) == EndsBlank(t)
  {
    assert s[|s| - 1] == t[|t| - 1];
  }

  lemma AppendAssoc(w: string, u: string, tail: string)
    ensures w + (" " + (u + tail)) == w + " " + u + tail
  {
  }

  /** Writing out a word in front of other words puts one space between. */
  lemma UnwordsCons(w: string, ws: seq<string>)
    requires ws != []
    ensures Unwords([w] + ws) == w + " " + Unwords(ws)
  {
    assert ([w] + ws)[1..] == ws;
  }

  /** Words written out neither start nor end with whitespace. */
  lemma {:induction false} UnwordsEnds(ws: seq<string>)
    requires forall k :: 0 <= k < |ws| ==> IsWord(ws[k])
    ensures Unwords(ws) == [] || (!Blank(Unwords(ws)[0]) && !Blank(Unwords(ws)[|Unwords(ws)| - 1]))
    decreases |ws|
  {
    if |ws| > 1 {
      UnwordsEnds(ws[1..]);
      var u := Unwords(ws[1..]);
      assert u != [];
      assert (ws[0] + " " + u)[0] == ws[0][0];
    }
  }

  /** removeWhitespace yields the input's words, separated by single spaces. */
  lemma RemoveWhitespaceIsUnwords(s: string)
    ensures RemoveWhitespace(s) == Unwords(Words(s))
  {
    var t := TrimStart(JavaScript, s);
    WordsSkipBlanks(s, t);
    CollapseRunsAsWords(t);
    var u := Unwords(Words(t));
    var trail: string := if EndsBlank(t) then " " else "";
    UnwordsEnds(Words(t));
    var lead: string;
    if s != [] && Blank(s[0]) {
      CollapseRunsBlankStart(s);
      lead := " ";
    } else {
      assert t == s;
      lead := "";
    }
    LeadAssoc(lead, u, trail);
    assert CollapseRuns(s) == lead + u + trail;
    TrimAround(lead, u, trail);
  }

  lemma LeadAssoc(lead: string, u: string, trail: string)
    ensures lead + (u + trail) == lead + u + trail
    ensures lead == "" ==> lead + u + trail == u + trail
  {
  }

  /** Trimming a space off either side of a string that neither starts nor ends with
      whitespace gives that string back. */
  lemma TrimAround(lead: string, u: string, trail: string)
    requires lead == "" || lead == " "
    requires trail == "" || trail == " "
    requires u == [] || (!Blank(u[0]) && !Blank(u[|u| - 1]))
    ensures Trim(JavaScript, lead + u + trail) == u
  {
    if u == [] {
      var s := lead + u + trail;
      assert forall i :: 0 <= i < |s| ==> s[i] == ' ';
      TrimEmptyIff(JavaScript, s);
    } else {
      assert lead + u + trail == lead + (u + trail);
      assert (u + trail)[0] == u[0];
      TrimLead(lead, u + trail);
      TrimTrail(u, trail);
    }
  }

  /** Trimming the start drops a single leading space before a non-blank character. */
  lemma TrimLead(lead: string, x: string)
    requires lead == "" || lead == " "
    requires x != [] && !Blank(x[0])
    ensures TrimStart(JavaScript, lead + x) == x
  {
    if lead == " " {
      assert (lead + x)[1..] == x;
    } else {
      assert lead + x == x;
    }
  }

  /** Trimming the end drops a single trailing space after a non-blank character. */
  lemma TrimTrail(x: string, trail: string)
    requires trail == "" || trail == " "
    requires x != [] && !Blank(x[|x| - 1])
    ensures TrimEnd(JavaScript, x + trail) == x
  {
    if trail == " " {
      assert (x + trail)[..|x|] == x;
    } else {
      assert x + trail == x;
    }
  }

  /** Writing words out and reading them back gives the same words. */
  lemma {:induction false} WordsOfUnwords(ws: seq<string>)
    requires forall k :: 0 <= k < |ws| ==> IsWord(ws[k])
    ensures Words(Unwords(ws)) == ws
    decreases |ws|
  {
    if ws != [] {
      var w := ws[0];
      var s := Unwords(ws);
      var rest: string := if |ws| == 1 then "" else " " + Unwords(ws[1..]);
      assert s == w + rest;
      WordOfWord(w, rest);
      assert s[0] == w[0];
      WordsOfWordStart(s);
      assert s[|w|..] == rest;
      if |ws| > 1 {
        WordsBlankStart(rest);
        assert rest[1..] == Unwords(ws[1..]);
        WordsOfUnwords(ws[1..]);
        assert ws == [w] + ws[1..];
      }
    }
  }

  /** Whitespace at the start of a text is not part of any word. */
  lemma WordsBlankStart(s: string)
    requires s != [] && Blank(s[0])
    ensures Words(s) == Words(s[1..])
  {
  }

  /** A word followed by nothing or by whitespace is the word at the start. */
  lemma {:induction false} WordOfWord(w: string, rest: string)
    requires IsWord(w) && (rest == [] || Blank(rest[0]))
    ensures Word(w + rest) == w
    decreases |w|
  {
    var s := w + rest;
    assert s[0] == w[0] && s[1..] == w[1..] + rest;
    VisibleStart(s);
    if |w| == 1 {
      assert w[1..] + rest == rest;
    } else {
      var tail := w[1..];
      forall i | 0 <= i < |tail| ensures !Blank(tail[i]) {
        assert tail[i] == w[i + 1];
      }
      WordOfWord(tail, rest);
      assert w == [w[0]] + tail;
    }
  }

  /** removeWhitespace keeps the input's words: the output reads back as exactly the same
      words, in the same order. */
  lemma RemoveWhitespaceKeepsWords(s: string)
    ensures Words(RemoveWhitespace(s)) == Words(s)
  {
    RemoveWhitespaceIsUnwords(s);
    WordsOfUnwords(Words(s));
  }

  // ---------------------------------------------------------------------------------
  // generateAudiobook / processQueue
  // ---------------------------------------------------------------------------------

  datatype Option<T> = None | Some(value: T)

  /** The number of filled slots: audioBlobs.filter(Boolean).length (a blob is an object,
      so every filled slot is truthy and every unfilled one is undefined). */
  function CountFilled(slots: seq<Option<Bytes>>): (n: nat)
    ensures n <= |slots|
    ensures n == |slots| <==> forall k :: 0 <= k < |slots| ==> slots[k].Some?
  {
    if slots == [] then 0
    else (if slots[0].Some? then 1 else 0) + CountFilled(slots[1..])
  }

  /** Slots below n filled, the others not. */
  predicate FilledBelow(slots: seq<Option<Bytes>>, n: int)
  {
    forall k :: 0 <= k < |slots| ==> (slots[k].Some? <==> k < n)
  }

  /** When exactly the first n slots are filled, n slots are counted. */
  lemma {:induction false} CountFilledBelow(slots: seq<Option<Bytes>>, n: nat)
    requires n <= |slots| && FilledBelow(slots, n)
    ensures CountFilled(slots) == n
    decreases |slots|
  {
    if slots != [] {
      if n > 0 {
        assert FilledBelow(slots[1..], n - 1);
        CountFilledBelow(slots[1..], n - 1);
      } else {
        assert FilledBelow(slots[1..], 0);
        CountFilledBelow(slots[1..], 0);
      }
    }
  }

  /** new Array(n): n slots, none of them filled. */
  method EmptySlots(n: nat) returns (slots: array<Option<Bytes>>)
    ensures fresh(slots) && slots[..] == seq(n, k => None)
    ensures FilledBelow(slots[..], 0)
  {
    slots := new Option<Bytes>[n](k => None);
  }

  /** The contents of slots that are all filled. */
  function Values(slots: seq<Option<Bytes>>): (r: seq<Bytes>)
    requires forall k :: 0 <= k < |slots| ==> slots[k].Some?
    ensures |r| == |slots| && forall k :: 0 <= k < |slots| ==> slots[k] == Some(r[k])
  {
    seq(|slots|, k requires 0 <= k < |slots| => slots[k].value)
  }

  /** What one processQueue call leads to: nothing to do (the queue was empty), the merge
      of all blobs, the timer for the next call, or nothing more because the reply was not
      200 (the error indicator is shown and the chain stops). */
  datatype Step = Idle | Merge | Wait | Halted(status: int)

  /** The state generateAudiobook keeps between processQueue calls. */
  class AudiobookJob {
    const segments: seq<string>
    const apiKey: string
    const voice: string
    const audioBlobs: array<Option<Bytes>>
    var queue: seq<string>

    /** One slot per segment; the queue is what is left of the segments, from the front. */
    ghost predicate Valid()
      reads this
    {
      && audioBlobs.Length == |segments| >= 1
      && |queue| <= |segments|
      && queue == segments[|segments| - |queue|..]
    }

    /** The number of segments already taken off the queue. */
    function Taken(): int
      reads this
    {
      |segments| - |queue|
    }

    /** Every segment taken so far has its blob and no later one has. */
    ghost predicate InStep()
      reads this, audioBlobs
    {
      Valid() && FilledBelow(audioBlobs[..], Taken())
    }

    /** generateAudiobook up to the first processQueue call. */
    constructor (text: string, apiKey: string, voice: string)
      ensures this.apiKey == apiKey && this.voice == voice
      ensures segments == Segments(text, SegmentLength, JavaScript)
      ensures queue == segments
      ensures fresh(audioBlobs) && audioBlobs[..] == seq(|segments|, k => None)
      ensures InStep()
    {
      var segments := SplitTextIntoSegments(text, SegmentLength);
      var slots := EmptySlots(|segments|);
      this.segments := segments;
      this.apiKey := apiKey;
      this.voice := voice;
      this.audioBlobs := slots;
      this.queue := segments;
    }

    /** processQueue, with the request's callback run at once: the next segment is taken
        off the queue, its position is the number of segments taken before it, and when the
        reply is 200 its blob goes to that position. The merge fires exactly when every slot
        is filled, which happens with the last segment. */
    method ProcessQueue(provider: (nat, Request) -> Response) returns (next: Step)
      requires InStep()
      modifies this, audioBlobs
      ensures Valid()
      ensures old(queue) == [] ==> next == Idle && queue == [] && audioBlobs[..] == old(audioBlobs[..])
      ensures old(queue) != [] ==>
        var index := old(Taken());
        var reply := Reply(provider, index);
        && old(queue)[0] == segments[index]
        && queue == old(queue)[1..]
        && (reply.status != 200 ==> next == Halted(reply.status) && audioBlobs[..] == old(audioBlobs[..]))
        && (reply.status == 200 ==>
              && audioBlobs[..] == old(audioBlobs[..])[index := Some(reply.content)]
              && InStep()
              && (next == Merge <==> queue == [])
              && (next == Wait <==> queue != []))
      ensures next == Merge ==> forall k :: 0 <= k < audioBlobs.Length ==> audioBlobs[k].Some?
    {
      if |queue| == 0 {
        return Idle;
      }
      var index := |segments| - |queue|;
      var segment := queue[0];
      queue := queue[1..];
      var reply := provider(index, SpeechRequest(segment, apiKey, voice));
      if reply.status != 200 {
        return Halted(reply.status);
      }
      audioBlobs[index] := Some(reply.content);
      assert FilledBelow(audioBlobs[..], index + 1);
      CountFilledBelow(audioBlobs[..], index + 1);
      if CountFilled(audioBlobs[..]) == |segments| {
        next := Merge;
      } else {
        next := Wait;
      }
    }

    /** The whole chain: processQueue, then again after each timer, until it merges or
        stops. It merges exactly when every segment's reply is 200, and then hands over the
        replies' bodies in segment order. */
    method Run(provider: (nat, Request) -> Response) returns (merged: Option<seq<Bytes>>)
      requires InStep() && queue == segments
      modifies this, audioBlobs
      ensures merged.Some? <==> forall k :: 0 <= k < |segments| ==> Reply(provider, k).status == 200
      ensures merged.Some? ==>
        && |merged.value| == |segments|
        && forall k :: 0 <= k < |segments| ==> merged.value[k] == Reply(provider, k).content
    {
      var next := ProcessQueue(provider);
      while next == Wait
        invariant Valid() && next != Idle
        invariant next == Wait ==> InStep() && queue != []
        invariant next == Merge ==> queue == []
        invariant next.Merge? || next.Wait? ==> forall k :: 0 <= k < Taken() ==>
          Reply(provider, k).status == 200 && audioBlobs[k] == Some(Reply(provider, k).content)
        invariant next.Halted? ==> 1 <= Taken() && Reply(provider, Taken() - 1).status != 200
        decreases |queue|
      {
        next := ProcessQueue(provider);
      }
      if next == Merge {
        merged := Some(Values(audioBlobs[..]));
      } else {
        merged := None;
      }
    }

    /** The reply the provider gives for segment k. */
    ghost function Reply(provider: (nat, Request) -> Response, k: nat): Response
      requires k < |segments|
    {
      provider(k, SpeechRequest(segments[k], apiKey, voice))
    }
  }
}

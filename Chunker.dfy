/**
  The sentence chunker of the embeddings service (`chunkText`): the text is
  split on runs of `.`, `!` and `?`, blank fragments are discarded, and the
  trimmed sentences are packed greedily into chunks joined by ". ".
 */
module Chunker {
  import opened JsString

  /** The default `maxChunkSize`. */
  const DefaultMaxChunkSize: int := 1000

  /** What goes between two sentences of one chunk. Its two characters are not counted by the size check. */
  const Separator: String := ". "

  predicate IsDelimiter(c: char) {
    c == '.' || c == '!' || c == '?'
  }

  predicate NoDelimiter(s: String) {
    forall k :: 0 <= k < |s| ==> !IsDelimiter(s[k])
  }

  /** `s.split(/[.!?]+/)`: the fragments between maximal runs of delimiters, with an empty fragment before a leading run and after a trailing one. */
  function SplitSentences(s: String): (parts: seq<String>)
    ensures |parts| >= 1
  {
    if s == [] then [[]]
    else if IsDelimiter(s[0]) then
      if |s| > 1 && IsDelimiter(s[1]) then SplitSentences(s[1..]) else [[]] + SplitSentences(s[1..])
    else
      var rest := SplitSentences(s[1..]);
      [[s[0]] + rest[0]] + rest[1..]
  }

  /** `.filter(s => s.trim().length > 0)`: the fragments that are not blank, untrimmed and in order. */
  function NonBlank(parts: seq<String>): (kept: seq<String>)
    ensures |kept| <= |parts|
  {
    if parts == [] then []
    else (if AllWhitespace(parts[0]) then [] else [parts[0]]) + NonBlank(parts[1..])
  }

  /** No fragment of the split holds a delimiter. */
  lemma {:induction false} SplitHasNoDelimiter(s: String)
    ensures forall i :: 0 <= i < |SplitSentences(s)| ==> NoDelimiter(SplitSentences(s)[i])
  {
    if s != [] {
      SplitHasNoDelimiter(s[1..]);
    }
  }

  /** The kept fragments are non-blank fragments of the input. */
  lemma {:induction false} NonBlankKeeps(parts: seq<String>)
    ensures forall i :: 0 <= i < |NonBlank(parts)| ==> !AllWhitespace(NonBlank(parts)[i]) && NonBlank(parts)[i] in parts
  {
    if parts != [] {
      NonBlankKeeps(parts[1..]);
    }
  }

  /** The filter works fragment by fragment: it distributes over concatenation. */
  lemma {:induction false} NonBlankAppend(a: seq<String>, b: seq<String>)
    ensures NonBlank(a + b) == NonBlank(a) + NonBlank(b)
  {
    if a == [] {
      assert a + b == b;
    } else {
      assert (a + b)[0] == a[0] && (a + b)[1..] == a[1..] + b;
      NonBlankAppend(a[1..], b);
    }
  }

  /** A single fragment is kept exactly when it is not blank. */
  lemma {:induction false} NonBlankSingle(p: String)
    ensures NonBlank([p]) == if AllWhitespace(p) then [] else [p]
  {
    assert [p][1..] == [];
  }

  /** Every non-blank fragment is kept, in its place between what is kept before it and what is kept after it. */
  lemma {:induction false} NonBlankKeepsEvery(parts: seq<String>, i: nat)
    requires i < |parts| && !AllWhitespace(parts[i])
    ensures NonBlank(parts) == NonBlank(parts[..i]) + [parts[i]] + NonBlank(parts[i + 1..])
    ensures parts[i] in NonBlank(parts)
  {
    var before, p, after := parts[..i], parts[i], parts[i + 1..];
    var tail := [p] + after;
    assert NonBlank(tail) == [p] + NonBlank(after) by {
      NonBlankAppend([p], after);
      NonBlankSingle(p);
    }
    assert NonBlank(parts) == NonBlank(before) + NonBlank(tail) by {
      assert parts == before + tail;
      NonBlankAppend(before, tail);
    }
    assert NonBlank(parts)[|NonBlank(before)|] == p;
  }

  /** The fragments the loop of `chunkText` visits. */
  function Fragments(text: String): seq<String> {
    NonBlank(SplitSentences(text))
  }

  /** A sentence as the loop sees it after `trim()`: non-empty, trimmed, without delimiters. */
  predicate IsSentence(s: String) {
    s != [] && IsTrimmed(s) && NoDelimiter(s)
  }

  /** The trimmed sentences, in order. */
  function TrimAll(frags: seq<String>): (ss: seq<String>)
    ensures |ss| == |frags|
    ensures forall i :: 0 <= i < |frags| ==> ss[i] == Trim(frags[i])
  {
    if frags == [] then [] else TrimAll(frags[..|frags| - 1]) + [Trim(frags[|frags| - 1])]
  }

  /** The trimmed sentences of a text, in order: what the loop packs into chunks. */
  function Sentences(text: String): (ss: seq<String>)
    ensures |ss| == |Fragments(text)|
    ensures forall i :: 0 <= i < |ss| ==> IsSentence(ss[i])
  {
    FragmentsAreSentences(text);
    TrimAll(Fragments(text))
  }

  lemma FragmentsAreSentences(text: String)
    ensures forall i :: 0 <= i < |Fragments(text)| ==> IsSentence(Trim(Fragments(text)[i]))
  {
    var frags := Fragments(text);
    SplitHasNoDelimiter(text);
    NonBlankKeeps(SplitSentences(text));
    forall i | 0 <= i < |frags| ensures IsSentence(Trim(frags[i])) {
      var j :| 0 <= j < |SplitSentences(text)| && frags[i] == SplitSentences(text)[j];
      TrimIsSlice(frags[i]);
      var a, b :| 0 <= a <= b <= |frags[i]| && Trim(frags[i]) == frags[i][a..b];
      assert NoDelimiter(frags[i]);
    }
  }

  /** The loop's state: the chunks closed so far and `currentChunk`. */
  datatype Buffer = Buffer(chunks: seq<String>, current: String)

  /** One iteration of the loop of `chunkText` on an untrimmed fragment. */
  function Step(b: Buffer, fragment: String, maxChunkSize: int): Buffer {
    var sentence := Trim(fragment);
    if Utf16Length(b.current) + Utf16Length(sentence) > maxChunkSize then
      if b.current != [] then Buffer(b.chunks + [Trim(b.current)], sentence) else b
    else
      Buffer(b.chunks, b.current + (if b.current != [] then Separator else []) + sentence)
  }

  /** The loop state after the given fragments. */
  function Run(frags: seq<String>, maxChunkSize: int): Buffer {
    if frags == [] then Buffer([], [])
    else Step(Run(frags[..|frags| - 1], maxChunkSize), frags[|frags| - 1], maxChunkSize)
  }

  /** The chunks the loop produces, before the `[text]` fallback: the open buffer is closed if it is not empty. */
  function Produced(frags: seq<String>, maxChunkSize: int): seq<String> {
    var b := Run(frags, maxChunkSize);
    if b.current != [] then b.chunks + [Trim(b.current)] else b.chunks
  }

  /** What `chunkText(text, maxChunkSize)` returns. */
  function Chunks(text: String, maxChunkSize: int): (chunks: seq<String>)
    ensures |chunks| >= 1
  {
    var produced := Produced(Fragments(text), maxChunkSize);
    if |produced| > 0 then produced else [text]
  }

  /** The run over the first `i + 1` fragments is one more `Step` after the run over the first `i`. */
  lemma RunPrefix(frags: seq<String>, i: nat, maxChunkSize: int)
    requires i < |frags|
    ensures Run(frags[..i + 1], maxChunkSize) == Step(Run(frags[..i], maxChunkSize), frags[i], maxChunkSize)
  {
    assert frags[..i + 1][..i] == frags[..i];
  }

  /** `chunkText`: the greedy loop over the sentences. */
  method ChunkText(text: String, maxChunkSize: int := DefaultMaxChunkSize) returns (chunks: seq<String>)
    ensures chunks == Chunks(text, maxChunkSize)
  {
    var sentences := Fragments(text);
    chunks := [];
    var currentChunk: String := [];
    for i := 0 to |sentences|
      invariant Buffer(chunks, currentChunk) == Run(sentences[..i], maxChunkSize)
    {
      RunPrefix(sentences, i, maxChunkSize);
      ghost var before := Buffer(chunks, currentChunk);
      var trimmedSentence := Trim(sentences[i]);
      if Utf16Length(currentChunk) + Utf16Length(trimmedSentence) > maxChunkSize {
        if currentChunk != [] {
          chunks := chunks + [Trim(currentChunk)];
          currentChunk := trimmedSentence;
        }
      } else {
        currentChunk := currentChunk + (if currentChunk != [] then Separator else []) + trimmedSentence;
      }
      assert Buffer(chunks, currentChunk) == Step(before, sentences[i], maxChunkSize);
    }
    assert sentences[..|sentences|] == sentences;
    if currentChunk != [] {
      chunks := chunks + [Trim(currentChunk)];
    }
    if |chunks| == 0 {
      chunks := [text];
    }
  }

  // ---------------------------------------------------------------------
  // What the chunks are: a greedy grouping of the sentences.
  // ---------------------------------------------------------------------

  function Last<T>(s: seq<T>): T
    requires |s| > 0
  {
    s[|s| - 1]
  }

  /** The sentences of the groups, in order. */
  function Flatten(groups: seq<seq<String>>): seq<String> {
    if groups == [] then [] else Flatten(groups[..|groups| - 1]) + Last(groups)
  }

  /** Each group's sentences joined by the separator, as a chunk. */
  function JoinAll(groups: seq<seq<String>>): (r: seq<String>)
    ensures |r| == |groups|
    ensures forall i :: 0 <= i < |r| ==> r[i] == Join(groups[i], Separator)
  {
    if groups == [] then [] else JoinAll(groups[..|groups| - 1]) + [Join(Last(groups), Separator)]
  }

  /** How many leading sentences are longer than `maxChunkSize` on their own: the loop drops each of them, because its buffer is still empty. */
  function Dropped(ss: seq<String>, maxChunkSize: int): (k: nat)
    ensures k <= |ss|
    ensures forall i :: 0 <= i < k ==> Utf16Length(ss[i]) > maxChunkSize
    ensures k < |ss| ==> Utf16Length(ss[k]) <= maxChunkSize
  {
    if ss == [] || Utf16Length(ss[0]) <= maxChunkSize then 0 else 1 + Dropped(ss[1..], maxChunkSize)
  }

  /** The grouping after the loop has seen one more (trimmed) sentence `s`. */
  ghost function Push(g: seq<seq<String>>, s: String, maxChunkSize: int): seq<seq<String>> {
    if g == [] then (if Utf16Length(s) > maxChunkSize then [] else [[s]])
    else if Utf16Length(Join(Last(g), Separator)) + Utf16Length(s) > maxChunkSize then g + [[s]]
    else g[..|g| - 1] + [Last(g) + [s]]
  }

  /** The grouping of the sentences the loop builds: the last group is the open buffer. */
  ghost function Groups(frags: seq<String>, maxChunkSize: int): seq<seq<String>> {
    if frags == [] then []
    else Push(Groups(frags[..|frags| - 1], maxChunkSize), Trim(frags[|frags| - 1]), maxChunkSize)
  }

  /** Within a group, each sentence after the first was added because it fitted: the buffer's length plus its own stayed within `maxChunkSize` (the separator not counted). */
  ghost predicate Fits(groups: seq<seq<String>>, maxChunkSize: int) {
    forall i, j {:trigger groups[i][j]} :: 0 <= i < |groups| && 1 <= j < |groups[i]| ==>
      Utf16Length(Join(groups[i][..j], Separator)) + Utf16Length(groups[i][j]) <= maxChunkSize
  }

  /** Each group after the first was opened because its first sentence did not fit after the previous group. */
  ghost predicate Overflows(groups: seq<seq<String>>, maxChunkSize: int) {
    forall i {:trigger groups[i][0]} :: 1 <= i < |groups| && groups[i] != [] ==>
      Utf16Length(Join(groups[i - 1], Separator)) + Utf16Length(groups[i][0]) > maxChunkSize
  }

  /** Every group is a non-empty list of sentences. */
  ghost predicate SentenceGroups(groups: seq<seq<String>>) {
    forall i :: 0 <= i < |groups| ==> |groups[i]| >= 1 && forall k :: 0 <= k < |groups[i]| ==> IsSentence(groups[i][k])
  }

  /** The shape every grouping the loop builds keeps. */
  ghost predicate WellFormed(groups: seq<seq<String>>, maxChunkSize: int) {
    SentenceGroups(groups) && Fits(groups, maxChunkSize) && Overflows(groups, maxChunkSize)
  }

  /** The greedy grouping of the sentences `ss`: well formed, and holding the sentences after the dropped prefix, in order. */
  ghost predicate IsGreedyGrouping(groups: seq<seq<String>>, ss: seq<String>, maxChunkSize: int) {
    WellFormed(groups, maxChunkSize) && Flatten(groups) == ss[Dropped(ss, maxChunkSize)..]
  }

  lemma {:induction false} DroppedSnoc(ss: seq<String>, s: String, maxChunkSize: int)
    ensures Dropped(ss + [s], maxChunkSize) ==
      if Dropped(ss, maxChunkSize) < |ss| then Dropped(ss, maxChunkSize)
      else if Utf16Length(s) > maxChunkSize then |ss| + 1 else |ss|
  {
    if ss != [] {
      assert (ss + [s])[1..] == ss[1..] + [s];
      if Utf16Length(ss[0]) > maxChunkSize {
        DroppedSnoc(ss[1..], s, maxChunkSize);
      }
    }
  }

  lemma JoinSnoc(g: seq<String>, s: String)
    requires |g| >= 1
    ensures Join(g + [s], Separator) == Join(g, Separator) + Separator + s
  {
    assert (g + [s])[..|g|] == g;
  }

  lemma {:induction false} JoinIsSentenceList(g: seq<String>)
    requires |g| >= 1
    requires forall k :: 0 <= k < |g| ==> IsSentence(g[k])
    ensures Join(g, Separator) != []
    ensures IsTrimmed(Join(g, Separator))
  {
    if |g| > 1 {
      var p := g[..|g| - 1];
      JoinIsSentenceList(p);
      var j := Join(p, Separator);
      assert Join(g, Separator) == j + Separator + g[|g| - 1];
      assert Join(g, Separator)[0] == j[0];
    }
  }

  /** The overflow branch: the buffer is closed and the sentence opens a new group. */
  lemma OpenGroup(g: seq<seq<String>>, s: String, maxChunkSize: int)
    requires WellFormed(g, maxChunkSize) && g != [] && IsSentence(s)
    requires Utf16Length(Join(Last(g), Separator)) + Utf16Length(s) > maxChunkSize
    ensures WellFormed(g + [[s]], maxChunkSize)
    ensures Flatten(g + [[s]]) == Flatten(g) + [s]
  {
    var g' := g + [[s]];
    assert g'[..|g'| - 1] == g;
    OpenGroupFits(g, s, maxChunkSize);
    OpenGroupOverflows(g, s, maxChunkSize);
  }

  lemma OpenGroupFits(g: seq<seq<String>>, s: String, maxChunkSize: int)
    requires Fits(g, maxChunkSize)
    ensures Fits(g + [[s]], maxChunkSize)
  {
    var g' := g + [[s]];
    forall i, j | 0 <= i < |g'| && 1 <= j < |g'[i]|
      ensures Utf16Length(Join(g'[i][..j], Separator)) + Utf16Length(g'[i][j]) <= maxChunkSize
    {
      assert i < |g| && g'[i] == g[i];
    }
  }

  lemma OpenGroupOverflows(g: seq<seq<String>>, s: String, maxChunkSize: int)
    requires Overflows(g, maxChunkSize) && g != []
    requires Utf16Length(Join(Last(g), Separator)) + Utf16Length(s) > maxChunkSize
    ensures Overflows(g + [[s]], maxChunkSize)
  {
    var g' := g + [[s]];
    forall i | 1 <= i < |g'| && g'[i] != []
      ensures Utf16Length(Join(g'[i - 1], Separator)) + Utf16Length(g'[i][0]) > maxChunkSize
    {
      assert g'[i - 1] == g[i - 1];
      if i < |g| {
        assert g'[i] == g[i];
      }
    }
  }

  /** The fitting branch: the sentence is appended to the open group. */
  lemma ExtendGroup(g: seq<seq<String>>, s: String, maxChunkSize: int)
    requires WellFormed(g, maxChunkSize) && g != [] && IsSentence(s)
    requires Utf16Length(Join(Last(g), Separator)) + Utf16Length(s) <= maxChunkSize
    ensures WellFormed(g[..|g| - 1] + [Last(g) + [s]], maxChunkSize)
    ensures Flatten(g[..|g| - 1] + [Last(g) + [s]]) == Flatten(g) + [s]
  {
    var m := |g| - 1;
    var g' := g[..m] + [Last(g) + [s]];
    assert g'[..|g'| - 1] == g[..m];
    assert Flatten(g) == Flatten(g[..m]) + Last(g);
    ExtendGroupFits(g, s, maxChunkSize);
    ExtendGroupOverflows(g, s, maxChunkSize);
    forall i | 0 <= i < |g'| ensures |g'[i]| >= 1 && forall k :: 0 <= k < |g'[i]| ==> IsSentence(g'[i][k]) {
      if i < m { assert g'[i] == g[i]; }
    }
  }

  lemma ExtendGroupFits(g: seq<seq<String>>, s: String, maxChunkSize: int)
    requires Fits(g, maxChunkSize) && g != []
    requires Utf16Length(Join(Last(g), Separator)) + Utf16Length(s) <= maxChunkSize
    ensures Fits(g[..|g| - 1] + [Last(g) + [s]], maxChunkSize)
  {
    var m := |g| - 1;
    var last := g[m];
    var g' := g[..m] + [last + [s]];
    forall i, j | 0 <= i < |g'| && 1 <= j < |g'[i]|
      ensures Utf16Length(Join(g'[i][..j], Separator)) + Utf16Length(g'[i][j]) <= maxChunkSize
    {
      if i < m {
        assert g'[i] == g[i];
        assert g[i][j] == g'[i][j];
      } else if j < |last| {
        assert g'[i][..j] == last[..j];
        assert g[m][j] == g'[i][j];
      } else {
        assert g'[i][..j] == last && g'[i][j] == s;
      }
    }
  }

  lemma ExtendGroupOverflows(g: seq<seq<String>>, s: String, maxChunkSize: int)
    requires Overflows(g, maxChunkSize) && g != [] && |Last(g)| >= 1
    ensures Overflows(g[..|g| - 1] + [Last(g) + [s]], maxChunkSize)
  {
    var m := |g| - 1;
    var last := g[m];
    var g' := g[..m] + [last + [s]];
    forall i | 1 <= i < |g'| && g'[i] != []
      ensures Utf16Length(Join(g'[i - 1], Separator)) + Utf16Length(g'[i][0]) > maxChunkSize
    {
      assert g'[i - 1] == g[i - 1];
      if i < m {
        assert g'[i] == g[i];
      } else {
        assert g'[i][0] == last[0] == g[m][0];
      }
    }
  }

  lemma {:induction false} GroupsInvariant(frags: seq<String>, maxChunkSize: int)
    requires forall i :: 0 <= i < |frags| ==> IsSentence(Trim(frags[i]))
    ensures IsGreedyGrouping(Groups(frags, maxChunkSize), TrimAll(frags), maxChunkSize)
  {
    if frags != [] {
      var n := |frags|;
      var pre := frags[..n - 1];
      assert forall i :: 0 <= i < |pre| ==> IsSentence(Trim(pre[i])) by {
        assert forall i :: 0 <= i < |pre| ==> pre[i] == frags[i];
      }
      GroupsInvariant(pre, maxChunkSize);
      var g := Groups(pre, maxChunkSize);
      var s := Trim(frags[n - 1]);
      assert IsSentence(s);
      GroupsStep(g, TrimAll(pre), s, maxChunkSize);
      assert Groups(frags, maxChunkSize) == Push(g, s, maxChunkSize);
      assert TrimAll(frags) == TrimAll(pre) + [s];
    }
  }

  /** One loop iteration keeps the grouping greedy. */
  lemma GroupsStep(g: seq<seq<String>>, ps: seq<String>, s: String, maxChunkSize: int)
    requires IsGreedyGrouping(g, ps, maxChunkSize) && IsSentence(s)
    ensures IsGreedyGrouping(Push(g, s, maxChunkSize), ps + [s], maxChunkSize)
  {
    DroppedSnoc(ps, s, maxChunkSize);
    assert g == [] <==> Dropped(ps, maxChunkSize) == |ps| by {
      if g != [] { FlattenNonEmpty(g); }
    }
    if g == [] {
      GroupsStepFromEmpty(ps, s, maxChunkSize);
    } else {
      GroupsStepFromOpen(g, ps, s, maxChunkSize);
    }
  }

  lemma GroupsStepFromEmpty(ps: seq<String>, s: String, maxChunkSize: int)
    requires IsGreedyGrouping([], ps, maxChunkSize) && IsSentence(s)
    requires Dropped(ps, maxChunkSize) == |ps|
    ensures IsGreedyGrouping(Push([], s, maxChunkSize), ps + [s], maxChunkSize)
  {
    var ss := ps + [s];
    DroppedSnoc(ps, s, maxChunkSize);
    if Utf16Length(s) <= maxChunkSize {
      SingletonGroup(s, maxChunkSize);
      assert ss[Dropped(ss, maxChunkSize)..] == [s];
    } else {
      assert ss[Dropped(ss, maxChunkSize)..] == [];
    }
  }

  /** A single sentence on its own is a well-formed grouping. */
  lemma SingletonGroup(s: String, maxChunkSize: int)
    requires IsSentence(s)
    ensures WellFormed([[s]], maxChunkSize) && Flatten([[s]]) == [s]
  {
    var g := [[s]];
    assert Flatten(g) == Flatten(g[..0]) + g[0];
  }

  lemma GroupsStepFromOpen(g: seq<seq<String>>, ps: seq<String>, s: String, maxChunkSize: int)
    requires IsGreedyGrouping(g, ps, maxChunkSize) && IsSentence(s) && g != []
    requires Dropped(ps, maxChunkSize) < |ps|
    ensures IsGreedyGrouping(Push(g, s, maxChunkSize), ps + [s], maxChunkSize)
  {
    if Utf16Length(Join(Last(g), Separator)) + Utf16Length(s) > maxChunkSize {
      GroupsStepCloses(g, ps, s, maxChunkSize);
      assert Push(g, s, maxChunkSize) == g + [[s]];
    } else {
      GroupsStepExtends(g, ps, s, maxChunkSize);
      assert Push(g, s, maxChunkSize) == g[..|g| - 1] + [Last(g) + [s]];
    }
  }

  lemma GroupsStepCloses(g: seq<seq<String>>, ps: seq<String>, s: String, maxChunkSize: int)
    requires IsGreedyGrouping(g, ps, maxChunkSize) && IsSentence(s) && g != []
    requires Dropped(ps, maxChunkSize) < |ps|
    requires Utf16Length(Join(Last(g), Separator)) + Utf16Length(s) > maxChunkSize
    ensures IsGreedyGrouping(g + [[s]], ps + [s], maxChunkSize)
  {
    DroppedSnoc(ps, s, maxChunkSize);
    var d := Dropped(ps, maxChunkSize);
    assert (ps + [s])[d..] == ps[d..] + [s];
    OpenGroup(g, s, maxChunkSize);
  }

  lemma GroupsStepExtends(g: seq<seq<String>>, ps: seq<String>, s: String, maxChunkSize: int)
    requires IsGreedyGrouping(g, ps, maxChunkSize) && IsSentence(s) && g != []
    requires Dropped(ps, maxChunkSize) < |ps|
    requires Utf16Length(Join(Last(g), Separator)) + Utf16Length(s) <= maxChunkSize
    ensures IsGreedyGrouping(g[..|g| - 1] + [Last(g) + [s]], ps + [s], maxChunkSize)
  {
    DroppedSnoc(ps, s, maxChunkSize);
    var d := Dropped(ps, maxChunkSize);
    assert (ps + [s])[d..] == ps[d..] + [s];
    ExtendGroup(g, s, maxChunkSize);
  }

  lemma {:induction false} FlattenNonEmpty(g: seq<seq<String>>)
    requires |g| >= 1
    requires forall i :: 0 <= i < |g| ==> |g[i]| >= 1
    ensures |Flatten(g)| >= |Last(g)| >= 1
  {
    assert Flatten(g) == Flatten(g[..|g| - 1]) + Last(g);
  }

  /** The loop state a grouping stands for: the closed groups joined as chunks, the last one as the open buffer. */
  ghost function View(g: seq<seq<String>>): Buffer {
    if g == [] then Buffer([], []) else Buffer(JoinAll(g[..|g| - 1]), Join(Last(g), Separator))
  }

  /** One iteration of the loop on the buffer is one `Push` on the grouping. */
  lemma StepIsPush(g: seq<seq<String>>, fragment: String, maxChunkSize: int)
    requires WellFormed(g, maxChunkSize) && IsSentence(Trim(fragment))
    ensures Step(View(g), fragment, maxChunkSize) == View(Push(g, Trim(fragment), maxChunkSize))
  {
    if g != [] {
      var last := g[|g| - 1];
      assert |last| >= 1 && forall k :: 0 <= k < |last| ==> IsSentence(last[k]);
      if Utf16Length(Join(last, Separator)) + Utf16Length(Trim(fragment)) > maxChunkSize {
        StepClosesGroup(g, fragment, maxChunkSize);
      } else {
        StepExtendsGroup(g, fragment, maxChunkSize);
      }
    }
  }

  lemma StepClosesGroup(g: seq<seq<String>>, fragment: String, maxChunkSize: int)
    requires g != [] && |Last(g)| >= 1 && forall k :: 0 <= k < |Last(g)| ==> IsSentence(Last(g)[k])
    requires Utf16Length(Join(Last(g), Separator)) + Utf16Length(Trim(fragment)) > maxChunkSize
    ensures Step(View(g), fragment, maxChunkSize) == View(g + [[Trim(fragment)]])
  {
    var last := Last(g);
    JoinIsSentenceList(last);
    var g' := g + [[Trim(fragment)]];
    assert g'[..|g'| - 1] == g;
    assert g[..|g| - 1] + [last] == g;
    assert JoinAll(g) == JoinAll(g[..|g| - 1]) + [Join(last, Separator)];
  }

  lemma StepExtendsGroup(g: seq<seq<String>>, fragment: String, maxChunkSize: int)
    requires g != [] && |Last(g)| >= 1 && forall k :: 0 <= k < |Last(g)| ==> IsSentence(Last(g)[k])
    requires Utf16Length(Join(Last(g), Separator)) + Utf16Length(Trim(fragment)) <= maxChunkSize
    ensures Step(View(g), fragment, maxChunkSize) == View(g[..|g| - 1] + [Last(g) + [Trim(fragment)]])
  {
    var last := Last(g);
    JoinIsSentenceList(last);
    JoinSnoc(last, Trim(fragment));
    var g' := g[..|g| - 1] + [last + [Trim(fragment)]];
    assert g'[..|g'| - 1] == g[..|g| - 1];
  }

  /** The loop's buffer is the grouping with every closed group joined by the separator and the last group open. */
  lemma {:induction false} RunIsGroups(frags: seq<String>, maxChunkSize: int)
    requires forall i :: 0 <= i < |frags| ==> IsSentence(Trim(frags[i]))
    ensures Run(frags, maxChunkSize) == View(Groups(frags, maxChunkSize))
  {
    if frags != [] {
      var pre := frags[..|frags| - 1];
      assert forall i :: 0 <= i < |pre| ==> pre[i] == frags[i];
      RunIsGroups(pre, maxChunkSize);
      GroupsInvariant(pre, maxChunkSize);
      StepIsPush(Groups(pre, maxChunkSize), frags[|frags| - 1], maxChunkSize);
    }
  }

  /** The chunks of a text are exactly its sentence groups, each joined by ". ", when at least one sentence is kept. */
  lemma ProducedIsJoinedGroups(frags: seq<String>, maxChunkSize: int)
    requires forall i :: 0 <= i < |frags| ==> IsSentence(Trim(frags[i]))
    ensures Produced(frags, maxChunkSize) == JoinAll(Groups(frags, maxChunkSize))
  {
    RunIsGroups(frags, maxChunkSize);
    GroupsInvariant(frags, maxChunkSize);
    var g := Groups(frags, maxChunkSize);
    var b := Run(frags, maxChunkSize);
    assert b == View(g);
    if g != [] {
      var last := Last(g);
      assert |last| >= 1 && forall k :: 0 <= k < |last| ==> IsSentence(last[k]);
      JoinIsSentenceList(last);
      assert b.current == Join(last, Separator) != [];
      assert Trim(b.current) == b.current;
      assert JoinAll(g) == JoinAll(g[..|g| - 1]) + [Join(last, Separator)];
    }
  }

  // ---------------------------------------------------------------------
  // Properties of `chunkText`.
  // ---------------------------------------------------------------------

  /**
    The chunks are the trimmed sentences that survive, grouped greedily in
    source order: within a chunk the sentences are joined by exactly ". ",
    each sentence after the first was added because it fitted, each chunk
    after the first was opened because its first sentence did not fit, and
    the only sentences missing are the leading ones that were longer than
    `maxChunkSize` while the buffer was still empty.
   */
  lemma ChunksAreGreedyGroups(text: String, maxChunkSize: int)
    ensures var frags := Fragments(text);
      var g := Groups(frags, maxChunkSize);
      && IsGreedyGrouping(g, Sentences(text), maxChunkSize)
      && Chunks(text, maxChunkSize) == (if g != [] then JoinAll(g) else [text])
  {
    var frags := Fragments(text);
    FragmentsAreSentences(text);
    ProducedIsJoinedGroups(frags, maxChunkSize);
    GroupsInvariant(frags, maxChunkSize);
  }

  /** Every chunk of a non-empty grouping is a non-empty trimmed string. */
  lemma ChunksAreTrimmed(text: String, maxChunkSize: int)
    requires Produced(Fragments(text), maxChunkSize) != []
    ensures forall i :: 0 <= i < |Chunks(text, maxChunkSize)| ==>
      Chunks(text, maxChunkSize)[i] != [] && IsTrimmed(Chunks(text, maxChunkSize)[i])
  {
    var frags := Fragments(text);
    var g := Groups(frags, maxChunkSize);
    assert Chunks(text, maxChunkSize) == JoinAll(g) by {
      FragmentsAreSentences(text);
      ProducedIsJoinedGroups(frags, maxChunkSize);
    }
    assert SentenceGroups(g) by {
      ChunksAreGreedyGroups(text, maxChunkSize);
    }
    forall i | 0 <= i < |g| ensures Join(g[i], Separator) != [] && IsTrimmed(Join(g[i], Separator)) {
      JoinIsSentenceList(g[i]);
    }
  }

  /** A greedy grouping is empty exactly when every sentence is too long on its own. */
  lemma GreedyEmptyIff(g: seq<seq<String>>, ss: seq<String>, maxChunkSize: int)
    requires IsGreedyGrouping(g, ss, maxChunkSize)
    ensures g == [] <==> AllTooLong(ss, maxChunkSize)
  {
    var d := Dropped(ss, maxChunkSize);
    if g != [] {
      FlattenNonEmpty(g);
      assert d < |ss|;
    } else {
      assert ss[d..] == [];
    }
  }

  /** In a greedy grouping, a group of two or more sentences joins to at most `maxChunkSize + 2` characters. */
  lemma GreedyGroupBound(g: seq<seq<String>>, maxChunkSize: int)
    requires Fits(g, maxChunkSize)
    ensures forall i :: 0 <= i < |g| && |g[i]| >= 2 ==> Utf16Length(Join(g[i], Separator)) <= maxChunkSize + 2
  {
    forall i | 0 <= i < |g| && |g[i]| >= 2 ensures Utf16Length(Join(g[i], Separator)) <= maxChunkSize + 2 {
      var j := |g[i]| - 1;
      var p := Join(g[i][..j], Separator);
      assert Utf16Length(p) + Utf16Length(g[i][j]) <= maxChunkSize;
      assert g[i] == g[i][..j] + [g[i][j]];
      JoinSnoc(g[i][..j], g[i][j]);
      Utf16LengthAppend(p, Separator);
      Utf16LengthAppend(p + Separator, g[i][j]);
    }
  }

  /** The first sentence of a greedy grouping fits on its own. */
  lemma GreedyFirstFits(g: seq<seq<String>>, ss: seq<String>, maxChunkSize: int)
    requires IsGreedyGrouping(g, ss, maxChunkSize) && g != []
    ensures Utf16Length(g[0][0]) <= maxChunkSize
  {
    FlattenFirst(g);
    FlattenNonEmpty(g);
    var d := Dropped(ss, maxChunkSize);
    assert Flatten(g)[0] == ss[d..][0] == ss[d];
  }

  /** Every sentence is longer than `maxChunkSize` on its own (vacuously so when there is none). */
  predicate AllTooLong(ss: seq<String>, maxChunkSize: int) {
    forall i :: 0 <= i < |ss| ==> Utf16Length(ss[i]) > maxChunkSize
  }

  /** The loop produces no chunk, and `chunkText` falls back to `[text]`, exactly when every sentence is longer than `maxChunkSize` (in particular when there is none). */
  lemma FallbackIff(text: String, maxChunkSize: int)
    ensures Produced(Fragments(text), maxChunkSize) == [] <==> AllTooLong(Sentences(text), maxChunkSize)
    ensures Produced(Fragments(text), maxChunkSize) == [] ==> Chunks(text, maxChunkSize) == [text]
  {
    FragmentsAreSentences(text);
    ProducedEmptyIff(Fragments(text), maxChunkSize);
  }

  lemma ProducedEmptyIff(frags: seq<String>, maxChunkSize: int)
    requires forall i :: 0 <= i < |frags| ==> IsSentence(Trim(frags[i]))
    ensures Produced(frags, maxChunkSize) == [] <==> AllTooLong(TrimAll(frags), maxChunkSize)
  {
    var g := Groups(frags, maxChunkSize);
    var ss := TrimAll(frags);
    ProducedIsJoinedGroups(frags, maxChunkSize);
    GroupsInvariant(frags, maxChunkSize);
    GreedyEmptyIff(g, ss, maxChunkSize);
    assert |Produced(frags, maxChunkSize)| == |JoinAll(g)| == |g|;
  }

  /** A chunk of two or more sentences is at most `maxChunkSize + 2` long: the size check leaves out the last separator. The first sentence of the first chunk always fits. */
  lemma ChunkSizeBound(text: String, maxChunkSize: int)
    ensures var g := Groups(Fragments(text), maxChunkSize);
      && (forall i :: 0 <= i < |g| && |g[i]| >= 2 ==> Utf16Length(Join(g[i], Separator)) <= maxChunkSize + 2)
      && (g != [] ==> |g[0]| >= 1 && Utf16Length(g[0][0]) <= maxChunkSize)
  {
    FragmentsAreSentences(text);
    GroupsBound(Fragments(text), maxChunkSize);
  }

  lemma GroupsBound(frags: seq<String>, maxChunkSize: int)
    requires forall i :: 0 <= i < |frags| ==> IsSentence(Trim(frags[i]))
    ensures var g := Groups(frags, maxChunkSize);
      && (forall i :: 0 <= i < |g| && |g[i]| >= 2 ==> Utf16Length(Join(g[i], Separator)) <= maxChunkSize + 2)
      && (g != [] ==> |g[0]| >= 1 && Utf16Length(g[0][0]) <= maxChunkSize)
  {
    GroupsInvariant(frags, maxChunkSize);
    var g := Groups(frags, maxChunkSize);
    GreedyGroupBound(g, maxChunkSize);
    if g != [] {
      GreedyFirstFits(g, TrimAll(frags), maxChunkSize);
    }
  }

  lemma {:induction false} FlattenFirst(g: seq<seq<String>>)
    requires |g| >= 1 && forall i :: 0 <= i < |g| ==> |g[i]| >= 1
    ensures |Flatten(g)| >= 1 && Flatten(g)[0] == g[0][0]
  {
    if |g| > 1 {
      FlattenFirst(g[..|g| - 1]);
    }
  }

  /** Concatenating the fragments of the split gives back the text without its delimiters. */
  function RemoveDelimiters(s: String): (r: String)
    ensures NoDelimiter(r)
  {
    if s == [] then [] else (if IsDelimiter(s[0]) then [] else [s[0]]) + RemoveDelimiters(s[1..])
  }

  function Concat(parts: seq<String>): String {
    if parts == [] then [] else parts[0] + Concat(parts[1..])
  }

  lemma {:induction false} SplitLosesOnlyDelimiters(s: String)
    ensures Concat(SplitSentences(s)) == RemoveDelimiters(s)
  {
    if s != [] {
      SplitLosesOnlyDelimiters(s[1..]);
      var rest := SplitSentences(s[1..]);
      if IsDelimiter(s[0]) {
        if !(|s| > 1 && IsDelimiter(s[1])) {
          assert ([[]] + rest)[1..] == rest;
        }
      } else {
        var parts := [[s[0]] + rest[0]] + rest[1..];
        assert parts[1..] == rest[1..];
        assert Concat(rest) == rest[0] + Concat(rest[1..]);
      }
    }
  }

  predicate AllDelimiters(r: String) {
    forall k :: 0 <= k < |r| ==> IsDelimiter(r[k])
  }

  /** A text without delimiters is a single fragment. */
  lemma {:induction false} SplitNoDelimiter(f: String)
    requires NoDelimiter(f)
    ensures SplitSentences(f) == [f]
  {
    if f != [] {
      assert NoDelimiter(f[1..]) by {
        forall k | 0 <= k < |f[1..]| ensures !IsDelimiter(f[1..][k]) { assert f[1..][k] == f[k + 1]; }
      }
      SplitNoDelimiter(f[1..]);
      assert [f[0]] + f[1..] == f;
    }
  }

  /** A delimiter run of any length ends the fragment before it, like a single delimiter (the `+` of the pattern). */
  lemma {:induction false} SplitAtRun(f: String, r: String, s: String)
    requires NoDelimiter(f) && r != [] && AllDelimiters(r)
    requires s == [] || !IsDelimiter(s[0])
    ensures SplitSentences(f + r + s) == [f] + SplitSentences(s)
    decreases |f| + |r|
  {
    var t := f + r + s;
    if f == [] {
      if |r| == 1 {
        assert t == [r[0]] + s;
        SplitDelimiter(r[0], s);
      } else {
        assert t[0] == r[0] && IsDelimiter(t[1]);
        assert NoDelimiter([]);
        SplitAtRun([], r[1..], s);
        assert t[1..] == [] + r[1..] + s;
      }
    } else {
      assert NoDelimiter(f[1..]) by {
        forall k | 0 <= k < |f[1..]| ensures !IsDelimiter(f[1..][k]) { assert f[1..][k] == f[k + 1]; }
      }
      SplitAtRun(f[1..], r, s);
      assert t[0] == f[0] && t[1..] == f[1..] + r + s;
      assert [f[0]] + f[1..] == f;
    }
  }

  /** Two or more delimiters in a row split exactly like one. */
  lemma {:induction false} SplitRunLikeOne(f: String, r: String, d: char, s: String)
    requires NoDelimiter(f) && r != [] && AllDelimiters(r) && IsDelimiter(d)
    requires s == [] || !IsDelimiter(s[0])
    ensures SplitSentences(f + r + s) == SplitSentences(f + [d] + s)
  {
    SplitAtRun(f, r, s);
    SplitAtRun(f, [d], s);
  }

  /** Fragments glued back together with a delimiter run between each two neighbours. */
  function Interleave(parts: seq<String>, runs: seq<String>): String
    requires |parts| == |runs| + 1
  {
    if |runs| == 0 then parts[0] else parts[0] + runs[0] + Interleave(parts[1..], runs[1..])
  }

  /** Splitting recovers the fragments of any text built from delimiter-free fragments and non-empty delimiter runs, provided no inner fragment is empty (two runs would otherwise merge into one). */
  lemma {:induction false} SplitInterleave(parts: seq<String>, runs: seq<String>)
    requires |parts| == |runs| + 1
    requires forall i :: 0 <= i < |parts| ==> NoDelimiter(parts[i])
    requires forall i :: 0 < i < |parts| - 1 ==> parts[i] != []
    requires forall i :: 0 <= i < |runs| ==> runs[i] != [] && AllDelimiters(runs[i])
    ensures SplitSentences(Interleave(parts, runs)) == parts
  {
    if |runs| == 0 {
      SplitNoDelimiter(parts[0]);
      assert [parts[0]] == parts;
    } else {
      var s := Interleave(parts[1..], runs[1..]);
      assert s == [] || !IsDelimiter(s[0]) by {
        if |runs| == 1 {
          assert s == parts[1];
        } else {
          assert parts[1] != [];
          assert s[0] == parts[1][0];
        }
      }
      SplitInterleave(parts[1..], runs[1..]);
      SplitAtRun(parts[0], runs[0], s);
      assert [parts[0]] + parts[1..] == parts;
    }
  }

  /** A word without delimiters is glued to the first fragment of what follows it. */
  lemma {:induction false} SplitWord(w: String, rest: String)
    requires NoDelimiter(w) && w != []
    ensures SplitSentences(w + rest) == [w + SplitSentences(rest)[0]] + SplitSentences(rest)[1..]
  {
    assert (w + rest)[1..] == w[1..] + rest;
    assert (w + rest)[0] == w[0] && !IsDelimiter(w[0]);
    if |w| > 1 {
      SplitWord(w[1..], rest);
      assert [w[0]] + (w[1..] + SplitSentences(rest)[0]) == w + SplitSentences(rest)[0];
    } else {
      assert w[1..] + rest == rest;
      assert [w[0]] == w;
    }
  }

  /** A single delimiter ends a fragment. */
  lemma SplitDelimiter(d: char, rest: String)
    requires IsDelimiter(d) && (rest == [] || !IsDelimiter(rest[0]))
    ensures SplitSentences([d] + rest) == [[]] + SplitSentences(rest)
  {
    assert ([d] + rest)[1..] == rest;
  }

  /** A word followed by one delimiter is a fragment of its own. */
  lemma SplitWordDelimiter(w: String, d: char, rest: String)
    requires NoDelimiter(w) && w != [] && IsDelimiter(d) && (rest == [] || !IsDelimiter(rest[0]))
    ensures SplitSentences(w + [d] + rest) == [w] + SplitSentences(rest)
  {
    SplitDelimiter(d, rest);
    SplitWord(w, [d] + rest);
    assert w + [d] + rest == w + ([d] + rest);
    assert w + [] == w;
  }

  /** The fragments of delimiter-free words, each followed by one delimiter. */
  lemma SplitOne(w: String, d: char)
    requires NoDelimiter(w) && w != [] && IsDelimiter(d)
    ensures SplitSentences(w + [d]) == [w, []]
  {
    SplitWordDelimiter(w, d, []);
    assert w + [d] + [] == w + [d];
  }

  lemma SplitTwo(w1: String, d1: char, w2: String, d2: char)
    requires NoDelimiter(w1) && NoDelimiter(w2) && w1 != [] && w2 != []
    requires IsDelimiter(d1) && IsDelimiter(d2)
    ensures SplitSentences(w1 + [d1] + (w2 + [d2])) == [w1, w2, []]
  {
    SplitOne(w2, d2);
    SplitWordDelimiter(w1, d1, w2 + [d2]);
  }

  lemma SplitThree(w1: String, d1: char, w2: String, d2: char, w3: String, d3: char)
    requires NoDelimiter(w1) && NoDelimiter(w2) && NoDelimiter(w3) && w1 != [] && w2 != [] && w3 != []
    requires IsDelimiter(d1) && IsDelimiter(d2) && IsDelimiter(d3)
    ensures SplitSentences(w1 + [d1] + (w2 + [d2] + (w3 + [d3]))) == [w1, w2, w3, []]
  {
    SplitTwo(w2, d2, w3, d3);
    SplitWordDelimiter(w1, d1, w2 + [d2] + (w3 + [d3]));
  }

  /** Filtering drops only the empty last fragment when the others are not blank. */
  lemma {:induction false} NonBlankDropsEmptyTail(parts: seq<String>)
    requires forall i :: 0 <= i < |parts| ==> !AllWhitespace(parts[i])
    ensures NonBlank(parts + [[]]) == parts
  {
    var empty: String := [];
    if parts == [] {
      assert AllWhitespace(empty);
      assert [empty][1..] == [];
    } else {
      assert (parts + [empty])[1..] == parts[1..] + [empty];
      NonBlankDropsEmptyTail(parts[1..]);
    }
  }

  lemma SentenceNotBlank(s: String)
    requires IsSentence(s)
    ensures !AllWhitespace(s) && !AllWhitespace([' '] + s)
  {
    assert !IsWhitespace(s[0]) && ([' '] + s)[1] == s[0];
  }

  /** Splitting three delimited sentences, each after the first led by a space, gives exactly those three fragments. */
  lemma FragmentsOfThree(s1: String, s2: String, s3: String, d1: char, d2: char, d3: char)
    requires IsSentence(s1) && IsSentence(s2) && IsSentence(s3)
    requires IsDelimiter(d1) && IsDelimiter(d2) && IsDelimiter(d3)
    ensures Fragments(s1 + [d1] + ([' '] + s2 + [d2] + ([' '] + s3 + [d3]))) == [s1, [' '] + s2, [' '] + s3]
  {
    var f2, f3 := [' '] + s2, [' '] + s3;
    assert NoDelimiter(f2) && NoDelimiter(f3);
    SplitThree(s1, d1, f2, d2, f3, d3);
    assert [s1, f2, f3, []] == [s1, f2, f3] + [[]];
    SentenceNotBlank(s1);
    SentenceNotBlank(s2);
    SentenceNotBlank(s3);
    NonBlankDropsEmptyTail([s1, f2, f3]);
  }

  /** Run over a list ending in `f` is one more `Step` after the run over the rest. */
  lemma RunSnoc(frags: seq<String>, f: String, maxChunkSize: int)
    ensures Run(frags + [f], maxChunkSize) == Step(Run(frags, maxChunkSize), f, maxChunkSize)
  {
    assert (frags + [f])[..|frags|] == frags;
  }

  /** The first sentence opens the buffer when it fits. */
  lemma StepOpens(s: String, maxChunkSize: int)
    requires IsSentence(s) && Utf16Length(s) <= maxChunkSize
    ensures Step(Buffer([], []), s, maxChunkSize) == Buffer([], s)
  {
    assert [] + [] + s == s;
  }

  /** A space-led first sentence that fits opens the buffer without its space. */
  lemma StepOpensSpaced(s: String, maxChunkSize: int)
    requires IsSentence(s) && Utf16Length(s) <= maxChunkSize
    ensures Step(Buffer([], []), [' '] + s, maxChunkSize) == Buffer([], s)
  {
    TrimLeadingSpace(s);
    assert [] + [] + s == s;
  }

  /** A space-led sentence that fits is appended after the separator. */
  lemma StepAppends(b: Buffer, s: String, maxChunkSize: int)
    requires IsSentence(s) && b.current != []
    requires Utf16Length(b.current) + Utf16Length(s) <= maxChunkSize
    ensures Step(b, [' '] + s, maxChunkSize) == Buffer(b.chunks, b.current + Separator + s)
  {
    TrimLeadingSpace(s);
  }

  lemma SnocTwo<T>(a: T, b: T)
    ensures [] + [a] + [b] == [a, b]
  {
  }

  lemma SnocThree<T>(a: T, b: T, c: T)
    ensures [] + [a] + [b] + [c] == [a, b, c]
  {
  }

  lemma RunOfThree(s1: String, s2: String, s3: String, maxChunkSize: int)
    requires IsSentence(s1) && IsSentence(s2) && IsSentence(s3)
    requires Utf16Length(s1) + Utf16Length(s2) <= maxChunkSize
    requires Utf16Length(s1) + 2 + Utf16Length(s2) + Utf16Length(s3) <= maxChunkSize
    ensures Run([s1, [' '] + s2, [' '] + s3], maxChunkSize) == Buffer([], s1 + Separator + s2 + Separator + s3)
  {
    var f2, f3 := [' '] + s2, [' '] + s3;
    var p0: seq<String> := [];
    var p1 := p0 + [s1];
    var p2 := p1 + [f2];
    var p3 := p2 + [f3];
    RunSnoc(p0, s1, maxChunkSize);
    StepOpens(s1, maxChunkSize);
    var c1 := s1;
    RunSnoc(p1, f2, maxChunkSize);
    StepAppends(Buffer([], c1), s2, maxChunkSize);
    var c2 := c1 + Separator + s2;
    assert Utf16Length(Separator) == 2;
    Utf16LengthAppend(c1, Separator);
    Utf16LengthAppend(c1 + Separator, s2);
    RunSnoc(p2, f3, maxChunkSize);
    StepAppends(Buffer([], c2), s3, maxChunkSize);
    assert Run(p3, maxChunkSize) == Buffer([], c2 + Separator + s3);
    SnocThree(s1, f2, f3);
  }

  /** A run that closed no chunk and holds a trimmed buffer produces exactly that buffer. */
  lemma ProducedSingle(frags: seq<String>, maxChunkSize: int)
    requires Run(frags, maxChunkSize).chunks == []
    requires Run(frags, maxChunkSize).current != [] && IsTrimmed(Run(frags, maxChunkSize).current)
    ensures Produced(frags, maxChunkSize) == [Run(frags, maxChunkSize).current]
  {
  }

  /** Three short sentences, each ended by a delimiter and the next started by a space, make one chunk. */
  lemma ThreeShortSentences(s1: String, s2: String, s3: String, d1: char, d2: char, d3: char, maxChunkSize: int)
    requires IsSentence(s1) && IsSentence(s2) && IsSentence(s3)
    requires IsDelimiter(d1) && IsDelimiter(d2) && IsDelimiter(d3)
    requires Utf16Length(s1) + Utf16Length(s2) <= maxChunkSize
    requires Utf16Length(s1) + 2 + Utf16Length(s2) + Utf16Length(s3) <= maxChunkSize
    ensures Chunks(s1 + [d1] + ([' '] + s2 + [d2] + ([' '] + s3 + [d3])), maxChunkSize) == [s1 + Separator + s2 + Separator + s3]
  {
    var frags := [s1, [' '] + s2, [' '] + s3];
    FragmentsOfThree(s1, s2, s3, d1, d2, d3);
    RunOfThree(s1, s2, s3, maxChunkSize);
    var c := s1 + Separator + s2 + Separator + s3;
    assert IsTrimmed(c) by {
      assert c[0] == s1[0];
      assert c[|c| - 1] == s3[|s3| - 1];
    }
    ProducedSingle(frags, maxChunkSize);
  }

  lemma FragmentsOfTwo(s1: String, s2: String, d1: char, d2: char)
    requires IsSentence(s1) && IsSentence(s2) && IsDelimiter(d1) && IsDelimiter(d2)
    ensures Fragments(s1 + [d1] + ([' '] + s2 + [d2])) == [s1, [' '] + s2]
  {
    var f2 := [' '] + s2;
    assert NoDelimiter(f2);
    SplitTwo(s1, d1, f2, d2);
    assert [s1, f2, []] == [s1, f2] + [[]];
    SentenceNotBlank(s1);
    SentenceNotBlank(s2);
    NonBlankDropsEmptyTail([s1, f2]);
  }

  /** A first sentence too long for the empty buffer leaves it empty. */
  lemma StepSkips(s: String, maxChunkSize: int)
    requires IsSentence(s) && Utf16Length(s) > maxChunkSize
    ensures Step(Buffer([], []), s, maxChunkSize) == Buffer([], [])
  {
  }

  lemma RunOfTwoDropped(s1: String, s2: String, maxChunkSize: int)
    requires IsSentence(s1) && IsSentence(s2)
    requires Utf16Length(s1) > maxChunkSize >= Utf16Length(s2)
    ensures Run([s1, [' '] + s2], maxChunkSize) == Buffer([], s2)
  {
    var f2 := [' '] + s2;
    var p0: seq<String> := [];
    var p1 := p0 + [s1];
    var p2 := p1 + [f2];
    RunSnoc(p0, s1, maxChunkSize);
    StepSkips(s1, maxChunkSize);
    RunSnoc(p1, f2, maxChunkSize);
    StepOpensSpaced(s2, maxChunkSize);
    assert Run(p2, maxChunkSize) == Buffer([], s2);
    SnocTwo(s1, f2);
  }

  /** A sentence longer than `maxChunkSize` that comes first is lost, because the buffer is still empty when it overflows. */
  lemma LongFirstSentenceDropped(s1: String, s2: String, d1: char, d2: char, maxChunkSize: int)
    requires IsSentence(s1) && IsSentence(s2) && IsDelimiter(d1) && IsDelimiter(d2)
    requires Utf16Length(s1) > maxChunkSize >= Utf16Length(s2)
    ensures Chunks(s1 + [d1] + ([' '] + s2 + [d2]), maxChunkSize) == [s2]
  {
    FragmentsOfTwo(s1, s2, d1, d2);
    RunOfTwoDropped(s1, s2, maxChunkSize);
    ProducedSingle([s1, [' '] + s2], maxChunkSize);
  }
}

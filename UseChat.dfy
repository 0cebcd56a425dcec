/**
 * The `useChat` composable (frontend/src/composables/useChat.ts): the message
 * list of the chat window and `sendMessage`, which posts the question and
 * reads the answer back as a stream of server-sent events, each a line
 * `data: <json>`.
 *
 * The network is the datatype `Reply` (what `fetch` and the reader gave,
 * each read already decoded to text), `JSON.parse` of an event is the
 * parameter `parse`, and `Date.now()` is read through the parameters
 * `userNow`, `botNow` and `errorNow`.
 */
module UseChat {
  import opened Wrappers
  import opened JsString

  const Greeting: String := "Hallo! Ik kan vragen beantwoorden over de Koningsspelen."
  const Apology: String := "Sorry, er ging iets mis met de verbinding. Probeer het opnieuw."
  const UserSender: String := "Jij"
  const BotSender: String := "Bot"
  const DataPrefix: String := "data: "

  datatype Source = Source(title: String, url: String)

  /** A chat message; `sources` and `isStreaming` are absent unless set. */
  datatype Message = Message(id: int, sender: String, text: String, sources: Option<seq<Source>>, isStreaming: Option<bool>)

  /** A parsed event, by its `type`; any other type is `Unknown`. */
  datatype Event = Chunk(content: String) | Sources(sources: seq<Source>) | End | Error(error: String) | Unknown

  /**
   * What the request gave: `fetch` threw, the status was not OK, there was no
   * body, or a body whose reads gave `received`, after which the reader either
   * reported done or (`broken`) threw.
   */
  datatype Reply = FetchFailed | NotOk | NoBody | Body(received: seq<String>, broken: bool)

  /** The streamed bot message's changing part. */
  datatype StreamState = StreamState(text: String, sources: Option<seq<Source>>, isStreaming: bool)

  const Initial: StreamState := StreamState([], None, true)

  function BotMessage(id: int, st: StreamState): Message {
    Message(id, BotSender, st.text, st.sources, Some(st.isStreaming))
  }

  /**
   * One line of the stream. Once streaming has stopped nothing more is read;
   * a line without the `data: ` prefix, or whose payload does not parse, has
   * no effect.
   */
  function Step(st: StreamState, line: String, parse: String -> Option<Event>): (next: StreamState)
    ensures !st.isStreaming ==> next == st
    ensures next.isStreaming ==> st.isStreaming
  {
    if !st.isStreaming || !StartsWith(line, DataPrefix) then st
    else
      match parse(line[|DataPrefix|..])
      case None => st
      case Some(Chunk(c)) => st.(text := st.text + c)
      case Some(Sources(s)) => st.(sources := Some(s))
      case Some(End) => st.(isStreaming := false)
      case Some(Error(e)) => st.(text := e, isStreaming := false)
      case Some(Unknown) => st
  }

  /** The lines in order. */
  function Consume(st: StreamState, lines: seq<String>, parse: String -> Option<Event>): (final: StreamState)
    ensures !st.isStreaming ==> final == st
    ensures final.isStreaming ==> st.isStreaming
  {
    if lines == [] then st
    else Step(Consume(st, lines[..|lines| - 1], parse), lines[|lines| - 1], parse)
  }

  /** The lines of the reads: each read is split on `\n` by itself, so a line cut across two reads stays cut. */
  function Lines(received: seq<String>): (lines: seq<String>)
    ensures |lines| >= |received|
  {
    if received == [] then []
    else Lines(received[..|received| - 1]) + SplitOn(received[|received| - 1], '\n')
  }

  /** The bot message's state after the whole stream. */
  function Outcome(received: seq<String>, parse: String -> Option<Event>): StreamState {
    Consume(Initial, Lines(received), parse)
  }

  /** The bot message's state after a reply of any kind. */
  function Final(reply: Reply, parse: String -> Option<Event>): StreamState {
    if reply.Body? then Outcome(reply.received, parse) else Initial
  }

  /** The apology is added for a failed request, and for a broken stream that had not stopped. */
  predicate Apologises(reply: Reply, parse: String -> Option<Event>) {
    !reply.Body? || (reply.broken && Outcome(reply.received, parse).isStreaming)
  }

  // ---------------------------------------------------------------- stream lemmas

  lemma {:induction false} LinesAppend(a: seq<String>, b: seq<String>)
    ensures Lines(a + b) == Lines(a) + Lines(b)
  {
    if b == [] {
      assert a + b == a;
    } else {
      var init := b[..|b| - 1];
      var last := SplitOn(b[|b| - 1], '\n');
      LinesAppend(a, init);
      assert Lines(a + b) == Lines(a + init) + last by {
        assert (a + b)[..|a + b| - 1] == a + init;
      }
      assert Lines(b) == Lines(init) + last;
    }
  }

  /** Reading lines in two parts is reading them all. */
  lemma {:induction false} ConsumeAppend(st: StreamState, xs: seq<String>, ys: seq<String>, parse: String -> Option<Event>)
    ensures Consume(st, xs + ys, parse) == Consume(Consume(st, xs, parse), ys, parse)
  {
    if ys == [] {
      assert xs + ys == xs;
    } else {
      var init := ys[..|ys| - 1];
      ConsumeAppend(st, xs, init, parse);
      assert (xs + ys)[..|xs + ys| - 1] == xs + init;
    }
  }

  /** After `end` or `error` every further line is ignored. */
  lemma {:induction false} StoppedStaysStopped(st: StreamState, lines: seq<String>, parse: String -> Option<Event>)
    requires !st.isStreaming
    ensures Consume(st, lines, parse) == st
  {
    if lines != [] {
      StoppedStaysStopped(st, lines[..|lines| - 1], parse);
    }
  }

  /** A line that ends the stream. */
  predicate Terminal(line: String, parse: String -> Option<Event>) {
    StartsWith(line, DataPrefix) && parse(line[|DataPrefix|..]).Some? &&
    (parse(line[|DataPrefix|..]).value.End? || parse(line[|DataPrefix|..]).value.Error?)
  }

  /** Streaming stops exactly when some line is an `end` or `error` event; until then the message stays streaming. */
  lemma {:induction false} StopsIffTerminal(st: StreamState, lines: seq<String>, parse: String -> Option<Event>)
    requires st.isStreaming
    ensures !Consume(st, lines, parse).isStreaming <==> exists k :: 0 <= k < |lines| && Terminal(lines[k], parse)
  {
    if lines != [] {
      var init := lines[..|lines| - 1];
      StopsIffTerminal(st, init, parse);
      if exists k :: 0 <= k < |init| && Terminal(init[k], parse) {
        var k :| 0 <= k < |init| && Terminal(init[k], parse);
        assert lines[k] == init[k];
      }
      if exists k :: 0 <= k < |lines| && Terminal(lines[k], parse) {
        var k :| 0 <= k < |lines| && Terminal(lines[k], parse);
        if k < |init| {
          assert init[k] == lines[k];
        }
      }
    }
  }

  /** The text of the `chunk` events among the lines, in order. */
  function ChunkContents(lines: seq<String>, parse: String -> Option<Event>): String {
    if lines == [] then []
    else
      var line := lines[|lines| - 1];
      ChunkContents(lines[..|lines| - 1], parse) +
        if StartsWith(line, DataPrefix) && parse(line[|DataPrefix|..]).Some? && parse(line[|DataPrefix|..]).value.Chunk?
        then parse(line[|DataPrefix|..]).value.content
        else []
  }

  /** Until the stream stops, the text is what it was followed by every chunk's content in arrival order. */
  lemma {:induction false} ChunksAccumulate(st: StreamState, lines: seq<String>, parse: String -> Option<Event>)
    requires st.isStreaming
    requires forall k :: 0 <= k < |lines| ==> !Terminal(lines[k], parse)
    ensures Consume(st, lines, parse).text == st.text + ChunkContents(lines, parse)
    ensures Consume(st, lines, parse).isStreaming
  {
    if lines != [] {
      var init := lines[..|lines| - 1];
      ChunksAccumulate(st, init, parse);
      assert !Terminal(lines[|lines| - 1], parse);
    }
  }

  /** Lines that are not `data: ` lines change nothing. */
  lemma {:induction false} OtherLinesIgnored(st: StreamState, lines: seq<String>, parse: String -> Option<Event>)
    requires forall k :: 0 <= k < |lines| ==> !StartsWith(lines[k], DataPrefix)
    ensures Consume(st, lines, parse) == st
  {
    if lines != [] {
      OtherLinesIgnored(st, lines[..|lines| - 1], parse);
    }
  }

  /** When the first `end`/`error` line is an error, its message replaces the whole text and streaming stops. */
  lemma ErrorReplacesText(st: StreamState, lines: seq<String>, k: nat, e: String, parse: String -> Option<Event>)
    requires st.isStreaming && k < |lines|
    requires StartsWith(lines[k], DataPrefix) && parse(lines[k][|DataPrefix|..]) == Some(Error(e))
    requires forall j :: 0 <= j < k ==> !Terminal(lines[j], parse)
    ensures Consume(st, lines, parse).text == e && !Consume(st, lines, parse).isStreaming
  {
    var before := lines[..k];
    assert lines == before + [lines[k]] + lines[k + 1..];
    ChunksAccumulate(st, before, parse);
    ConsumeAppend(st, before + [lines[k]], lines[k + 1..], parse);
    assert (before + [lines[k]])[..k] == before;
    StoppedStaysStopped(Consume(st, before + [lines[k]], parse), lines[k + 1..], parse);
  }

  /** The `sources` of the last `sources` event before the stream stops are the message's sources. */
  lemma SourcesSet(st: StreamState, lines: seq<String>, k: nat, s: seq<Source>, parse: String -> Option<Event>)
    requires st.isStreaming && k < |lines|
    requires StartsWith(lines[k], DataPrefix) && parse(lines[k][|DataPrefix|..]) == Some(Sources(s))
    requires forall j :: 0 <= j <= k ==> !Terminal(lines[j], parse)
    requires forall j :: k < j < |lines| ==> !IsSourcesEvent(lines[j], parse)
    ensures Consume(st, lines, parse).sources == Some(s)
  {
    var upTo := lines[..k + 1];
    assert lines == upTo + lines[k + 1..];
    assert upTo[..k] == lines[..k];
    ChunksAccumulate(st, lines[..k], parse);
    ConsumeAppend(st, upTo, lines[k + 1..], parse);
    SourcesKept(Consume(st, upTo, parse), lines[k + 1..], parse);
  }

  predicate IsSourcesEvent(line: String, parse: String -> Option<Event>) {
    StartsWith(line, DataPrefix) && parse(line[|DataPrefix|..]).Some? && parse(line[|DataPrefix|..]).value.Sources?
  }

  /** Lines without a `sources` event leave the sources alone. */
  lemma {:induction false} SourcesKept(st: StreamState, lines: seq<String>, parse: String -> Option<Event>)
    requires forall j :: 0 <= j < |lines| ==> !IsSourcesEvent(lines[j], parse)
    ensures Consume(st, lines, parse).sources == st.sources
  {
    if lines != [] {
      SourcesKept(st, lines[..|lines| - 1], parse);
    }
  }

  /** Stopping within read `i` fixes the outcome of the whole stream. */
  lemma StopsWithinRead(received: seq<String>, i: nat, parse: String -> Option<Event>)
    requires i < |received|
    requires !Consume(Initial, Lines(received[..i + 1]), parse).isStreaming
    ensures Outcome(received, parse) == Consume(Initial, Lines(received[..i + 1]), parse)
  {
    assert received == received[..i + 1] + received[i + 1..];
    LinesAppend(received[..i + 1], received[i + 1..]);
    ConsumeAppend(Initial, Lines(received[..i + 1]), Lines(received[i + 1..]), parse);
    StoppedStaysStopped(Consume(Initial, Lines(received[..i + 1]), parse), Lines(received[i + 1..]), parse);
  }

  /** Reading one more read consumes its lines. */
  lemma ReadStep(received: seq<String>, i: nat, st: StreamState, parse: String -> Option<Event>)
    requires i < |received| && st == Consume(Initial, Lines(received[..i]), parse)
    ensures Consume(Initial, Lines(received[..i + 1]), parse) == Consume(st, SplitOn(received[i], '\n'), parse)
  {
    assert received[..i + 1][..i] == received[..i];
    ConsumeAppend(Initial, Lines(received[..i]), SplitOn(received[i], '\n'), parse);
  }

  /** Stopping at line `j` fixes the outcome of all the lines. */
  lemma StopsWithinLines(st: StreamState, lines: seq<String>, j: nat, parse: String -> Option<Event>)
    requires j < |lines| && !Consume(st, lines[..j + 1], parse).isStreaming
    ensures Consume(st, lines, parse) == Consume(st, lines[..j + 1], parse)
  {
    assert lines == lines[..j + 1] + lines[j + 1..];
    ConsumeAppend(st, lines[..j + 1], lines[j + 1..], parse);
    StoppedStaysStopped(Consume(st, lines[..j + 1], parse), lines[j + 1..], parse);
  }

  // ---------------------------------------------------------------- the composable

  class Chat {
    var messages: seq<Message>
    var currentMessage: String
    var isLoading: bool

    /** The greeting, an empty input and nothing loading. */
    constructor()
      ensures messages == [Message(1, BotSender, Greeting, None, None)]
      ensures currentMessage == [] && !isLoading
    {
      messages := [Message(1, BotSender, Greeting, None, None)];
      currentMessage := [];
      isLoading := false;
    }

    /**
     * `sendMessage`. Does nothing while the input is blank or a message is
     * loading. Otherwise appends the user's message as typed, clears the
     * input, appends a streaming bot message and fills it from the reply; a
     * failed request, or a stream broken before it stopped, appends an
     * apology after it and leaves the bot message as it was.
     */
    method SendMessage(userNow: int, botNow: int, errorNow: int, reply: Reply, parse: String -> Option<Event>)
      modifies this
      ensures Trim(old(currentMessage)) == [] || old(isLoading) ==>
        messages == old(messages) && currentMessage == old(currentMessage) && isLoading == old(isLoading)
      ensures Trim(old(currentMessage)) != [] && !old(isLoading) ==>
        messages == old(messages) + [Message(userNow, UserSender, old(currentMessage), None, None), BotMessage(botNow + 1, Final(reply, parse))] +
          (if Apologises(reply, parse) then [Message(errorNow + 1, BotSender, Apology, None, None)] else [])
      ensures Trim(old(currentMessage)) != [] && !old(isLoading) ==> currentMessage == [] && !isLoading
    {
      if Trim(currentMessage) == [] || isLoading {
        return;
      }
      ghost var exchanged := messages + [Message(userNow, UserSender, currentMessage, None, None), BotMessage(botNow + 1, Final(reply, parse))];
      messages := messages + [Message(userNow, UserSender, currentMessage, None, None)];
      ghost var sent := messages;
      currentMessage := [];
      isLoading := true;
      messages := messages + [BotMessage(botNow + 1, Initial)];
      var botIndex := |messages| - 1;
      isLoading := false;
      var failed: bool;
      if reply.Body? {
        var stopped := ReadStream(botIndex, botNow + 1, reply.received, parse);
        assert messages == sent + [BotMessage(botNow + 1, Final(reply, parse))];
        failed := reply.broken && !stopped;
      } else {
        failed := true;
      }
      assert messages == exchanged;
      assert failed == Apologises(reply, parse);
      if failed {
        isLoading := false;
        messages := messages + [Message(errorNow + 1, BotSender, Apology, None, None)];
      }
    }

    /**
     * The read loop: every line of every read, in order, updates the bot
     * message at `botIndex`, until an `end` or `error` event returns early.
     */
    method ReadStream(botIndex: nat, id: int, received: seq<String>, parse: String -> Option<Event>) returns (stopped: bool)
      requires botIndex < |messages| && messages[botIndex] == BotMessage(id, Initial)
      modifies this
      ensures messages == old(messages)[botIndex := BotMessage(id, Outcome(received, parse))]
      ensures stopped == !Outcome(received, parse).isStreaming
      ensures currentMessage == old(currentMessage) && isLoading == old(isLoading)
    {
      var st := Initial;
      for i := 0 to |received|
        invariant st == Consume(Initial, Lines(received[..i]), parse) && st.isStreaming
        invariant messages == old(messages)[botIndex := BotMessage(id, st)]
        invariant currentMessage == old(currentMessage) && isLoading == old(isLoading)
      {
        ReadStep(received, i, st, parse);
        st, stopped := ReadLines(botIndex, id, st, SplitOn(received[i], '\n'), parse);
        if stopped {
          StopsWithinRead(received, i, parse);
          return;
        }
      }
      assert received[..|received|] == received;
      return false;
    }

    /**
     * The line loop of one read: each line updates the bot message at
     * `botIndex`; `stopped` when an `end` or `error` event ended the stream.
     */
    method ReadLines(botIndex: nat, id: int, st0: StreamState, lines: seq<String>, parse: String -> Option<Event>) returns (st: StreamState, stopped: bool)
      requires botIndex < |messages| && messages[botIndex] == BotMessage(id, st0) && st0.isStreaming
      modifies this
      ensures st == Consume(st0, lines, parse) && stopped == !st.isStreaming
      ensures messages == old(messages)[botIndex := BotMessage(id, st)]
      ensures currentMessage == old(currentMessage) && isLoading == old(isLoading)
    {
      st := st0;
      for j := 0 to |lines|
        invariant st == Consume(st0, lines[..j], parse) && st.isStreaming
        invariant messages == old(messages)[botIndex := BotMessage(id, st)]
        invariant currentMessage == old(currentMessage) && isLoading == old(isLoading)
      {
        assert lines[..j + 1][..j] == lines[..j];
        var line := lines[j];
        if StartsWith(line, DataPrefix) {
          var data := parse(line[|DataPrefix|..]);
          if data.Some? {
            match data.value {
              case Chunk(c) =>
                st := st.(text := st.text + c);
                messages := messages[botIndex := BotMessage(id, st)];
              case Sources(s) =>
                st := st.(sources := Some(s));
                messages := messages[botIndex := BotMessage(id, st)];
              case End =>
                st := st.(isStreaming := false);
                messages := messages[botIndex := BotMessage(id, st)];
                StopsWithinLines(st0, lines, j, parse);
                return st, true;
              case Error(e) =>
                st := st.(text := e, isStreaming := false);
                messages := messages[botIndex := BotMessage(id, st)];
                StopsWithinLines(st0, lines, j, parse);
                return st, true;
              case Unknown =>
            }
          }
        }
      }
      assert lines[..|lines|] == lines;
      stopped := false;
    }
  }
}

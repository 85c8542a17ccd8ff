/** One connection's session: the receive buffer, the line-extraction loop
    that answers each complete line, and the close on the first malformed
    line. */
module PrimeSession {
  import opened Wrappers
  import opened JsonValue
  import opened Protocol
  import opened Framing

  /** What draining a buffer yields: the replies in order, whether a
      malformed line closed the session, and what stays in the buffer. */
  datatype Outcome = Outcome(responses: seq<string>, closed: bool, rest: string)

  /** Whether a text is one of the three lines a session ever writes. */
  predicate IsReply(line: string) {
    line == Malformed || line == PrimeResponse(true) || line == PrimeResponse(false)
  }

  /** The line handler of a session whose JSON parser is `parse`. */
  function Handler(parse: string -> Option<Json>): string -> Reply
  {
    line => ProcessLine(parse(line))
  }

  /** A line handler that answers with the protocol's lines and refuses
      exactly with `malformed`. */
  ghost predicate Honest(answer: string -> Reply) {
    forall line :: IsReply(answer(line).response)
      && (answer(line).ok <==> answer(line).response != Malformed)
  }

  /** The session's handler is honest, whatever the parser returns. */
  lemma HandlerHonest(parse: string -> Option<Json>)
    ensures Honest(Handler(parse))
  {
    forall line
      ensures IsReply(Handler(parse)(line).response)
        && (Handler(parse)(line).ok <==> Handler(parse)(line).response != Malformed)
    {
      var r := ProcessLine(parse(line));
      assert r == Handler(parse)(line);
    }
  }

  /** The extraction loop applied to the buffer after a chunk was appended:
      cut the first line, answer it with `answer`, stop after a line it
      refuses, repeat while a delimiter is left. */
  function Drain(answer: string -> Reply, data: string): (o: Outcome)
    ensures !o.closed ==> '\n' !in o.rest
    ensures o.closed ==> |o.responses| > 0
    ensures |o.responses| + |o.rest| <= |data|
    decreases |data|
  {
    match FindNewline(data)
    case None => Outcome([], false, data)
    case Some(pos) =>
      var reply := answer(data[..pos]);
      if !reply.ok then Outcome([reply.response], true, data[pos + 1..])
      else
        var o := Drain(answer, data[pos + 1..]);
        Outcome([reply.response] + o.responses, o.closed, o.rest)
  }

  /** Draining a buffer with a complete line answers that line first. */
  lemma DrainFirstLine(answer: string -> Reply, data: string, pos: nat)
    requires FindNewline(data) == Some(pos)
    ensures var reply := answer(data[..pos]);
      var o := Drain(answer, data[pos + 1..]);
      Drain(answer, data) ==
        if !reply.ok then Outcome([reply.response], true, data[pos + 1..])
        else Outcome([reply.response] + o.responses, o.closed, o.rest)
  {
  }

  /** With an honest handler, every reply is one of the three protocol
      lines, and `malformed` is exactly the last reply of a drain that closed
      the session. */
  lemma {:induction false} DrainReplies(answer: string -> Reply, data: string)
    requires Honest(answer)
    ensures forall i :: 0 <= i < |Drain(answer, data).responses| ==>
      IsReply(Drain(answer, data).responses[i])
    ensures forall i :: 0 <= i < |Drain(answer, data).responses| ==>
      (Drain(answer, data).responses[i] == Malformed <==>
        Drain(answer, data).closed && i == |Drain(answer, data).responses| - 1)
    decreases |data|
  {
    if FindNewline(data).Some? {
      var pos := FindNewline(data).value;
      DrainFirstLine(answer, data, pos);
      DrainReplies(answer, data[pos + 1..]);
    }
  }

  /** Replies to a sequence of lines and whether one of them was malformed. */
  datatype Transcript = Transcript(responses: seq<string>, closed: bool)

  /** Reference answer to a sequence of complete lines: each line in order,
      none after the first malformed one. */
  function Answers(answer: string -> Reply, lines: seq<string>): Transcript
  {
    if lines == [] then Transcript([], false)
    else
      var t := Answers(answer, lines[..|lines| - 1]);
      if t.closed then t
      else
        var reply := answer(lines[|lines| - 1]);
        Transcript(t.responses + [reply.response], !reply.ok)
  }

  /** The reference answer line by line: reply i answers line i; the
      replies stop right after the first refused line, and cover every line
      when none is refused. */
  lemma {:induction false} AnswersPerLine(answer: string -> Reply, lines: seq<string>)
    ensures |Answers(answer, lines).responses| <= |lines|
    ensures forall i :: 0 <= i < |Answers(answer, lines).responses| ==>
      Answers(answer, lines).responses[i] == answer(lines[i]).response
    ensures forall i :: 0 <= i < |Answers(answer, lines).responses| ==>
      (answer(lines[i]).ok <==>
        !(Answers(answer, lines).closed && i == |Answers(answer, lines).responses| - 1))
    ensures !Answers(answer, lines).closed ==> |Answers(answer, lines).responses| == |lines|
    ensures Answers(answer, lines).closed ==> |Answers(answer, lines).responses| > 0
    decreases |lines|
  {
    if lines != [] {
      var init := lines[..|lines| - 1];
      AnswersPerLine(answer, init);
      var t := Answers(answer, init);
      forall i | 0 <= i < |t.responses|
        ensures lines[i] == init[i]
      {
      }
    }
  }

  /** Draining a + b is draining a and then, unless a closed the session,
      draining what a left followed by b. */
  ghost predicate AppendLaw(answer: string -> Reply, a: string, b: string) {
    var oa := Drain(answer, a);
    Drain(answer, a + b) ==
      if oa.closed then Outcome(oa.responses, true, oa.rest + b)
      else
        var ob := Drain(answer, oa.rest + b);
        Outcome(oa.responses + ob.responses, ob.closed, ob.rest)
  }

  /** The law for a text with a complete line, given the law for what
      follows that line. */
  lemma AppendLawCut(answer: string -> Reply, a: string, b: string, pos: nat)
    requires FindNewline(a) == Some(pos)
    requires answer(a[..pos]).ok ==> AppendLaw(answer, a[pos + 1..], b)
    ensures AppendLaw(answer, a, b)
  {
    FindNewlineAppend(a, b);
    assert (a + b)[..pos] == a[..pos];
    assert (a + b)[pos + 1..] == a[pos + 1..] + b;
    DrainFirstLine(answer, a, pos);
    DrainFirstLine(answer, a + b, pos);
    var reply := answer(a[..pos]);
    if reply.ok {
      var o := Drain(answer, a[pos + 1..]);
      if !o.closed {
        ConcatAssoc([reply.response], o.responses, Drain(answer, o.rest + b).responses);
      }
    }
  }

  /** The law above, for every text and every continuation. */
  lemma {:induction false} DrainAppend(answer: string -> Reply, a: string, b: string)
    ensures var oa := Drain(answer, a);
      Drain(answer, a + b) ==
        if oa.closed then Outcome(oa.responses, true, oa.rest + b)
        else
          var ob := Drain(answer, oa.rest + b);
          Outcome(oa.responses + ob.responses, ob.closed, ob.rest)
    decreases |a|
  {
    if '\n' in a {
      var pos := FindNewline(a).value;
      if answer(a[..pos]).ok {
        DrainAppend(answer, a[pos + 1..], b);
      }
      AppendLawCut(answer, a, b, pos);
    } else {
      assert Drain(answer, a) == Outcome([], false, a);
      assert [] + Drain(answer, a + b).responses == Drain(answer, a + b).responses;
    }
  }

  /** The extraction loop answers exactly the lines the character-at-a-time
      framer finds, in stream order, stops after the first malformed one, and
      otherwise keeps the unterminated rest. */
  ghost predicate MatchesFrame(answer: string -> Reply, data: string) {
    var o := Drain(answer, data);
    var t := Answers(answer, Frame(data).lines);
    o.responses == t.responses && o.closed == t.closed
    && (!o.closed ==> o.rest == Frame(data).partial)
  }

  /** A lone line and its delimiter are answered on their own. */
  lemma DrainOneLine(answer: string -> Reply, line: string)
    requires '\n' !in line
    ensures Drain(answer, line + "\n")
      == Outcome([answer(line).response], !answer(line).ok, [])
  {
    assert (line + "\n")[|line|] == '\n';
    assert (line + "\n")[..|line|] == line;
    assert FindNewline(line + "\n") == Some(|line|);
    assert (line + "\n")[|line| + 1..] == [];
    DrainFirstLine(answer, line + "\n", |line|);
  }

  /** A delimiter read by an open session completes the partial line,
      which is answered next. */
  lemma MatchesFrameNewline(answer: string -> Reply, s: string)
    requires MatchesFrame(answer, s) && !Drain(answer, s).closed
    ensures MatchesFrame(answer, s + "\n")
  {
    var os, f := Drain(answer, s), Frame(s);
    assert (s + "\n")[..|s|] == s;
    assert Frame(s + "\n") == Split(f.lines + [f.partial], []);
    DrainAppend(answer, s, "\n");
    DrainOneLine(answer, f.partial);
    assert (f.lines + [f.partial])[..|f.lines|] == f.lines;
    var reply := answer(f.partial);
    assert Answers(answer, f.lines + [f.partial])
      == Transcript(os.responses + [reply.response], !reply.ok);
  }

  /** Any other character read by an open session extends the partial line. */
  lemma MatchesFrameOther(answer: string -> Reply, s: string, c: char)
    requires MatchesFrame(answer, s) && !Drain(answer, s).closed && c != '\n'
    ensures MatchesFrame(answer, s + [c])
  {
    assert (s + [c])[..|s|] == s;
    DrainAppend(answer, s, [c]);
    assert '\n' !in Frame(s).partial + [c];
  }

  /** A closed session answers nothing more, whatever is read. */
  lemma MatchesFrameClosed(answer: string -> Reply, s: string, c: char)
    requires MatchesFrame(answer, s) && Drain(answer, s).closed
    ensures MatchesFrame(answer, s + [c])
  {
    assert (s + [c])[..|s|] == s;
    DrainAppend(answer, s, [c]);
    var f := Frame(s);
    if c == '\n' {
      assert (f.lines + [f.partial])[..|f.lines|] == f.lines;
    }
  }

  /** The law above, for every stream. */
  lemma {:induction false} DrainMatchesFrame(answer: string -> Reply, data: string)
    ensures MatchesFrame(answer, data)
    decreases |data|
  {
    if data != [] {
      var s, c := data[..|data| - 1], data[|data| - 1];
      DrainMatchesFrame(answer, s);
      assert data == s + [c];
      if Drain(answer, s).closed {
        MatchesFrameClosed(answer, s, c);
      } else if c == '\n' {
        MatchesFrameNewline(answer, s);
      } else {
        MatchesFrameOther(answer, s, c);
      }
    }
  }

  /** The abstract state of a session: the fields of the class below. */
  datatype State = State(buffer: string, closed: bool, responses: seq<string>)

  const Initial: State := State([], false, [])

  /** An open session has no complete line left unanswered. */
  predicate Settled(s: State) {
    !s.closed ==> '\n' !in s.buffer
  }

  /** What holds between reads: an open session has no complete line left
      unanswered, and a malformed reply can only be the last one, written by
      a closed session. */
  predicate Wf(s: State) {
    Settled(s)
    && forall i :: 0 <= i < |s.responses| ==>
      (s.responses[i] == Malformed ==> s.closed && i == |s.responses| - 1)
  }

  /** One successful read of `chunk` (the body of the read handler). A
      closed session reads nothing more. */
  function Step(answer: string -> Reply, s: State, chunk: string): (t: State)
    ensures s.responses <= t.responses
    ensures s.closed ==> t == s
    ensures Settled(t)
  {
    if s.closed then s else Finish(answer, s.responses, s.buffer + chunk)
  }

  /** The state a read ends in once `responses` are written and `data` is
      still to be drained. */
  function Finish(answer: string -> Reply, responses: seq<string>, data: string): State
  {
    var o := Drain(answer, data);
    State(o.rest, o.closed, responses + o.responses)
  }

  /** One iteration of the extraction loop: the first line is answered; the
      session goes on with the remainder unless the line was malformed. */
  lemma FinishCut(answer: string -> Reply, responses: seq<string>, data: string, pos: nat)
    requires FindNewline(data) == Some(pos)
    ensures var reply := answer(data[..pos]);
      Finish(answer, responses, data) ==
        if reply.ok then Finish(answer, responses + [reply.response], data[pos + 1..])
        else State(data[pos + 1..], true, responses + [reply.response])
  {
    DrainFirstLine(answer, data, pos);
    var reply := answer(data[..pos]);
    if reply.ok {
      ConcatAssoc(responses, [reply.response], Drain(answer, data[pos + 1..]).responses);
    }
  }

  /** Reads keep the invariant. */
  lemma StepPreservesWf(answer: string -> Reply, s: State, chunk: string)
    requires Honest(answer) && Wf(s)
    ensures Wf(Step(answer, s, chunk))
  {
    if !s.closed {
      var o := Drain(answer, s.buffer + chunk);
      DrainReplies(answer, s.buffer + chunk);
      var t := Step(answer, s, chunk);
      assert t == State(o.rest, o.closed, s.responses + o.responses);
      forall i | 0 <= i < |t.responses| && t.responses[i] == Malformed
        ensures t.closed && i == |t.responses| - 1
      {
        if i >= |s.responses| {
          var j := i - |s.responses|;
          assert o.responses[j] == t.responses[i];
          assert o.closed && j == |o.responses| - 1;
        }
      }
    }
  }

  /** A read that ends with an unterminated line writes nothing and keeps
      the whole line for the next read. */
  lemma ResidueUnanswered(answer: string -> Reply, s: State, chunk: string)
    requires Settled(s) && !s.closed
    requires '\n' !in chunk
    ensures Step(answer, s, chunk) == State(s.buffer + chunk, false, s.responses)
  {
    assert '\n' !in s.buffer + chunk;
  }

  /** A closed session ignores every later read. */
  lemma {:induction false} ClosedIgnoresInput(answer: string -> Reply, s: State, chunks: seq<string>)
    requires s.closed
    ensures Replay(answer, s, chunks) == s
    decreases |chunks|
  {
    if chunks != [] {
      ClosedIgnoresInput(answer, Step(answer, s, chunks[0]), chunks[1..]);
    }
  }

  /** All chunks of a stream, in order. */
  function Concat(chunks: seq<string>): string
  {
    if chunks == [] then [] else chunks[0] + Concat(chunks[1..])
  }

  /** The session after reading the chunks one after another. */
  function Replay(answer: string -> Reply, s: State, chunks: seq<string>): State
    decreases |chunks|
  {
    if chunks == [] then s else Replay(answer, Step(answer, s, chunks[0]), chunks[1..])
  }

  /** The same replies and state as far as anyone can observe: the buffer of
      a closed session is never read again. */
  predicate SameObservable(s: State, t: State) {
    s.responses == t.responses && s.closed == t.closed
    && (!s.closed ==> s.buffer == t.buffer)
  }

  lemma ConcatAssoc(x: seq<string>, y: seq<string>, z: seq<string>)
    ensures x + y + z == x + (y + z)
  {
  }

  /** Two reads behave as one read of both chunks. */
  lemma StepTwice(answer: string -> Reply, s: State, a: string, b: string)
    ensures SameObservable(Step(answer, Step(answer, s, a), b), Step(answer, s, a + b))
  {
    if !s.closed {
      var oa := Drain(answer, s.buffer + a);
      DrainAppend(answer, s.buffer + a, b);
      assert s.buffer + (a + b) == (s.buffer + a) + b;
      if !oa.closed {
        var ob := Drain(answer, oa.rest + b);
        ConcatAssoc(s.responses, oa.responses, ob.responses);
      }
    }
  }

  /** However the stream is cut into reads, the session writes the same
      replies and ends in the same observable state as when it is read at
      once. */
  lemma {:induction false} ChunkingInvariant(answer: string -> Reply, s: State, chunks: seq<string>)
    requires Settled(s)
    ensures SameObservable(Replay(answer, s, chunks), Step(answer, s, Concat(chunks)))
    decreases |chunks|
  {
    if chunks == [] {
      if !s.closed {
        assert s.buffer + [] == s.buffer;
      }
    } else {
      var s1 := Step(answer, s, chunks[0]);
      ChunkingInvariant(answer, s1, chunks[1..]);
      StepTwice(answer, s, chunks[0], Concat(chunks[1..]));
    }
  }

  /** From a fresh session, any chunking of a stream yields the replies to
      its complete lines in order, up to and including the first malformed
      one, and closes exactly when some line was malformed; a session left
      open holds the stream's unterminated last line. */
  lemma StreamReplies(answer: string -> Reply, chunks: seq<string>)
    ensures var t := Answers(answer, Frame(Concat(chunks)).lines);
      Replay(answer, Initial, chunks).responses == t.responses
      && Replay(answer, Initial, chunks).closed == t.closed
    ensures !Replay(answer, Initial, chunks).closed ==>
      Replay(answer, Initial, chunks).buffer == Frame(Concat(chunks)).partial
  {
    ChunkingInvariant(answer, Initial, chunks);
    DrainMatchesFrame(answer, Concat(chunks));
    assert [] + Concat(chunks) == Concat(chunks);
  }

  /** `Session`: the state one connection owns. `parse` stands for the JSON
      parser, `responses` for the writes queued on the socket, and `closed`
      for the socket having been closed, after which no read is issued. */
  class Session {
    const parse: string -> Option<Json>
    var buffer: string
    var closed: bool
    var responses: seq<string>

    function Current(): State
      reads this
    {
      State(buffer, closed, responses)
    }

    constructor (parse: string -> Option<Json>)
      ensures this.parse == parse && Current() == Initial
    {
      this.parse := parse;
      buffer := [];
      closed := false;
      responses := [];
    }

    /** The read handler after a read of `chunk` succeeded: append, then
        cut and answer complete lines until none is left or one was
        malformed. */
    method Feed(chunk: string)
      modifies this
      ensures Current() == Step(Handler(parse), old(Current()), chunk)
      ensures old(Wf(Current())) ==> Wf(Current())
    {
      HandlerHonest(parse);
      if Wf(Current()) {
        StepPreservesWf(Handler(parse), Current(), chunk);
      }
      if closed {
        return;
      }
      ghost var target := Step(Handler(parse), Current(), chunk);
      buffer := buffer + chunk;
      var pos := FindNewline(buffer);
      while pos.Some?
        invariant !closed && pos == FindNewline(buffer)
        invariant Finish(Handler(parse), responses, buffer) == target
        decreases |buffer|
      {
        ghost var prev := buffer;
        var line := buffer[..pos.value];
        buffer := buffer[pos.value + 1..];
        CutAtFirstNewline(prev);
        assert prev == line + "\n" + buffer && '\n' !in line;
        var reply := ProcessLine(parse(line));
        assert reply == Handler(parse)(line);
        FinishCut(Handler(parse), responses, prev, pos.value);
        responses := responses + [reply.response];
        if !reply.ok {
          closed := true;
          return;
        }
        pos := FindNewline(buffer);
      }
    }

    /** The read handler after a failed read or the end of the stream: the
        session ends without a reply, and an unterminated line in the buffer
        is never answered. */
    method EndOfStream()
      modifies this
      ensures Current() == State(old(buffer), true, old(responses))
    {
      closed := true;
    }
  }
}

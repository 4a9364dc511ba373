/**
 * Clients of the local socket (src/ipc/ipc_server.c): lines in, replies and broadcast events out, each
 * through a buffer. JSON is out of sight: a request line and a reply are opaque byte sequences.
 */
module IpcServer {
  import opened Common
  import opened Lines

  const MAX_MESSAGE := 4096
  const READ_SIZE := 1024
  const MAX_PENDING_OUTPUT := 262144

  /** One line of output: the answer to a request line, or an event. */
  datatype Entry =
    | Reply(request: seq<Byte>, subscribe: bool, text: seq<Byte>)
    | Broadcast(text: seq<Byte>)

  function Texts(log: seq<Entry>): (t: seq<seq<Byte>>)
    ensures |t| == |log|
  {
    seq(|log|, i requires 0 <= i < |log| => log[i].text)
  }

  /** The requests answered, in the order of their answers. */
  function Answered(log: seq<Entry>): seq<seq<Byte>>
    decreases |log|
  {
    if log == [] then []
    else
      var last := log[|log| - 1];
      Answered(log[..|log| - 1]) + if last.Reply? then [last.request] else []
  }

  /** A request line without the '\r' some clients put before '\n'. */
  function Message(line: seq<Byte>): (m: seq<Byte>)
    ensures line == m || line == m + [RETURN]
    ensures line == m <==> line == [] || line[|line| - 1] != RETURN
  {
    if |line| > 0 && line[|line| - 1] == RETURN then line[..|line| - 1] else line
  }

  function Messages(lines: seq<seq<Byte>>): seq<seq<Byte>> {
    seq(|lines|, i requires 0 <= i < |lines| => Message(lines[i]))
  }

  predicate Acknowledged(log: seq<Entry>) {
    exists j :: 0 <= j < |log| && log[j].Reply? && log[j].subscribe
  }

  /** Every event comes after the answer to a subscribe request. */
  predicate EventsAfterSubscription(log: seq<Entry>) {
    forall i :: 0 <= i < |log| && log[i].Broadcast? ==> Acknowledged(log[..i])
  }

  lemma LogGrows(log: seq<Entry>, e: Entry)
    ensures Joined(Texts(log + [e])) == Joined(Texts(log)) + (e.text + [NL])
    ensures Answered(log + [e]) == Answered(log) + if e.Reply? then [e.request] else []
    ensures Acknowledged(log + [e]) <==> Acknowledged(log) || (e.Reply? && e.subscribe)
    ensures EventsAfterSubscription(log) && (e.Broadcast? ==> Acknowledged(log)) ==> EventsAfterSubscription(log + [e])
  {
    assert (log + [e])[..|log|] == log;
    assert Texts(log + [e])[..|log|] == Texts(log);
    if Acknowledged(log) {
      var j :| 0 <= j < |log| && log[j].Reply? && log[j].subscribe;
      assert (log + [e])[j] == log[j];
    }
    if e.Reply? && e.subscribe {
      assert (log + [e])[|log|] == e;
    }
    if EventsAfterSubscription(log) && (e.Broadcast? ==> Acknowledged(log)) {
      forall i | 0 <= i <= |log| && (log + [e])[i].Broadcast?
        ensures Acknowledged((log + [e])[..i])
      {
        assert (log + [e])[..i] == log[..i];
      }
    }
  }

  /**
   * What is gone and what waits are the lines appended so far, whole and in order; the bytes still in the
   * buffer although gone are the last of those gone.
   */
  ghost predicate OutputHistory(sent: seq<Byte>, output: seq<Byte>, offset: nat, log: seq<Entry>)
    requires offset <= |output|
  {
    && sent + output[offset..] == Joined(Texts(log))
    && |sent| >= offset && sent[|sent| - offset..] == output[..offset]
    && EventsAfterSubscription(log)
  }

  /** A line joins what waits to be sent. */
  lemma Appended(sent: seq<Byte>, output: seq<Byte>, offset: nat, log: seq<Entry>, e: Entry)
    requires offset <= |output| && OutputHistory(sent, output, offset, log)
    requires e.Broadcast? ==> Acknowledged(log)
    ensures OutputHistory(sent, output + e.text + [NL], offset, log + [e])
  {
    hide Joined, Texts, EventsAfterSubscription, Acknowledged;
    LogGrows(log, e);
    var longer := output + e.text + [NL];
    assert longer[offset..] == output[offset..] + (e.text + [NL]) && longer[..offset] == output[..offset];
  }

  /**
   * The lines processed and those in the buffer are the lines received, none of them too long; the replies
   * are one per line processed, in the same order.
   */
  ghost predicate InputHistory(received: seq<Byte>, input: seq<Byte>, processed: seq<seq<Byte>>, log: seq<Entry>) {
    && SplitLines(received).lines == processed + SplitLines(input).lines
    && SplitLines(received).tail == SplitLines(input).tail
    && (forall i :: 0 <= i < |SplitLines(received).lines| ==> |SplitLines(received).lines[i]| < MAX_MESSAGE)
    && Answered(log) == Messages(processed)
  }

  lemma NothingYet()
    ensures OutputHistory([], [], 0, []) && InputHistory([], [], [], [])
    ensures !Acknowledged([])
  {
  }

  /** Taking the first line off a buffer. */
  lemma LineTaken(s: seq<Byte>, n: nat)
    requires n < |s| && s[n] == NL && NoNewline(s[..n])
    ensures SplitLines(s) == Split([s[..n]] + SplitLines(s[n + 1..]).lines, SplitLines(s[n + 1..]).tail)
  {
    hide SplitLines;
    FirstLine(s[..n], s[n + 1..]);
    assert s[..n] + [NL] + s[n + 1..] == s;
  }

  /** Answering the first line of the buffer moves it from the buffer to the lines processed. */
  lemma LineAnswered(received: seq<Byte>, input: seq<Byte>, n: nat, processed: seq<seq<Byte>>, log: seq<Entry>, e: Entry)
    requires InputHistory(received, input, processed, log)
    requires n < |input| && input[n] == NL && NoNewline(input[..n])
    requires e.Reply? && e.request == Message(input[..n])
    ensures InputHistory(received, input[n + 1..], processed + [input[..n]], log + [e])
    ensures Acknowledged(log + [e]) <==> Acknowledged(log) || e.subscribe
  {
    hide SplitLines, Answered, Acknowledged, Joined, Texts, EventsAfterSubscription, Message;
    LineTaken(input, n);
    LogGrows(log, e);
    assert Messages(processed + [input[..n]]) == Messages(processed) + [Message(input[..n])];
  }

  /** Sending a piece of what waits moves it to what is gone. */
  lemma PieceSent(sent: seq<Byte>, output: seq<Byte>, offset: nat, count: nat, log: seq<Entry>)
    requires offset + count <= |output| && OutputHistory(sent, output, offset, log)
    ensures OutputHistory(sent + output[offset..offset + count], output, offset + count, log)
  {
    hide Joined, Texts, EventsAfterSubscription;
    var piece := output[offset..offset + count];
    assert output[offset..] == piece + output[offset + count..];
    assert sent + output[offset..] == (sent + piece) + output[offset + count..];
    assert output[..offset + count] == output[..offset] + piece;
    assert (sent + piece)[|sent + piece| - (offset + count)..] == sent[|sent| - offset..] + piece;
  }

  /** Once nothing waits, what is gone is all the lines, and the buffer may be forgotten. */
  lemma Drained(sent: seq<Byte>, output: seq<Byte>, log: seq<Entry>)
    requires OutputHistory(sent, output, |output|, log)
    ensures sent == Joined(Texts(log)) && OutputHistory(sent, [], 0, log)
  {
    hide Joined, Texts, EventsAfterSubscription;
    assert sent + output[|output|..] == sent;
    assert sent[|sent|..] == [];
  }

  /** Bytes that fit in the buffer join the unfinished line there; no line gets too long. */
  lemma BytesArrive(received: seq<Byte>, input: seq<Byte>, bytes: seq<Byte>, processed: seq<seq<Byte>>, log: seq<Entry>)
    requires InputHistory(received, input, processed, log)
    requires |input| + |bytes| <= MAX_MESSAGE
    ensures InputHistory(received + bytes, input + bytes, processed, log)
  {
    hide SplitLines, Answered, Messages;
    var tail := SplitLines(input).tail;
    SplitAppends(received, bytes);
    SplitAppends(input, bytes);
    LinesFit(input);
    LinesFit(tail + bytes);
    var before, added := SplitLines(received).lines, SplitLines(tail + bytes).lines;
    forall i | 0 <= i < |before + added|
      ensures |(before + added)[i]| < MAX_MESSAGE
    {
      assert i >= |before| ==> (before + added)[i] == added[i - |before|];
    }
  }

  /** With no '\n' in the buffer, the buffer is full exactly when a line too long has been received. */
  lemma FullBuffer(received: seq<Byte>, input: seq<Byte>, processed: seq<seq<Byte>>, log: seq<Entry>)
    requires InputHistory(received, input, processed, log) && NoNewline(input)
    ensures HasLongLine(received, MAX_MESSAGE) <==> |input| >= MAX_MESSAGE
  {
    UnfinishedLine(input);
  }

  /** What answering a request line came to; no response if none could be built. */
  datatype Handling = Handling(subscribe: bool, response: Option<seq<Byte>>)

  datatype RecvResult = Received(bytes: seq<Byte>) | Closed | RecvRetry | RecvFailure

  datatype SendResult = Accepted(count: nat) | SendInterrupted | SendBlocked | SendFailure

  /** How many of the bytes that wait the socket takes, given what each call of send() returns. */
  function Taken(results: seq<SendResult>, waiting: nat): (n: nat)
    ensures n <= waiting
    decreases |results|
  {
    if results == [] || waiting == 0 then 0
    else match results[0]
      case Accepted(k) =>
        var count := if k < waiting then k else waiting;
        if count == 0 then 0 else count + Taken(results[1..], waiting - count)
      case SendInterrupted => Taken(results[1..], waiting)
      case SendBlocked => 0
      case SendFailure => 0
  }

  /** Whether sending fails before the socket is full or all is sent. */
  function Broken(results: seq<SendResult>, waiting: nat): bool
    decreases |results|
  {
    results != [] && waiting > 0 &&
    match results[0]
    case Accepted(k) => k == 0 || (k < waiting && Broken(results[1..], waiting - k))
    case SendInterrupted => Broken(results[1..], waiting)
    case SendBlocked => false
    case SendFailure => true
  }

  lemma BrokenStep(results: seq<SendResult>, i: nat, waiting: nat)
    requires i <= |results|
    ensures i == |results| || waiting == 0 ==> !Broken(results[i..], waiting)
    ensures i < |results| && waiting > 0 ==>
              Broken(results[i..], waiting) ==
              match results[i]
              case Accepted(k) => k == 0 || Broken(results[i + 1..], waiting - if k < waiting then k else waiting)
              case SendInterrupted => Broken(results[i + 1..], waiting)
              case SendBlocked => false
              case SendFailure => true
  {
    if i < |results| {
      assert results[i..][0] == results[i] && results[i..][1..] == results[i + 1..];
    }
  }

  /** How many of `n` bytes one read takes, with `length` in the buffer: at most 1024, and what fits. */
  function ReadCount(n: nat, length: nat): nat
    requires length <= MAX_MESSAGE
  {
    var room := if MAX_MESSAGE - length < READ_SIZE then MAX_MESSAGE - length else READ_SIZE;
    if n < room then n else room
  }

  lemma TakenStep(results: seq<SendResult>, i: nat, waiting: nat)
    requires i <= |results|
    ensures i == |results| || waiting == 0 ==> Taken(results[i..], waiting) == 0
    ensures i < |results| && waiting > 0 ==>
              Taken(results[i..], waiting) ==
              match results[i]
              case Accepted(k) =>
                if k == 0 then 0
                else if k < waiting then k + Taken(results[i + 1..], waiting - k)
                else waiting + Taken(results[i + 1..], 0)
              case SendInterrupted => Taken(results[i + 1..], waiting)
              case _ => 0
  {
    if i < |results| {
      assert results[i..][0] == results[i] && results[i..][1..] == results[i + 1..];
    }
  }

  /** After `i` calls of send() and `gone` bytes, what is left is up to the other calls. */
  predicate ToSend(results: seq<SendResult>, i: nat, waiting: nat, gone: nat) {
    && i <= |results| && gone <= waiting
    && Taken(results, waiting) == gone + Taken(results[i..], waiting - gone)
    && Broken(results, waiting) == Broken(results[i..], waiting - gone)
  }

  lemma AllToSend(results: seq<SendResult>, waiting: nat)
    ensures ToSend(results, 0, waiting, 0)
  {
    assert results[0..] == results;
  }

  lemma SendStep(results: seq<SendResult>, i: nat, waiting: nat, gone: nat)
    requires ToSend(results, i, waiting, gone)
    ensures i == |results| || gone == waiting ==> Taken(results, waiting) == gone && !Broken(results, waiting)
    ensures i < |results| && gone < waiting ==>
              match results[i]
              case Accepted(k) =>
                if k == 0 then Taken(results, waiting) == gone && Broken(results, waiting)
                else ToSend(results, i + 1, waiting, if k < waiting - gone then gone + k else waiting)
              case SendInterrupted => ToSend(results, i + 1, waiting, gone)
              case SendBlocked => Taken(results, waiting) == gone && !Broken(results, waiting)
              case SendFailure => Taken(results, waiting) == gone && Broken(results, waiting)
  {
    TakenStep(results, i, waiting - gone);
    BrokenStep(results, i, waiting - gone);
  }

  lemma JoinPieces(s: seq<Byte>, a: nat, b: nat, c: nat)
    requires a <= b <= c <= |s|
    ensures s[a..c] == s[a..b] + s[b..c]
  {
  }

  /** What poll() reports for the client, and what the calls it leads to return. */
  datatype TurnInput = TurnInput(
    handling: Handling,
    ready: bool,
    error: bool,
    hangup: bool,
    readable: bool,
    writable: bool,
    recv: RecvResult,
    sends: seq<SendResult>)

  class IpcClient {
    var open: bool
    var subscribed: bool
    const input: array<Byte>
    var inputLength: nat
    var output: seq<Byte>       // reallocated to the size needed
    var offset: nat             // what is already gone

    // History of the connection.
    ghost var received: seq<Byte>
    ghost var processed: seq<seq<Byte>>
    ghost var log: seq<Entry>
    ghost var sent: seq<Byte>

    ghost predicate Bounded()
      reads this
    {
      && input.Length == MAX_MESSAGE + 1 && inputLength <= MAX_MESSAGE
      && offset <= |output| <= MAX_PENDING_OUTPUT
      && (|output| == 0 ==> offset == 0)
    }

    function Input(): (s: seq<Byte>)
      requires Bounded()
      reads this, input
      ensures |s| == inputLength
    {
      input[..inputLength]
    }

    ghost predicate OutputOk()
      requires Bounded()
      reads this
    {
      OutputHistory(sent, output, offset, log)
    }

    ghost predicate InputOk()
      requires Bounded()
      reads this, input
    {
      InputHistory(received, Input(), processed, log) && (subscribed <==> Acknowledged(log))
    }

    /** A free slot keeps nothing of the connection it served before. */
    ghost predicate Blank()
      reads this
    {
      !subscribed && inputLength == 0 && |output| == 0 && received == [] && processed == [] && log == [] && sent == []
    }

    ghost predicate Valid()
      reads this, input
    {
      Bounded() && OutputOk() && InputOk() && (!open ==> Blank())
    }

    constructor ()
      ensures Valid() && !open && fresh(input)
    {
      open, subscribed := false, false;
      input := new Byte[MAX_MESSAGE + 1];
      inputLength, output, offset := 0, [], 0;
      received, processed, log, sent := [], [], [], [];
      new;
      hide OutputHistory, InputHistory, Acknowledged;
      NothingYet();
      assert Input() == [];
    }

    /** client_reset: the slot is free, for another connection. */
    method Reset()
      requires Bounded()
      modifies this
      ensures Valid() && !open
    {
      open, subscribed := false, false;
      inputLength, output, offset := 0, [], 0;
      received, processed, log, sent := [], [], [], [];
      hide OutputHistory, InputHistory, Acknowledged;
      NothingYet();
      assert Input() == [];
    }

    /** accept() gave this slot a connection. */
    method Accept()
      requires Valid() && !open
      modifies this`open
      ensures Valid() && open && log == [] && received == [] && sent == [] && !subscribed
    {
      open := true;
    }

    /** client_append: a whole line or nothing. The limit also counts bytes already gone since the last full drain. */
    method Append(text: seq<Byte>, ghost entry: Entry) returns (result: int)
      requires Bounded() && OutputOk()
      requires entry.text == text && (entry.Broadcast? ==> Acknowledged(log))
      modifies this`output, this`log
      ensures Bounded()
      ensures result == if |old(output)| + |text| + 1 <= MAX_PENDING_OUTPUT then 0 else -1
      ensures result == 0 ==> output == old(output) + text + [NL] && log == old(log) + [entry] && OutputOk()
      ensures result == -1 ==> output == old(output) && log == old(log)
    {
      hide Joined, Texts, EventsAfterSubscription, Acknowledged, OutputHistory;
      var total := |output| + |text| + 1;
      if total > MAX_PENDING_OUTPUT {
        return -1;
      }
      output := output + text + [NL];
      log := log + [entry];
      Appended(sent, old(output), offset, old(log), entry);
      return 0;
    }

    /** ipc_server_broadcast, for one client: a subscriber that cannot take the event is disconnected. */
    method Notify(event: seq<Byte>)
      requires Valid()
      modifies this
      ensures Valid()
      ensures old(open && subscribed) ==>
                if |old(output)| + |event| + 1 <= MAX_PENDING_OUTPUT then
                  && open && output == old(output) + event + [NL] && log == old(log) + [Broadcast(event)]
                else !open
      ensures !old(open && subscribed) ==> open == old(open) && output == old(output) && log == old(log)
      ensures open ==> Input() == old(Input()) && received == old(received) && processed == old(processed)
                       && subscribed == old(subscribed)
    {
      if open && subscribed {
        LogGrows(log, Broadcast(event));
        var result := Append(event, Broadcast(event));
        if result != 0 {
          Reset();
        }
      }
    }

    /** memchr: the position of the first '\n', or the length of the input. */
    method FindNewline() returns (i: nat)
      requires Bounded()
      ensures i <= inputLength && NoNewline(input[..i])
      ensures i < inputLength ==> input[i] == NL
    {
      i := 0;
      while i < inputLength && input[i] != NL
        invariant i <= inputLength && NoNewline(input[..i])
      {
        i := i + 1;
      }
    }

    /** Removes the first line of the buffer, which ends at `newline`, and returns its message. */
    method TakeLine(newline: nat) returns (message: seq<Byte>)
      requires Bounded() && newline < inputLength && input[newline] == NL
      modifies this`inputLength, input
      ensures Bounded() && Input() == old(Input())[newline + 1..]
      ensures message == Message(old(Input())[..newline])
    {
      ghost var start := Input();
      var lineLength := newline;
      if lineLength > 0 && input[lineLength - 1] == RETURN {
        lineLength := lineLength - 1;
      }
      message := input[..lineLength];
      assert newline > 0 ==> start[..newline][newline - 1] == start[newline - 1]
                             && start[..newline][..newline - 1] == start[..newline - 1];
      assert message == Message(start[..newline]);
      var consumed := newline + 1;
      var remaining := inputLength - consumed;
      forall i | 0 <= i < remaining { input[i] := input[consumed + i]; }
      inputLength := remaining;
      assert Input() == start[consumed..];
    }

    /**
     * process_buffered_message, called only when nothing waits to be sent: answers the first line of the
     * buffer, if it is complete.
     */
    method ProcessBuffered(handling: Handling) returns (code: int, ghost line: seq<Byte>)
      requires Valid() && open && |output| == 0
      modifies this, input
      ensures Bounded() && open && received == old(received) && sent == old(sent)
      ensures code == 1 || code == 0 || code == -1
      ensures code == 0 <==> NoNewline(old(Input()))
      ensures code == 0 ==> Valid() && Input() == old(Input()) && log == old(log) && |output| == 0 && processed == old(processed)
      ensures code != 0 ==> NoNewline(line) && line + [NL] <= old(Input())
      ensures code == 0 ==> subscribed == old(subscribed) && offset == 0
      ensures code == 1 ==> Valid() && handling.response.Some? && output == handling.response.value + [NL] && offset == 0
                            && subscribed == (old(subscribed) || handling.subscribe)
                            && Input() == old(Input())[|line| + 1..]
                            && old(sent) == Joined(Texts(old(log)))
                            && processed == old(processed) + [line]
                            && log == old(log) + [Reply(Message(line), handling.subscribe, handling.response.value)]
      ensures code == -1 <==> !NoNewline(old(Input()))
                              && (handling.response.None? || |handling.response.value| + 1 > MAX_PENDING_OUTPUT)
    {
      hide InputHistory, Joined, Texts, Acknowledged, EventsAfterSubscription, Message;
      ghost var start := Input();
      var newline := FindNewline();
      line := start[..newline];
      assert line == input[..newline];
      if newline == inputLength {
        assert line == start;
        return 0, line;
      }
      assert start[newline] == NL;
      assert line + [NL] == start[..newline + 1];
      var message := TakeLine(newline);
      if handling.response.None? {
        return -1, line;
      }
      var text := handling.response.value;
      ghost var entry := Reply(message, handling.subscribe, text);
      assert sent + output[offset..] == sent;
      LineAnswered(received, start, newline, processed, log, entry);
      var queued := Append(text, entry);
      if queued != 0 {
        return -1, line;
      }
      subscribed := subscribed || handling.subscribe;
      processed := processed + [line];
      return 1, line;
    }

    /**
     * read_client, called only when the buffer holds no '\n'. The client is cut for length exactly when it
     * has sent some line with 4096 bytes before its '\n'; otherwise some of what is there is taken.
     */
    method Read(result: RecvResult) returns (code: int, ghost tooLong: bool)
      requires Valid() && open && NoNewline(Input())
      modifies this`inputLength, this`received, input
      ensures Valid() && (code == 0 || code == -1)
      ensures old(received) <= received && Input() == old(Input()) + received[|old(received)|..]
      ensures tooLong <==> HasLongLine(old(received), MAX_MESSAGE)
      ensures code == 0 ==> View() == AfterRead(old(View()), result)
      ensures code == -1 <==> tooLong || result == Received([]) || result.Closed? || result.RecvFailure?
      ensures received == if code == 0 && result.Received? then
                            old(received) + result.bytes[..ReadCount(|result.bytes|, old(inputLength))]
                          else old(received)
    {
      hide InputHistory, OutputHistory, HasLongLine, Acknowledged;
      FullBuffer(received, Input(), processed, log);
      tooLong := inputLength >= MAX_MESSAGE;
      if inputLength >= MAX_MESSAGE {
        return -1, tooLong;
      }
      var capacity := MAX_MESSAGE - inputLength;
      if capacity > READ_SIZE {
        capacity := READ_SIZE;
      }
      match result
      case Closed => return -1, tooLong;
      case RecvRetry => return 0, tooLong;
      case RecvFailure => return -1, tooLong;
      case Received(bytes) =>
        var count := if |bytes| < capacity then |bytes| else capacity;
        assert count == ReadCount(|bytes|, inputLength);
        if count == 0 {
          return -1, tooLong;
        }
        ghost var before := Input();
        forall i | 0 <= i < count { input[inputLength + i] := bytes[i]; }
        inputLength := inputLength + count;
        assert Input() == before + bytes[..count];
        BytesArrive(received, before, bytes[..count], processed, log);
        received := received + bytes[..count];
        return 0, tooLong;
    }

    /** The socket took `count` more bytes. */
    method Advance(count: nat)
      requires Valid() && open && offset + count <= |output|
      modifies this`offset, this`sent
      ensures Valid() && offset == old(offset) + count
      ensures sent == old(sent) + output[old(offset)..offset]
    {
      hide InputHistory, OutputHistory, Acknowledged;
      PieceSent(sent, output, offset, count, log);
      sent := sent + output[offset..offset + count];
      offset := offset + count;
    }

    /** write_client: sends in pieces until the socket is full or nothing is left, and only then forgets the output. */
    method Write(results: seq<SendResult>) returns (code: int)
      requires Valid() && open
      modifies this`output, this`offset, this`sent
      ensures Valid() && (code == 0 || code == -1)
      ensures var waiting := old(|output| - offset);
              && sent == old(sent) + old(output)[old(offset)..old(offset) + Taken(results, waiting)]
              && (code == -1 <==> Broken(results, waiting))
              && output == if code == 0 && Taken(results, waiting) == waiting then [] else old(output)
      ensures offset == if |output| == 0 then 0 else old(offset) + Taken(results, old(|output| - offset))
      ensures |output| == 0 ==> sent == Joined(Texts(log))
    {
      hide InputHistory, OutputHistory, Acknowledged, Joined, Texts, Taken, Broken, ToSend;
      ghost var waiting := |output| - offset;
      var i := 0;
      AllToSend(results, waiting);
      while offset < |output|
        invariant 0 <= i <= |results| && Valid() && output == old(output) && old(offset) <= offset
        invariant sent == old(sent) + output[old(offset)..offset]
        invariant ToSend(results, i, waiting, offset - old(offset))
        decreases |results| - i
      {
        SendStep(results, i, waiting, offset - old(offset));
        if i == |results| {
          return 0;           // the socket takes nothing more for now
        }
        var result := results[i];
        i := i + 1;
        match result
        case SendFailure => return -1;
        case SendInterrupted =>
        case SendBlocked => return 0;
        case Accepted(n) =>
          var count := if n < |output| - offset then n else |output| - offset;
          if count == 0 {
            return -1;
          }
          Advance(count);
          JoinPieces(output, old(offset), offset - count, offset);
      }
      SendStep(results, i, waiting, waiting);
      Drained(sent, output, log);
      output, offset := [], 0;
      return 0;
    }

    /** The client as it stands, with its history. */
    ghost function View(): Session
      requires Bounded()
      reads this, input
    {
      Session(open, subscribed, Input(), output, offset, received, processed, log, sent)
    }

    /** The first step of a turn: with nothing left to send, the first complete line of the buffer is answered. */
    method AnswerNext(handling: Handling)
      requires Valid()
      modifies this, input
      ensures Valid() && AnswerStep(old(View()), View(), handling)
    {
      hide InputHistory, OutputHistory, Joined, Texts, Acknowledged, SplitLines, Message;
      if open && |output| == 0 {
        SentAll(sent, output, offset, log);
        LineOfStream(received, Input(), processed, log);
        var code, line := ProcessBuffered(handling);
        if code < 0 {
          Reset();
        }
      }
    }

    /** Reading, and what it leads to: a client that cannot be read from any more is dropped. */
    method ServeReading(recv: RecvResult) returns (ghost tooLong: bool)
      requires Valid() && open && NoNewline(Input())
      modifies this, input
      ensures Valid() && (tooLong <==> HasLongLine(old(received), MAX_MESSAGE))
      ensures open <==> !(tooLong || recv == Received([]) || recv.Closed? || recv.RecvFailure?)
      ensures open ==> View() == AfterRead(old(View()), recv)
    {
      hide InputHistory, OutputHistory, HasLongLine, Acknowledged, AfterRead, ReadCount;
      var code;
      code, tooLong := Read(recv);
      if code != 0 {
        Reset();
      }
    }

    /** Sending, and what it leads to. */
    method ServeWriting(sends: seq<SendResult>)
      requires Valid() && open && |output| > 0
      modifies this, input
      ensures Valid()
      ensures open <==> !Broken(sends, old(|output| - offset))
      ensures open ==> View() == AfterWrite(old(View()), sends)
    {
      hide InputHistory, OutputHistory, Acknowledged, Taken, Broken, AfterWrite, Joined, Texts;
      ghost var before := View();
      var code := Write(sends);
      Wrote(before, View(), sends, code);
      if code != 0 {
        Reset();
      }
    }

    /**
     * The second step of a turn, for a client that poll() reports: an error ends the connection, then some bytes are
     * read if nothing waits to be sent, or what waits is sent, and a peer that hung up is dropped once nothing more
     * can be read.
     */
    method Serve(turn: TurnInput) returns (ghost cutForLength: bool)
      requires Valid() && open && (|output| == 0 ==> NoNewline(Input()))
      modifies this, input
      ensures Valid() && ServeStep(old(View()), View(), turn, cutForLength)
    {
      hide InputHistory, OutputHistory, HasLongLine, Acknowledged, Broken, AfterRead, AfterWrite, ServeStep, NoNewline;
      ghost var before := View();
      cutForLength := false;
      var readable := turn.readable && |output| == 0;
      var writable := turn.writable && |output| > 0;
      if turn.error {
        Reset();
        ServedError(before, View(), turn);
        return;
      }
      if readable {
        cutForLength := ServeReading(turn.recv);
        ServedRead(before, View(), turn, cutForLength);
        return;
      }
      if writable {
        ServeWriting(turn.sends);
      }
      if open && turn.hangup {
        Reset();
      }
      ServedRest(before, View(), turn);
    }

    /**
     * The two steps of one turn of ipc_server_run that concern this client: answer a line if nothing waits
     * to be sent, then serve what poll() reports. Reading is asked for only when nothing waits to be sent,
     * writing only when something does.
     */
    method Turn(turn: TurnInput) returns (ghost cutForLength: bool, ghost between: Session)
      requires Valid()
      modifies this, input
      ensures Valid()
      ensures AnswerStep(old(View()), between, turn.handling)
      ensures if between.open && turn.ready then ServeStep(between, View(), turn, cutForLength)
              else View() == between && !cutForLength
      ensures TurnPromises(old(View()), View(), turn, cutForLength)
    {
      hide InputHistory, OutputHistory, Acknowledged, AnswerStep, ServeStep, TurnPromises;
      ghost var before := View();
      AnswerNext(turn.handling);
      between, cutForLength := View(), false;
      AnswerLeavesNoLine(before, between, turn.handling);
      assert Consistent(before);
      if open && turn.ready {
        cutForLength := Serve(turn);
      }
      TurnKeepsPromises(before, between, View(), turn, cutForLength);
    }
  }

  /** The state of a client, and the history of its connection. */
  datatype Session = Session(
    open: bool,
    subscribed: bool,
    input: seq<Byte>,
    output: seq<Byte>,
    offset: nat,
    received: seq<Byte>,
    processed: seq<seq<Byte>>,
    log: seq<Entry>,
    sent: seq<Byte>)

  /** Answering a line with this result ends the connection. */
  predicate Refused(handling: Handling) {
    handling.response.None? || |handling.response.value| + 1 > MAX_PENDING_OUTPUT
  }

  /** A complete line can be answered. */
  predicate Answerable(c: Session) {
    c.open && c.output == [] && !NoNewline(c.input)
  }

  /** What answering the next line makes of a client. */
  ghost predicate AnswerStep(a: Session, b: Session, handling: Handling) {
    && (if !Answerable(a) then b == a
        else if Refused(handling) then !b.open
        else
          && |a.processed| < |SplitLines(a.received).lines| && a.sent == Joined(Texts(a.log))
          && var line := SplitLines(a.received).lines[|a.processed|];
             && |line| + 1 <= |a.input|
             && b == Session(true, a.subscribed || handling.subscribe, a.input[|line| + 1..],
                             handling.response.value + [NL], 0, a.received, a.processed + [line],
                             a.log + [Reply(Message(line), handling.subscribe, handling.response.value)], a.sent))
    && (b.open && b.output == [] ==> NoNewline(b.input))
  }

  /** What one read makes of a client: as many bytes are taken as a read takes. */
  ghost function AfterRead(c: Session, result: RecvResult): Session
    requires |c.input| <= MAX_MESSAGE
  {
    var bytes := if result.Received? then result.bytes[..ReadCount(|result.bytes|, |c.input|)] else [];
    c.(input := c.input + bytes, received := c.received + bytes)
  }

  /** What sending makes of a client: what the socket takes is gone, and the output is forgotten once all is. */
  ghost function AfterWrite(c: Session, results: seq<SendResult>): Session
    requires c.offset <= |c.output|
  {
    var taken := Taken(results, |c.output| - c.offset);
    var gone := c.(sent := c.sent + c.output[c.offset..c.offset + taken]);
    if c.offset + taken == |c.output| then gone.(output := [], offset := 0) else gone.(offset := c.offset + taken)
  }

  /** What serving the result of poll() makes of a client. */
  ghost predicate ServeStep(a: Session, b: Session, turn: TurnInput, cutForLength: bool) {
    && (cutForLength <==> !turn.error && turn.readable && a.output == [] && HasLongLine(a.received, MAX_MESSAGE))
    && (if turn.error then !b.open
        else if a.output == [] && turn.readable then
          && (b.open <==> !cutForLength && turn.recv != Received([]) && !turn.recv.Closed? && !turn.recv.RecvFailure?)
          && (b.open ==> |a.input| <= MAX_MESSAGE &&
                         b == AfterRead(a, turn.recv))
        else if a.output == [] then
          (b.open <==> !turn.hangup) && (b.open ==> b == a)
        else
          && a.offset <= |a.output|
          && (b.open <==> !turn.hangup && !(turn.writable && Broken(turn.sends, |a.output| - a.offset)))
          && (b.open ==> b == if turn.writable then AfterWrite(a, turn.sends) else a))
  }

  /** What a turn promises, whatever it is given. */
  ghost predicate TurnPromises(a: Session, b: Session, turn: TurnInput, cutForLength: bool) {
    && (!a.open ==> !b.open)
    && (b.open ==> a.log <= b.log && |b.log| <= |a.log| + 1 && a.received <= b.received && a.sent <= b.sent)
    // A line is answered exactly if it can be, which is only when everything appended before has been sent.
    && (b.open && Answerable(a) ==>
          && |b.log| == |a.log| + 1 && a.sent == Joined(Texts(a.log))
          && |a.processed| < |SplitLines(a.received).lines|
          && b.processed == a.processed + [SplitLines(a.received).lines[|a.processed|]])
    && (b.open && !Answerable(a) ==> b.log == a.log && b.processed == a.processed)
    // What waits is sent as far as the socket takes it.
    && (a.open && b.open && |a.output| > 0 && turn.ready && turn.writable && a.offset <= |a.output| ==>
          b.sent == a.sent + a.output[a.offset..a.offset + Taken(turn.sends, |a.output| - a.offset)])
    && (turn.ready && (turn.error || (turn.hangup && |a.output| > 0)) ==> !b.open)
    // Bytes are read exactly when poll() reports them with nothing to answer or to send: as many as one read takes.
    && (a.open && a.output == [] && NoNewline(a.input) && turn.ready && !turn.error && turn.readable ==>
          && (cutForLength <==> HasLongLine(a.received, MAX_MESSAGE))
          && (b.open <==> !cutForLength && turn.recv != Received([]) && !turn.recv.Closed? && !turn.recv.RecvFailure?)
          && (b.open && turn.recv.Received? ==>
                |a.input| <= MAX_MESSAGE
                && b.received == a.received + turn.recv.bytes[..ReadCount(|turn.recv.bytes|, |a.input|)]))
    && (b.open && !(a.output == [] && NoNewline(a.input) && turn.ready && turn.readable && turn.recv.Received?) ==>
          b.received == a.received)
    // A client cut for length has the answer to every complete line before.
    && (cutForLength ==> && !b.open && HasLongLine(a.received, MAX_MESSAGE)
                         && a.sent == Joined(Texts(a.log)) && Answered(a.log) == Messages(SplitLines(a.received).lines))
  }

  /** The history of a client is that of its buffers. */
  ghost predicate Consistent(c: Session) {
    && c.offset <= |c.output| && OutputHistory(c.sent, c.output, c.offset, c.log)
    && InputHistory(c.received, c.input, c.processed, c.log)
  }

  lemma ServedError(a: Session, b: Session, turn: TurnInput)
    requires turn.error && !b.open
    ensures ServeStep(a, b, turn, false)
  {
  }

  lemma ServedRead(a: Session, b: Session, turn: TurnInput, tooLong: bool)
    requires !turn.error && turn.readable && a.output == [] && |a.input| <= MAX_MESSAGE
    requires tooLong <==> HasLongLine(a.received, MAX_MESSAGE)
    requires b.open <==> !(tooLong || turn.recv == Received([]) || turn.recv.Closed? || turn.recv.RecvFailure?)
    requires b.open ==> b == AfterRead(a, turn.recv)
    ensures ServeStep(a, b, turn, tooLong)
  {
    hide HasLongLine, AfterRead;
  }

  /** What write_client leaves is what sending makes of the client. */
  lemma Wrote(a: Session, b: Session, results: seq<SendResult>, code: int)
    requires a.offset <= |a.output| && a.output != []
    requires var taken := Taken(results, |a.output| - a.offset);
             && b == a.(sent := b.sent, output := b.output, offset := b.offset)
             && b.sent == a.sent + a.output[a.offset..a.offset + taken]
             && b.output == (if code == 0 && taken == |a.output| - a.offset then [] else a.output)
             && b.offset == if |b.output| == 0 then 0 else a.offset + taken
    ensures code == 0 ==> b == AfterWrite(a, results)
  {
    hide Taken;
  }

  lemma ServedRest(a: Session, b: Session, turn: TurnInput)
    requires !turn.error && !(turn.readable && a.output == []) && a.offset <= |a.output|
    requires var sends := turn.writable && a.output != [];
             && (b.open <==> !turn.hangup && !(sends && Broken(turn.sends, |a.output| - a.offset)))
             && (b.open ==> b == if sends then AfterWrite(a, turn.sends) else a)
    ensures ServeStep(a, b, turn, false)
  {
    hide HasLongLine, AfterWrite, Broken;
  }

  lemma AnswerLeavesNoLine(a: Session, b: Session, handling: Handling)
    requires AnswerStep(a, b, handling)
    ensures b.open && b.output == [] ==> NoNewline(b.input)
  {
  }

  lemma TurnKeepsPromises(a: Session, between: Session, b: Session, turn: TurnInput, cutForLength: bool)
    requires Consistent(a) && AnswerStep(a, between, turn.handling)
    requires if between.open && turn.ready then ServeStep(between, b, turn, cutForLength) else b == between && !cutForLength
    ensures TurnPromises(a, b, turn, cutForLength)
  {
    hide HasLongLine, Joined, Texts, SplitLines, Answered, Messages, Broken, Taken, ReadCount, Message, OutputHistory,
         InputHistory, EventsAfterSubscription;
    if a.output == [] {
      SentAll(a.sent, a.output, a.offset, a.log);
      if NoNewline(a.input) {
        AllAnswered(a.received, a.input, a.processed, a.log);
      }
    }
  }

  lemma SentAll(sent: seq<Byte>, output: seq<Byte>, offset: nat, log: seq<Entry>)
    requires offset <= |output| == 0 && OutputHistory(sent, output, offset, log)
    ensures sent == Joined(Texts(log))
  {
    assert sent + output[offset..] == sent;
  }

  /** With no complete line in the buffer, every line of the stream has been answered. */
  lemma AllAnswered(received: seq<Byte>, input: seq<Byte>, processed: seq<seq<Byte>>, log: seq<Entry>)
    requires InputHistory(received, input, processed, log) && NoNewline(input)
    ensures Answered(log) == Messages(SplitLines(received).lines)
  {
    hide SplitLines, Answered, Messages;
    UnfinishedLine(input);
    assert SplitLines(received).lines == processed;
  }

  /** The first line of the buffer is the next line of the stream to process. */
  lemma LineOfStream(received: seq<Byte>, input: seq<Byte>, processed: seq<seq<Byte>>, log: seq<Entry>)
    requires InputHistory(received, input, processed, log)
    ensures forall line :: NoNewline(line) && line + [NL] <= input ==>
              |processed| < |SplitLines(received).lines| && SplitLines(received).lines[|processed|] == line
  {
    hide SplitLines, Answered, Messages;
    forall line | NoNewline(line) && line + [NL] <= input
      ensures |processed| < |SplitLines(received).lines| && SplitLines(received).lines[|processed|] == line
    {
      assert input[..|line|] == line && input[|line|] == NL;
      LineTaken(input, |line|);
    }
  }

  // ---------------------------------------------------------------------
  // What both ends can rely on
  // ---------------------------------------------------------------------

  /**
   * For an open connection, however the input was cut: the requests answered are the first lines received,
   * in order, one answer each, and all of them when no complete line is left in the buffer; every event
   * follows the answer to a subscribe request; no complete line was too long.
   */
  lemma AnswersFollowLines(c: IpcClient)
    requires c.Valid()
    ensures var lines := SplitLines(c.received).lines;
            && |c.processed| <= |lines|
            && Answered(c.log) == Messages(lines[..|c.processed|])
            && (NoNewline(c.Input()) ==> Answered(c.log) == Messages(lines))
    ensures EventsAfterSubscription(c.log)
    ensures |c.output| <= MAX_PENDING_OUTPUT
  {
    hide SplitLines, Answered, Messages, Joined, Texts;
    var lines := SplitLines(c.received).lines;
    assert lines[..|c.processed|] == c.processed;
    if NoNewline(c.Input()) {
      UnfinishedLine(c.Input());
      assert lines == c.processed;
    }
  }

  /**
   * What has been sent, cut at its '\n's, is the first lines appended, in order and whole, and all of them
   * once nothing waits; this for texts without '\n', as serialised JSON is.
   */
  lemma PeerReadsWholeLines(c: IpcClient)
    requires c.Valid() && forall i :: 0 <= i < |c.log| ==> NoNewline(c.log[i].text)
    ensures SplitLines(c.sent).lines <= Texts(c.log)
    ensures |c.output| == 0 ==> SplitLines(c.sent).lines == Texts(c.log)
  {
    hide SplitLines, Joined, EventsAfterSubscription;
    assert c.sent + c.output[c.offset..] == Joined(Texts(c.log));
    assert c.sent <= Joined(Texts(c.log));
    if |c.output| == 0 {
      SentAll(c.sent, c.output, c.offset, c.log);
    }
    PartIsWholeLines(Texts(c.log), c.sent);
  }

  /**
   * A peer whose whole stream has no line with 4096 bytes before its '\n' is never cut for length, whatever
   * part of it has come in; one whose whole stream has come in is cut at the next read iff there is one.
   */
  lemma OnlyLongLinesAreCut(c: IpcClient, unread: seq<Byte>)
    requires c.Valid() && NoNewline(c.Input())
    ensures HasLongLine(c.received, MAX_MESSAGE) <==> c.inputLength >= MAX_MESSAGE
    ensures !HasLongLine(c.received + unread, MAX_MESSAGE) ==> c.inputLength < MAX_MESSAGE
    ensures c.inputLength >= MAX_MESSAGE ==> c.inputLength == MAX_MESSAGE && HasLongLine(c.received + unread, MAX_MESSAGE)
  {
    hide HasLongLine, InputHistory, OutputHistory, Acknowledged;
    FullBuffer(c.received, c.Input(), c.processed, c.log);
    if HasLongLine(c.received, MAX_MESSAGE) {
      LongLineStays(c.received, unread, MAX_MESSAGE);
    }
  }

  /** A line of 4096 bytes is one too many, although the header allows 4096 "'\n' not included". */
  lemma LimitIsOneLess(line: seq<Byte>)
    requires NoNewline(line)
    ensures HasLongLine(line + [NL], MAX_MESSAGE) <==> |line| >= 4096
  {
    hide SplitLines;
    OneLine(line);
    if |line| >= 4096 {
      assert SplitLines(line + [NL]).lines[0] == line;
    }
  }

  // ---------------------------------------------------------------------
  // All the clients
  // ---------------------------------------------------------------------

  predicate Distinct(clients: seq<IpcClient>) {
    forall i, j :: 0 <= i < j < |clients| ==> clients[i] != clients[j]
  }

  /** A subscriber got the event as a whole line, or was disconnected for lack of room; another client did not notice. */
  twostate predicate Told(c: IpcClient, event: seq<Byte>)
    reads c
  {
    if old(c.open && c.subscribed) then
      if |old(c.output)| + |event| + 1 <= MAX_PENDING_OUTPUT then
        c.open && c.output == old(c.output) + event + [NL] && c.log == old(c.log) + [Broadcast(event)]
      else !c.open
    else c.open == old(c.open) && c.output == old(c.output) && c.log == old(c.log)
  }

  /** ipc_server_broadcast */
  method BroadcastEvent(clients: seq<IpcClient>, event: seq<Byte>)
    requires Distinct(clients) && forall i :: 0 <= i < |clients| ==> clients[i].Valid()
    modifies clients
    ensures forall i :: 0 <= i < |clients| ==> clients[i].Valid() && Told(clients[i], event)
  {
    hide InputHistory, OutputHistory, Acknowledged;
    var i := 0;
    while i < |clients|
      invariant 0 <= i <= |clients|
      invariant forall j :: 0 <= j < |clients| ==> clients[j].Valid()
      invariant forall j :: i <= j < |clients| ==> unchanged(clients[j])
      invariant forall j :: 0 <= j < i ==> Told(clients[j], event)
    {
      clients[i].Notify(event);
      assert Told(clients[i], event);
      i := i + 1;
    }
  }
}

/** Receiving whole frames from the RFCOMM link (src/aml/transport.c, aml_receive). */
module Transport {
  import opened Common
  import opened Protocol
  import opened Parser

  const ERR_GENERIC := -1
  const ERR_TIMEOUT := -2
  const ERR_DISCONNECTED := -3
  const ERR_IO := -4
  const ERR_PROTOCOL := -5

  const RX_BUFFER_SIZE := 256

  /** The most the receive loop ever keeps: an unfinished frame and one more read. */
  const MAX_PENDING := MAX_FRAME_SIZE - 1 + RX_BUFFER_SIZE

  /** What poll() and recv() answer during one turn of the loop. */
  datatype SocketEvent =
    | PollInterrupted
    | PollFailed
    | NothingReady
    | LinkInError
    | PeerClosed
    | ReadInterrupted
    | ReadFailed(disconnected: bool)
    | Read(bytes: seq<Byte>)

  /** One turn: the clock as it is read at the top, then the answer of the socket. */
  datatype Turn = Turn(now: int, event: SocketEvent)

  predicate WithinReadSize(turns: seq<Turn>) {
    forall i :: 0 <= i < |turns| && turns[i].event.Read? ==> 0 < |turns[i].event.bytes| <= RX_BUFFER_SIZE
  }

  /** `StillWaiting` stands for a call that has not returned when the given turns are used up. */
  datatype Outcome = Received(length: nat) | Failed(code: int) | StillWaiting

  function BytesRead(turns: seq<Turn>): seq<Byte> {
    if turns == [] then []
    else
      var last := turns[|turns| - 1].event;
      BytesRead(turns[..|turns| - 1]) + if last.Read? then last.bytes else []
  }

  /** The bytes read from the connection, `before` and in the first `n` turns. */
  function ReadAfter(before: seq<Byte>, turns: seq<Turn>, n: nat): seq<Byte>
    requires n <= |turns|
  {
    before + BytesRead(turns[..n])
  }

  /** Before each of the first `n` turns, the bytes read held no frame but those delivered. */
  predicate FoundNothing(before: seq<Byte>, delivered: seq<seq<Byte>>, turns: seq<Turn>, n: nat) {
    n <= |turns| && forall i :: 0 <= i < n ==> Scan(ReadAfter(before, turns, i)).frames == delivered
  }

  /** A turn that reads nothing, after which the loop goes on. */
  predicate Fruitless(event: SocketEvent) {
    event.PollInterrupted? || event.NothingReady? || event.ReadInterrupted?
  }

  /** The error an event ends the call with, 0 if the loop goes on. */
  function EventError(event: SocketEvent): (code: int)
    ensures code == 0 || code == ERR_IO || code == ERR_DISCONNECTED
    ensures code == 0 <==> event.Read? || Fruitless(event)
  {
    match event
    case PollFailed => ERR_IO
    case LinkInError => ERR_DISCONNECTED
    case PeerClosed => ERR_DISCONNECTED
    case ReadFailed(disconnected) => if disconnected then ERR_DISCONNECTED else ERR_IO
    case _ => 0
  }

  predicate NoFault(turns: seq<Turn>, n: nat) {
    n <= |turns| && forall i :: 0 <= i < n ==> EventError(turns[i].event) == 0
  }

  /** Of the first `n` turns, all but the first start before the deadline. */
  predicate InTime(turns: seq<Turn>, n: nat, deadline: int) {
    n <= |turns| && forall i :: 1 <= i < n ==> turns[i].now < deadline
  }

  class AmlConnection {
    const parser: ProtocolParser
    var open: bool

    ghost var received: seq<Byte>             // every byte read since the parser was last reset
    ghost var delivered: seq<seq<Byte>>       // every frame handed out since then

    /** What is delivered, followed by what the buffer still yields, is the scan of the whole stream. */
    ghost predicate Valid()
      reads this, parser, parser.data
    {
      && parser.Valid()
      && |parser.Contents()| <= MAX_PENDING
      && Scan(received).frames == delivered + Scan(parser.Contents()).frames
      && Scan(received).rest == Scan(parser.Contents()).rest
    }

    constructor ()
      ensures Valid() && fresh(parser) && fresh(parser.data) && open
      ensures received == [] && delivered == []
    {
      parser := new ProtocolParser();
      open := true;
      received, delivered := [], [];
    }

    /** Adds one read to the buffer; an unfinished frame and 256 bytes always fit. */
    method Accumulate(bytes: seq<Byte>) returns (result: int)
      requires Valid() && |bytes| <= RX_BUFFER_SIZE
      requires Next(parser.Contents()) == Waiting(parser.Contents())
      modifies this`received, parser, parser.data
      ensures Valid() && result == 0
      ensures received == old(received) + bytes
    {
      hide Next, Scan;
      ghost var before := parser.Contents();
      NothingLeft(before);
      result := parser.Feed(bytes);
      ScanSplits(received, bytes);
      received := received + bytes;
    }

    /**
     * Asks the parser for a frame. If the output can hold any frame, the only outcomes are a frame or
     * nothing, and nothing means that all the frames received so far have been delivered.
     */
    method Extract(output: array<Byte>) returns (result: int, outputLength: nat)
      requires Valid() && output != parser.data
      modifies this`delivered, parser, parser.data, output
      ensures result == 1 ==> Valid() && outputLength <= output.Length
                              && delivered == old(delivered) + [output[..outputLength]]
      ensures result == 0 ==> Valid() && delivered == old(delivered) == Scan(received).frames
                              && Next(parser.Contents()) == Waiting(parser.Contents())
      ensures result == 1 || result == 0 || result == -1
      ensures parser.Valid() && (result == -1 ==> output.Length < MAX_FRAME_SIZE)
      ensures Next(old(parser.Contents())).Extracted? ==> result != 0
    {
      hide Next, IsFrame;
      ghost var s := parser.Contents();
      result, outputLength := parser.NextFrame(output);
      if result == 1 {
        delivered := delivered + [output[..outputLength]];
        assert Scan(s).frames == [output[..outputLength]] + Scan(parser.Contents()).frames;
      } else if result == 0 {
        WaitingIsStable(s);
      } else {
        assert IsFrame(Next(s).frame);
        FrameSize(Next(s).frame);
      }
    }

    /** What the loop makes of the answer of the socket: bytes are kept for the parser, a fault ends the call. */
    method React(event: SocketEvent) returns (error: int)
      requires Valid() && (event.Read? ==> |event.bytes| <= RX_BUFFER_SIZE)
      requires Next(parser.Contents()) == Waiting(parser.Contents())
      modifies this`received, parser, parser.data
      ensures Valid() && parser.Valid() && error == EventError(event)
      ensures received == if event.Read? then old(received) + event.bytes else old(received)
    {
      hide Next, Scan;
      match event
      case PollInterrupted => return 0;
      case PollFailed => return ERR_IO;
      case NothingReady => return 0;
      case LinkInError => return ERR_DISCONNECTED;
      case PeerClosed => return ERR_DISCONNECTED;
      case ReadInterrupted => return 0;
      case ReadFailed(disconnected) => return if disconnected then ERR_DISCONNECTED else ERR_IO;
      case Read(bytes) =>
        error := Accumulate(bytes);
        if error < 0 {
          assert false;
        }
    }

    /** Forgets everything, after a frame too large for the output. */
    method Restart()
      requires parser.Valid()
      modifies this`received, this`delivered, parser, parser.data
      ensures Valid()
    {
      hide Next, Scan;
      parser.Init();
      received, delivered := [], [];
      NothingToScan();
    }

    /** aml_receive */
    method Receive(output: array<Byte>, timeoutMs: int, start: int, turns: seq<Turn>)
      returns (outcome: Outcome, ghost used: nat)
      requires Valid() && output != parser.data && WithinReadSize(turns)
      modifies this`received, this`delivered, parser, parser.data, output
      ensures Valid()
      ensures used <= |turns|
      ensures !open ==> outcome == Failed(ERR_GENERIC)
      // A frame is appended to what was delivered; nothing else ever is.
      ensures outcome.Received? ==> outcome.length <= output.Length
                                    && delivered == old(delivered) + [output[..outcome.length]]
      // Any other return, protocol error aside, comes after every received frame was delivered.
      ensures open && outcome != Failed(ERR_PROTOCOL) ==> received == ReadAfter(old(received), turns, used)
      ensures open && !outcome.Received? && outcome != Failed(ERR_PROTOCOL) ==>
                delivered == old(delivered) == Scan(received).frames
      // With room for any frame, extraction never fails and the buffer never saturates.
      ensures output.Length >= MAX_FRAME_SIZE ==> outcome != Failed(ERR_PROTOCOL)
      // A frame already there is returned without looking at the socket.
      ensures open && Next(old(parser.Contents())).Extracted? ==> used == 0 && !outcome.StillWaiting?
      // Giving up takes at least one look at the socket and the whole delay.
      ensures open && outcome == Failed(ERR_TIMEOUT) ==>
                timeoutMs >= 0 && 0 < used < |turns| && turns[used].now >= start + timeoutMs
      ensures open && outcome.Failed? && outcome.code != ERR_TIMEOUT && outcome.code != ERR_PROTOCOL ==>
                used > 0 && outcome.code == EventError(turns[used - 1].event)
      ensures outcome.StillWaiting? ==> used == |turns|
      ensures outcome.Failed? ==> outcome.code < 0
      // It looks at the socket only for want of a frame.
      ensures open ==> FoundNothing(old(received), old(delivered), turns, used)
      // The first fault is the last thing looked at, and nothing is looked at once the delay has run out.
      ensures || NoFault(turns, used)
              || (0 < used && NoFault(turns, used - 1) && outcome == Failed(EventError(turns[used - 1].event)))
      ensures timeoutMs >= 0 ==> InTime(turns, used, start + timeoutMs)
    {
      hide Next, Scan, EventError, ReadAfter, FoundNothing, NoFault, InTime;
      used := 0;
      NoBytesRead(received, delivered, turns);
      if !open {
        return Failed(ERR_GENERIC), 0;
      }
      var deadline := start + timeoutMs;
      var polled := false;
      var i := 0;
      while true
        invariant Valid() && 0 <= i <= |turns| && used == i
        invariant polled <==> i > 0
        invariant received == ReadAfter(old(received), turns, i)
        invariant delivered == old(delivered)
        invariant i == 0 ==> parser.Contents() == old(parser.Contents())
        invariant i > 0 ==> Next(old(parser.Contents())).Waiting?
        invariant NoFault(turns, i)
        invariant FoundNothing(old(received), old(delivered), turns, i)
        invariant timeoutMs >= 0 ==> InTime(turns, i, start + timeoutMs)
        decreases |turns| - i
      {
        var result, length := Extract(output);
        if result == 1 {
          return Received(length), i;
        }
        if result < 0 {
          Restart();
          return Failed(ERR_PROTOCOL), i;
        }
        if i == |turns| {
          return StillWaiting, i;
        }
        if timeoutMs >= 0 {
          if deadline - turns[i].now <= 0 && polled {
            return Failed(ERR_TIMEOUT), i;
          }
        }
        polled := true;
        var error := React(turns[i].event);
        BytesReadGrow(old(received), turns, i);
        OneMoreTurn(old(received), old(delivered), turns, i, deadline);
        i, used := i + 1, i + 1;
        if error != 0 {
          return Failed(error), i;
        }
      }
    }
  }

  /** One more turn adds what it read. */
  lemma BytesReadGrow(before: seq<Byte>, turns: seq<Turn>, i: nat)
    requires i < |turns|
    ensures ReadAfter(before, turns, i + 1) ==
            if turns[i].event.Read? then ReadAfter(before, turns, i) + turns[i].event.bytes
            else ReadAfter(before, turns, i)
  {
    assert turns[..i + 1][..i] == turns[..i];
  }

  lemma OneMoreTurn(before: seq<Byte>, delivered: seq<seq<Byte>>, turns: seq<Turn>, n: nat, deadline: int)
    requires n < |turns| && FoundNothing(before, delivered, turns, n)
    requires Scan(ReadAfter(before, turns, n)).frames == delivered
    ensures FoundNothing(before, delivered, turns, n + 1)
    ensures NoFault(turns, n) && EventError(turns[n].event) == 0 ==> NoFault(turns, n + 1)
    ensures InTime(turns, n, deadline) && (n > 0 ==> turns[n].now < deadline) ==> InTime(turns, n + 1, deadline)
  {
    hide Scan, ReadAfter;
  }

  lemma NoBytesRead(before: seq<Byte>, delivered: seq<seq<Byte>>, turns: seq<Turn>)
    ensures ReadAfter(before, turns, 0) == before && FoundNothing(before, delivered, turns, 0)
    ensures NoFault(turns, 0) && forall deadline :: InTime(turns, 0, deadline)
  {
  }

  /** Bytes in which no frame is complete yield no frame and stay. */
  lemma {:induction false} NothingLeft(pending: seq<Byte>)
    requires Next(pending) == Waiting(pending)
    ensures |pending| < MAX_FRAME_SIZE && Scan(pending) == Harvest([], pending)
  {
    hide Next;
  }

  lemma FrameSize(f: seq<Byte>)
    requires IsFrame(f)
    ensures |f| <= MAX_FRAME_SIZE
  {
  }

  lemma NothingToScan()
    ensures Scan([]) == Harvest([], [])
  {
  }
}

/** aml_receive on a socket whose bytes come in at given times: Transport.dfy does what Reception.dfy says. */
module Socket {
  import opened Common
  import opened Protocol
  import opened Parser
  import opened Transport
  import opened Reception

  /** What the socket answers, turn after turn, for as long as the loop may ask. */
  function Turns(f: Incoming, lag: nat -> nat, e: Ear, until: int, polled: bool): (turns: seq<Turn>)
    requires e.read <= |f.bytes|
    ensures WithinReadSize(turns)
    decreases |f.bytes| - e.read, TimeLeft(until, e.clock), if polled then 0 else 1
  {
    var c := Call(lag, e);
    var end, time := PollEnd(c.clock, until), NextTime(f, e.read);
    if polled && c.clock >= until then [Turn(c.clock, NothingReady)]
    else if time.None? || time.value > end then
      [Turn(c.clock, NothingReady)] + Turns(f, lag, AfterPoll(c, end), until, true)
    else if e.read < |f.bytes| then
      var r := AfterRead(f, lag, c);
      [Turn(c.clock, Read(f.bytes[e.read..r.read]))] + Turns(f, lag, r, until, true)
    else [Turn(c.clock, f.lost.value.form)]
  }

  lemma {:induction false} BytesReadFirst(turns: seq<Turn>)
    requires turns != []
    ensures BytesRead(turns) == (if turns[0].event.Read? then turns[0].event.bytes else []) + BytesRead(turns[1..])
    decreases |turns|
  {
    if |turns| > 1 {
      BytesReadFirst(turns[..|turns| - 1]);
      assert turns[..|turns| - 1][1..] == turns[1..][..|turns| - 2];
    }
  }

  lemma ReadAfterFirst(before: seq<Byte>, turns: seq<Turn>, n: nat)
    requires 0 < n <= |turns|
    ensures ReadAfter(before, turns, n) ==
            ReadAfter(before + if turns[0].event.Read? then turns[0].event.bytes else [], turns[1..], n - 1)
  {
    BytesReadFirst(turns[..n]);
    assert turns[..n][1..] == turns[1..][..n - 1];
  }

  /** What the contract of the receive loop says of its result, with `next` frames delivered before. */
  ghost predicate Result(before: seq<Byte>, next: nat, turns: seq<Turn>, until: int, polled: bool, used: nat,
                         outcome: Outcome)
  {
    && used <= |turns|
    && (forall i :: 0 <= i < used ==> |Scan(ReadAfter(before, turns, i)).frames| <= next)
    && (outcome.Received? <==> |Scan(ReadAfter(before, turns, used)).frames| > next)
    && (forall i :: (if polled then 0 else 1) <= i < used ==> turns[i].now < until)
    && (|| (forall i :: 0 <= i < used ==> EventError(turns[i].event) == 0)
        || (0 < used && outcome == Failed(EventError(turns[used - 1].event))
            && forall i :: 0 <= i < used - 1 ==> EventError(turns[i].event) == 0))
    && (outcome.Failed? ==> outcome.code < 0)
    && (outcome == Failed(ERR_TIMEOUT) ==> used < |turns| && turns[used].now >= until && (polled || used > 0))
    && (outcome.Failed? && outcome.code != ERR_TIMEOUT ==>
          used > 0 && outcome.code == EventError(turns[used - 1].event))
    && (outcome.StillWaiting? ==> used == |turns|)
  }

  /** The same result, seen from after the first turn. */
  lemma ResultNext(before: seq<Byte>, next: nat, turns: seq<Turn>, until: int, polled: bool, used: nat, outcome: Outcome)
    requires Result(before, next, turns, until, polled, used, outcome) && used > 0
    requires EventError(turns[0].event) == 0
    ensures Result(before + if turns[0].event.Read? then turns[0].event.bytes else [], next, turns[1..], until, true,
                   used - 1, outcome)
  {
    hide Scan, ReadAfter, EventError;
    var after := before + if turns[0].event.Read? then turns[0].event.bytes else [];
    forall i | 0 < i <= used ensures ReadAfter(before, turns, i) == ReadAfter(after, turns[1..], i - 1) {
      ReadAfterFirst(before, turns, i);
    }
    forall i | 0 <= i < used - 1 ensures |Scan(ReadAfter(after, turns[1..], i)).frames| <= next {
      assert ReadAfter(before, turns, i + 1) == ReadAfter(after, turns[1..], i);
    }
  }

  /** A turn that reads nothing changes nothing in what is read. */
  lemma ReadAfterInsertion(before: seq<Byte>, turns: seq<Turn>, i: nat, t: Turn, n: nat)
    requires i <= |turns| && n <= |turns| + 1 && Fruitless(t.event)
    ensures ReadAfter(before, turns[..i] + [t] + turns[i..], n) == ReadAfter(before, turns, if n <= i then n else n - 1)
    decreases n
  {
    var longer := turns[..i] + [t] + turns[i..];
    if n <= i {
      assert longer[..n] == turns[..n];
    } else if n == i + 1 {
      assert longer[..n][..i] == turns[..i] && longer[..n][i] == t;
    } else {
      assert longer[..n][..n - 1] == longer[..n - 1] && longer[..n][n - 1] == turns[n - 2];
      assert turns[..n - 1][..n - 2] == turns[..n - 2] && turns[..n - 1][n - 2] == turns[n - 2];
      ReadAfterInsertion(before, turns, i, t, n - 1);
      assert before + BytesRead(longer[..n - 1]) == before + BytesRead(turns[..n - 2]);
      BytesReadSame(before, BytesRead(longer[..n - 1]), BytesRead(turns[..n - 2]));
    }
  }

  lemma BytesReadSame(before: seq<Byte>, a: seq<Byte>, b: seq<Byte>)
    requires before + a == before + b
    ensures a == b
  {
    assert (before + a)[|before|..] == a && (before + b)[|before|..] == b;
  }

  /** An interrupted turn, or one that found nothing, may be left out unless it was the only look at the socket. */
  lemma InterruptedTurnErased(before: seq<Byte>, next: nat, turns: seq<Turn>, i: nat, t: Turn, until: int, polled: bool,
                              used: nat, outcome: Outcome)
    requires i <= |turns| && Fruitless(t.event) && i < used && (polled || used > 1)
    requires Result(before, next, turns[..i] + [t] + turns[i..], until, polled, used, outcome)
    ensures Result(before, next, turns, until, polled, used - 1, outcome)
  {
    hide Scan, ReadAfter, Fruitless, EventError;
    var longer := turns[..i] + [t] + turns[i..];
    assert forall j :: 0 <= j < i ==> longer[j] == turns[j];
    assert longer[i] == t;
    assert forall j :: i < j < |longer| ==> longer[j] == turns[j - 1];
    forall n | 0 <= n <= used ensures ReadAfter(before, longer, n) == ReadAfter(before, turns, if n <= i then n else n - 1) {
      ReadAfterInsertion(before, turns, i, t, n);
    }
    forall j | 0 <= j < used - 1 ensures |Scan(ReadAfter(before, turns, j)).frames| <= next {
      assert ReadAfter(before, turns, j) == ReadAfter(before, longer, if j <= i then j else j + 1);
    }
    forall j | (if polled then 0 else 1) <= j < used - 1 ensures turns[j].now < until {
      assert longer[if j < i then j else j + 1] == turns[j];
    }
    assert EventError(t.event) == 0;
    forall j | 0 <= j < used - 1 ensures EventError(turns[j].event) == EventError(longer[if j < i then j else j + 1].event) {
    }
  }

  /** No frame is there yet, and the loop may still look: it looks. */
  lemma Looks(before: seq<Byte>, next: nat, turns: seq<Turn>, until: int, polled: bool, used: nat, outcome: Outcome)
    requires Result(before, next, turns, until, polled, used, outcome) && |Scan(before).frames| <= next
    requires turns != [] && !(polled && turns[0].now >= until)
    ensures used > 0
  {
    hide Scan;
    assert turns[..0] == [] && before + [] == before;
  }

  /** A frame is there, or the time is over: the loop does not look. */
  lemma LooksNoMore(before: seq<Byte>, next: nat, turns: seq<Turn>, until: int, polled: bool, used: nat, outcome: Outcome)
    requires Result(before, next, turns, until, polled, used, outcome) && turns != []
    requires |Scan(before).frames| > next || (polled && turns[0].now >= until)
    ensures used == 0 && ReadAfter(before, turns, used) == before
    ensures if |Scan(before).frames| > next then outcome.Received? else outcome == Failed(ERR_TIMEOUT)
  {
    hide Scan;
    assert turns[..0] == [] && before + [] == before;
    assert ReadAfter(before, turns, 0) == before;
  }

  /** The last turn ends with a fault. */
  lemma LooksInVain(before: seq<Byte>, next: nat, turns: seq<Turn>, until: int, polled: bool, used: nat, outcome: Outcome)
    requires Result(before, next, turns, until, polled, used, outcome) && |Scan(before).frames| <= next
    requires |turns| == 1 && !(polled && turns[0].now >= until) && EventError(turns[0].event) != 0
    ensures outcome == Failed(EventError(turns[0].event)) && ReadAfter(before, turns, used) == before
  {
    hide Scan;
    Looks(before, next, turns, until, polled, used, outcome);
    assert turns[..1] == turns;
    BytesReadFirst(turns);
    assert before + [] == before;
  }

  /** A result that fits what the socket answers is the one Hear gives, after the same bytes. */
  lemma {:induction false} ResultIsHeard(f: Incoming, lag: nat -> nat, e: Ear, until: int, polled: bool, used: nat,
                                         outcome: Outcome)
    requires e.read <= |f.bytes|
    requires Result(f.bytes[..e.read], e.next, Turns(f, lag, e, until, polled), until, polled, used, outcome)
    ensures used <= |Turns(f, lag, e, until, polled)|
    ensures var h := Hear(f, lag, e, until, polled);
            && (if h.code == 0 then outcome.Received? else outcome == Failed(h.code))
            && ReadAfter(f.bytes[..e.read], Turns(f, lag, e, until, polled), used) == f.bytes[..h.ear.read]
    decreases |f.bytes| - e.read, TimeLeft(until, e.clock), if polled then 0 else 1
  {
    hide Scan, ReadAfter, Result, Turns, Hear, GoesOn, AfterTurn;
    if GoesOn(f, lag, e, until, polled) {
      NextResult(f, lag, e, until, polled, used, outcome);
      ResultIsHeard(f, lag, AfterTurn(f, lag, e, until), until, true, used - 1, outcome);
    } else {
      LastTurn(f, lag, e, until, polled, used, outcome);
    }
  }

  lemma NextResult(f: Incoming, lag: nat -> nat, e: Ear, until: int, polled: bool, used: nat, outcome: Outcome)
    requires e.read <= |f.bytes| && GoesOn(f, lag, e, until, polled)
    requires Result(f.bytes[..e.read], e.next, Turns(f, lag, e, until, polled), until, polled, used, outcome)
    ensures var next := AfterTurn(f, lag, e, until);
            var turns, later := Turns(f, lag, e, until, polled), Turns(f, lag, next, until, true);
            && 0 < used <= |turns| == |later| + 1
            && Result(f.bytes[..next.read], next.next, later, until, true, used - 1, outcome)
            && ReadAfter(f.bytes[..e.read], turns, used) == ReadAfter(f.bytes[..next.read], later, used - 1)
            && Hear(f, lag, e, until, polled) == Hear(f, lag, next, until, true)
            && (|| next.read > e.read
                || TimeLeft(until, next.clock) < TimeLeft(until, e.clock)
                || (!polled && TimeLeft(until, next.clock) == 0))
  {
    hide Scan, ReadAfter, BytesRead, Turns, Hear, FramesWithin, GoesOn, AfterTurn, EventError;
    var before, turns := f.bytes[..e.read], Turns(f, lag, e, until, polled);
    TurnsNext(f, lag, e, until, polled);
    HearGoesOn(f, lag, e, until, polled);
    Looks(before, e.next, turns, until, polled, used, outcome);
    ResultNext(before, e.next, turns, until, polled, used, outcome);
    ReadAfterFirst(before, turns, used);
  }

  lemma LastTurn(f: Incoming, lag: nat -> nat, e: Ear, until: int, polled: bool, used: nat, outcome: Outcome)
    requires e.read <= |f.bytes| && !GoesOn(f, lag, e, until, polled)
    requires Result(f.bytes[..e.read], e.next, Turns(f, lag, e, until, polled), until, polled, used, outcome)
    ensures used <= |Turns(f, lag, e, until, polled)|
    ensures var h := Hear(f, lag, e, until, polled);
            && (if h.code == 0 then outcome.Received? else outcome == Failed(h.code))
            && ReadAfter(f.bytes[..e.read], Turns(f, lag, e, until, polled), used) == f.bytes[..h.ear.read]
  {
    hide Scan, ReadAfter, BytesRead;
    var before, turns := f.bytes[..e.read], Turns(f, lag, e, until, polled);
    if e.next < FramesWithin(f, e.read) || (polled && Call(lag, e).clock >= until) {
      LooksNoMore(before, e.next, turns, until, polled, used, outcome);
    } else {
      LooksInVain(before, e.next, turns, until, polled, used, outcome);
    }
  }

  lemma TurnsNext(f: Incoming, lag: nat -> nat, e: Ear, until: int, polled: bool)
    requires e.read <= |f.bytes| && GoesOn(f, lag, e, until, polled)
    ensures |Scan(f.bytes[..e.read]).frames| <= e.next
    ensures var next, turns := AfterTurn(f, lag, e, until), Turns(f, lag, e, until, polled);
            && turns != [] && !(polled && turns[0].now >= until) && EventError(turns[0].event) == 0
            && turns[1..] == Turns(f, lag, next, until, true)
            && f.bytes[..e.read] + (if turns[0].event.Read? then turns[0].event.bytes else []) == f.bytes[..next.read]
  {
    hide Scan, EventError, InTimeOrder, AfterRead;
  }

  lemma FitsResult(before: seq<Byte>, delivered: seq<seq<Byte>>, turns: seq<Turn>, until: int, used: nat,
                   outcome: Outcome)
    requires used <= |turns| && FoundNothing(before, delivered, turns, used) && InTime(turns, used, until)
    requires outcome.Received? <==> |Scan(ReadAfter(before, turns, used)).frames| > |delivered|
    requires || NoFault(turns, used)
             || (0 < used && NoFault(turns, used - 1) && outcome == Failed(EventError(turns[used - 1].event)))
    requires outcome.Failed? ==> outcome.code < 0
    requires outcome == Failed(ERR_TIMEOUT) ==> 0 < used < |turns| && turns[used].now >= until
    requires outcome.Failed? && outcome.code != ERR_TIMEOUT ==>
               used > 0 && outcome.code == EventError(turns[used - 1].event)
    requires outcome.StillWaiting? ==> used == |turns|
    ensures Result(before, |delivered|, turns, until, false, used, outcome)
  {
    hide Scan, ReadAfter, EventError;
  }

  /** The connection has read and delivered what `e` says. */
  ghost predicate Stands(connection: AmlConnection, f: Incoming, e: Ear)
    reads connection
  {
    && e.read <= |f.bytes| && connection.received == f.bytes[..e.read]
    && e.next <= |Frames(f)| && connection.delivered == Frames(f)[..e.next]
  }

  /**
   * aml_receive on the socket: what a connection that has read the first `e.read` bytes and delivered the first
   * `e.next` frames returns, reads and delivers is what Reception.Receive says.
   */
  method ReceiveOn(connection: AmlConnection, output: array<Byte>, timeoutMs: nat, f: Incoming, lag: nat -> nat,
                   ghost e: Ear, start: int, turns: seq<Turn>)
    returns (code: int, length: nat)
    requires connection.Valid() && connection.open && output != connection.parser.data && output.Length >= MAX_FRAME_SIZE
    requires Stands(connection, f, e)
    requires start == Call(lag, e).clock && turns == Turns(f, lag, Call(lag, e), start + timeoutMs, false)
    modifies connection`received, connection`delivered, connection.parser, connection.parser.data, output
    ensures connection.Valid()
    ensures var h := Receive(f, lag, e, timeoutMs);
            && code == h.code && Stands(connection, f, h.ear)
    ensures code == 0 ==> e.next < |Frames(f)| && length <= output.Length && output[..length] == Frames(f)[e.next]
  {
    hide Scan, ReadAfter, FoundNothing, NoFault, InTime, Hear, Turns;
    ghost var before, ear := connection.received, Call(lag, e);
    CompleteGrows(f, e.read, |f.bytes|);
    var outcome;
    ghost var used;
    outcome, used := connection.Receive(output, timeoutMs, start, turns);
    assert |Scan(connection.received).frames| >= |connection.delivered|;
    FitsResult(before, old(connection.delivered), turns, start + timeoutMs, used, outcome);
    ResultIsHeard(f, lag, ear, start + timeoutMs, false, used, outcome);
    CompleteGrows(f, Receive(f, lag, e, timeoutMs).ear.read, |f.bytes|);
    match outcome
    case Received(size) => return 0, size;
    case Failed(error) => return error, 0;
  }
}

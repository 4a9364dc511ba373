/**
 * Receiving frames from a socket whose bytes come in at given times: aml_receive (src/aml/transport.c), and the
 * looks before a request and the wait for its reply (src/core/sweetdawn.c), as functions of these times. The
 * methods of Socket.dfy and Link.dfy compute them.
 */
module Reception {
  import opened Common
  import opened Protocol
  import opened Transport

  /** The longest wait asked of one poll. */
  const MAX_WAIT_MS := 1000000

  // ---------------------------------------------------------------------
  // What comes in
  // ---------------------------------------------------------------------

  /** How a loss shows: poll or recv fails, poll reports an error, or recv says that the peer has closed. */
  type LossForm = e: SocketEvent | e.PollFailed? || e.LinkInError? || e.PeerClosed? || e.ReadFailed? witness PeerClosed

  datatype Loss = Loss(time: int, form: LossForm)

  /** What aml_receive then reports: a lost link, unless a call failed for another reason. */
  function LossCode(form: LossForm): (code: int)
    ensures code == ERR_DISCONNECTED || code == ERR_IO
  {
    if form.PollFailed? || form == ReadFailed(false) then ERR_IO else ERR_DISCONNECTED
  }

  /** The bytes that come in on a connection, when each is there to be read, and when the link is lost, if ever. */
  datatype Feed = Feed(bytes: seq<Byte>, times: seq<int>, lost: Option<Loss>)

  predicate InTimeOrder(f: Feed) {
    && |f.times| == |f.bytes|
    && (forall i, j :: 0 <= i <= j < |f.times| ==> f.times[i] <= f.times[j])
    && (f.lost.Some? ==> forall i :: 0 <= i < |f.times| ==> f.times[i] <= f.lost.value.time)
  }

  type Incoming = f: Feed | InTimeOrder(f) witness Feed([], [], None)

  /** The frames that come in. */
  function Frames(f: Feed): seq<seq<Byte>> {
    Scan(f.bytes).frames
  }

  /** How many of them can be extracted from the first `n` bytes. */
  function FramesWithin(f: Feed, n: nat): nat
    requires n <= |f.bytes|
  {
    |Scan(f.bytes[..n]).frames|
  }

  lemma CompleteGrows(f: Feed, n: nat, m: nat)
    requires n <= m <= |f.bytes|
    ensures FramesWithin(f, n) <= FramesWithin(f, m) <= |Frames(f)|
    ensures Scan(f.bytes[..n]).frames == Frames(f)[..FramesWithin(f, n)]
  {
    hide Scan;
    ScanSplits(f.bytes[..n], f.bytes[n..m]);
    assert f.bytes[..n] + f.bytes[n..m] == f.bytes[..m];
    ScanSplits(f.bytes[..m], f.bytes[m..]);
    assert f.bytes[..m] + f.bytes[m..] == f.bytes;
    ScanSplits(f.bytes[..n], f.bytes[n..]);
    assert f.bytes[..n] + f.bytes[n..] == f.bytes;
  }

  lemma AllComplete(f: Feed)
    ensures FramesWithin(f, |f.bytes|) == |Frames(f)| && FramesWithin(f, 0) == 0
  {
    assert f.bytes[..|f.bytes|] == f.bytes;
    NothingToScan();
  }

  /** The number of bytes, `n` or more, after which frame number `k` can be extracted. */
  function EndFrom(f: Feed, k: nat, n: nat): (end: nat)
    requires n <= |f.bytes| && k < |Frames(f)|
    ensures n <= end <= |f.bytes| && FramesWithin(f, end) > k
    ensures forall m :: n <= m < end ==> FramesWithin(f, m) <= k
    decreases |f.bytes| - n
  {
    AllComplete(f);
    if FramesWithin(f, n) > k then n else EndFrom(f, k, n + 1)
  }

  function End(f: Feed, k: nat): (end: nat)
    requires k < |Frames(f)|
    ensures 0 < end <= |f.bytes|
  {
    AllComplete(f);
    EndFrom(f, k, 0)
  }

  /** When frame number `k` has come in. */
  function Time(f: Incoming, k: nat): int
    requires k < |Frames(f)|
  {
    f.times[End(f, k) - 1]
  }

  lemma EndIsLeast(f: Feed, k: nat, n: nat)
    requires k < |Frames(f)| && n <= |f.bytes|
    ensures End(f, k) <= n <==> k < FramesWithin(f, n)
  {
    hide FramesWithin, Frames;
    if End(f, k) <= n {
      CompleteGrows(f, End(f, k), n);
    }
  }

  lemma TimesInOrder(f: Incoming, k: nat, r: nat)
    requires k <= r < |Frames(f)|
    ensures Time(f, k) <= Time(f, r)
  {
    hide Frames, FramesWithin;
    EndIsLeast(f, k, End(f, r));
  }

  // ---------------------------------------------------------------------
  // aml_receive
  // ---------------------------------------------------------------------

  /**
   * Where reception stands: the clock, the system calls made so far, the bytes read from the connection and the
   * frames taken from them; and when the socket was last looked at, and how many bytes that gave.
   */
  datatype Ear = Ear(clock: int, calls: nat, read: nat, next: nat, looked: int, taken: nat)

  datatype Heard = Heard(ear: Ear, code: int)

  function Later(t: int, u: int): int {
    if t < u then u else t
  }

  function TimeLeft(until: int, clock: int): nat {
    if until > clock then until - clock else 0
  }

  /** A system call: some time passes before it, `lag` says how much. */
  function Call(lag: nat -> nat, e: Ear): Ear {
    e.(clock := e.clock + lag(e.calls), calls := e.calls + 1)
  }

  /** How many bytes recv gives at time `t`: those that are there, at most `room`. */
  function Gulp(f: Feed, from: nat, t: int, room: nat): (n: nat)
    requires |f.times| == |f.bytes| && from <= |f.bytes|
    ensures n <= room && from + n <= |f.bytes|
    ensures n < room && from + n < |f.bytes| ==> f.times[from + n] > t
    ensures forall i :: from <= i < from + n ==> f.times[i] <= t
    decreases room
  {
    if room > 0 && from < |f.bytes| && f.times[from] <= t then 1 + Gulp(f, from + 1, t, room - 1) else 0
  }

  /** When the socket next has something to say, if ever. */
  function NextTime(f: Incoming, read: nat): Option<int>
    requires read <= |f.bytes|
  {
    if read < |f.bytes| then Some(f.times[read])
    else if f.lost.Some? then Some(f.lost.value.time)
    else None
  }

  /** Until when one poll waits. */
  function PollEnd(clock: int, until: int): int {
    if until <= clock then clock
    else if until - clock > MAX_WAIT_MS then clock + MAX_WAIT_MS
    else until
  }

  /** poll says that there is something to read, and recv reads it. */
  function AfterRead(f: Incoming, lag: nat -> nat, e: Ear): (r: Ear)
    requires e.read < |f.bytes|
    ensures e.read < r.read <= |f.bytes| && r.next == e.next && r.clock >= e.clock && r.clock >= f.times[e.read]
    ensures r.looked == r.clock && r.taken == r.read - e.read <= RX_BUFFER_SIZE
    ensures forall i :: e.read <= i < r.read ==> f.times[i] <= r.clock
    ensures r.taken < RX_BUFFER_SIZE && r.read < |f.bytes| ==> f.times[r.read] > r.looked
  {
    var there := Call(lag, e.(clock := Later(e.clock, f.times[e.read])));
    var n := Gulp(f, e.read, there.clock, RX_BUFFER_SIZE);
    there.(read := e.read + n, looked := there.clock, taken := n)
  }

  function AfterPoll(e: Ear, end: int): Ear {
    e.(clock := end, looked := end, taken := 0)
  }

  /**
   * The loop of aml_receive, with a buffer that holds any frame: until time `until`, but at least one look at the
   * socket unless one was made (`polled`).
   */
  function Hear(f: Incoming, lag: nat -> nat, e: Ear, until: int, polled: bool): (h: Heard)
    requires e.read <= |f.bytes|
    ensures e.read <= h.ear.read <= |f.bytes| && h.ear.clock >= e.clock
    ensures h.code == 0 || h.code == ERR_TIMEOUT || h.code == ERR_DISCONNECTED || h.code == ERR_IO
    ensures h.ear.next == e.next + if h.code == 0 then 1 else 0
    ensures h.code == 0 <==> e.next < FramesWithin(f, h.ear.read)
    ensures h.code == 0 ==> e.next < |Frames(f)|
    ensures h.code == ERR_TIMEOUT ==> h.ear.clock >= until
    decreases |f.bytes| - e.read, TimeLeft(until, e.clock), if polled then 0 else 1
  {
    if e.next < FramesWithin(f, e.read) then
      CompleteGrows(f, e.read, e.read);
      Heard(e.(next := e.next + 1), 0)
    else
      var c := Call(lag, e);
      if polled && c.clock >= until then Heard(c, ERR_TIMEOUT)
      else
        var end, time := PollEnd(c.clock, until), NextTime(f, e.read);
        if time.None? || time.value > end then Hear(f, lag, AfterPoll(c, end), until, true)
        else if e.read < |f.bytes| then Hear(f, lag, AfterRead(f, lag, c), until, true)
        else Heard(c.(clock := Later(c.clock, f.lost.value.time)), LossCode(f.lost.value.form))
  }

  /** One call of aml_receive; its first system call reads the clock. */
  function Receive(f: Incoming, lag: nat -> nat, e: Ear, timeoutMs: nat): (h: Heard)
    requires e.read <= |f.bytes|
    ensures e.read <= h.ear.read <= |f.bytes| && h.ear.clock >= e.clock
    ensures h.code == 0 || h.code == ERR_TIMEOUT || h.code == ERR_DISCONNECTED || h.code == ERR_IO
    ensures h.ear.next == e.next + if h.code == 0 then 1 else 0
    ensures h.code == 0 ==> e.next < |Frames(f)|
    ensures h.code == ERR_TIMEOUT ==> h.ear.clock >= e.clock + timeoutMs
  {
    Hear(f, lag, Call(lag, e), Call(lag, e).clock + timeoutMs, false)
  }

  // ---------------------------------------------------------------------
  // The looks before a request (lire_evenements)
  // ---------------------------------------------------------------------

  /** The frames taken are among those that can be extracted from the bytes read. */
  predicate Sound(f: Feed, e: Ear) {
    e.read <= |f.bytes| && e.next <= FramesWithin(f, e.read)
  }

  /** At most `n` looks, without waiting: as long as each gives a frame, and no fault is met. */
  function Early(f: Incoming, lag: nat -> nat, e: Ear, n: nat): (h: Heard)
    requires e.read <= |f.bytes|
    ensures e.read <= h.ear.read <= |f.bytes| && e.next <= h.ear.next <= e.next + n && h.ear.clock >= e.clock
    ensures h.code == 0 || h.code == ERR_DISCONNECTED || h.code == ERR_IO
    ensures e.next <= |Frames(f)| ==> h.ear.next <= |Frames(f)|
    decreases n
  {
    if n == 0 then Heard(e, 0)
    else
      var h := Receive(f, lag, e, 0);
      if h.code == ERR_TIMEOUT then Heard(h.ear, 0)
      else if h.code != 0 then h
      else Early(f, lag, h.ear, n - 1)
  }

  lemma EarlyTurn(f: Incoming, lag: nat -> nat, e: Ear, n: nat)
    requires e.read <= |f.bytes| && n > 0
    ensures var h := Receive(f, lag, e, 0);
            Early(f, lag, e, n) ==
              if h.code == 0 then Early(f, lag, h.ear, n - 1)
              else Heard(h.ear, if h.code == ERR_TIMEOUT then 0 else h.code)
  {
    hide Frames, FramesWithin, Receive;
  }

  lemma NoLooks(f: Incoming, lag: nat -> nat, e: Ear)
    requires e.read <= |f.bytes|
    ensures Early(f, lag, e, 0) == Heard(e, 0)
  {
  }

  /** After a look that gives no frame: what was read holds none, and what was not was not there or is behind 256 bytes. */
  predicate FoundNone(f: Incoming, e: Ear, since: int) {
    && e.read <= |f.bytes| && FramesWithin(f, e.read) <= e.next
    && since <= e.looked <= e.clock && e.taken <= RX_BUFFER_SIZE
    && (e.taken < RX_BUFFER_SIZE && e.read < |f.bytes| ==> f.times[e.read] > e.looked)
  }

  lemma WithinFrames(f: Feed, e: Ear)
    requires Sound(f, e)
    ensures e.next <= |Frames(f)|
  {
    CompleteGrows(f, e.read, e.read);
  }

  lemma LookFindsNone(f: Incoming, lag: nat -> nat, e: Ear)
    requires e.read <= |f.bytes| && Receive(f, lag, e, 0).code == ERR_TIMEOUT
    ensures FoundNone(f, Receive(f, lag, e, 0).ear, e.clock)
  {
    hide FramesWithin, Frames;
    var s := Call(lag, e);
    var c := Call(lag, s);
    var time := NextTime(f, e.read);
    if time.None? || time.value > c.clock {
      assert Hear(f, lag, s, s.clock, false) == Hear(f, lag, AfterPoll(c, c.clock), s.clock, true);
    } else if e.read < |f.bytes| {
      assert Hear(f, lag, s, s.clock, false) == Hear(f, lag, AfterRead(f, lag, c), s.clock, true);
    }
  }

  /** Unless all `n` looks give a frame or a fault is met, the last one finds none. */
  lemma {:induction false} EarlyEnds(f: Incoming, lag: nat -> nat, e: Ear, n: nat)
    requires Sound(f, e)
    ensures var h := Early(f, lag, e, n);
            && Sound(f, h.ear)
            && (h.code == 0 && h.ear.next < e.next + n ==> FoundNone(f, h.ear, e.clock))
    decreases n
  {
    hide FramesWithin, Frames, Receive, FoundNone;
    if n > 0 {
      ReceiveSound(f, lag, e, 0);
      var h := Receive(f, lag, e, 0);
      if h.code == ERR_TIMEOUT {
        LookFindsNone(f, lag, e);
      } else if h.code == 0 {
        EarlyEnds(f, lag, h.ear, n - 1);
        NoneSince(f, Early(f, lag, e, n).ear, h.ear.clock, e.clock);
      }
    }
  }

  lemma NoneSince(f: Incoming, e: Ear, later: int, since: int)
    requires since <= later
    ensures FoundNone(f, e, later) ==> FoundNone(f, e, since)
  {
  }

  lemma ReceiveSound(f: Incoming, lag: nat -> nat, e: Ear, timeoutMs: nat)
    requires Sound(f, e)
    ensures var h := Receive(f, lag, e, timeoutMs);
            && Sound(f, h.ear) && e.clock <= h.ear.clock && h.ear.next == e.next + (if h.code == 0 then 1 else 0)
  {
    CompleteGrows(f, e.read, Receive(f, lag, e, timeoutMs).ear.read);
  }

  // ---------------------------------------------------------------------
  // The wait for a reply (envoyer_requete)
  // ---------------------------------------------------------------------

  /** The test of envoyer_requete. */
  predicate IsReply(frame: seq<Byte>, code: Byte) {
    |frame| > CODE_OFFSET && frame[2] == TYPE_RESPONSE && frame[CODE_OFFSET] == code
  }

  /** The loop: receives until the reply comes, an error occurs or the deadline is found to have passed. */
  function Await(f: Incoming, lag: nat -> nat, e: Ear, deadline: int, code: Byte): (h: Heard)
    requires e.read <= |f.bytes|
    ensures e.read <= h.ear.read <= |f.bytes| && h.ear.next >= e.next && h.ear.clock >= e.clock
    ensures h.code == 0 || h.code == ERR_TIMEOUT || h.code == ERR_DISCONNECTED || h.code == ERR_IO
    ensures h.ear.next == e.next || h.ear.next <= |Frames(f)|
    ensures h.code == 0 ==> e.next < h.ear.next
    ensures h.code == ERR_TIMEOUT ==> h.ear.clock >= deadline
    decreases |Frames(f)| - e.next
  {
    var c := Call(lag, e);
    if deadline - c.clock <= 0 then Heard(c, ERR_TIMEOUT)
    else
      var h := Receive(f, lag, c, deadline - c.clock);
      if h.code != 0 || IsReply(Frames(f)[e.next], code) then h
      else Await(f, lag, h.ear, deadline, code)
  }

  lemma WaitTurn(f: Incoming, lag: nat -> nat, e: Ear, deadline: int, code: Byte)
    requires e.read <= |f.bytes|
    ensures var c := Call(lag, e);
            Await(f, lag, e, deadline, code) ==
              if deadline - c.clock <= 0 then Heard(c, ERR_TIMEOUT)
              else
                var h := Receive(f, lag, c, deadline - c.clock);
                if h.code != 0 || IsReply(Frames(f)[e.next], code) then h else Await(f, lag, h.ear, deadline, code)
  {
    hide Frames, FramesWithin, Receive, IsReply;
  }

  // What the loop would do without a deadline, and when that is in time.

  /** A turn of the loop of aml_receive without a deadline. */
  function PatientTurn(f: Incoming, lag: nat -> nat, e: Ear): (r: Ear)
    requires e.read < |f.bytes|
    ensures e.read <= r.read <= |f.bytes| && r.next == e.next && r.clock >= Call(lag, e).clock
    ensures r.read > e.read || f.times[r.read] > r.clock > e.clock
  {
    var c := Call(lag, e);
    if f.times[e.read] > c.clock + MAX_WAIT_MS then AfterPoll(c, c.clock + MAX_WAIT_MS) else AfterRead(f, lag, c)
  }

  /** Reads until frame number `k` can be extracted, however long it takes. */
  function Gather(f: Incoming, lag: nat -> nat, e: Ear, k: nat): (r: Ear)
    requires e.read <= |f.bytes| && k < |Frames(f)|
    ensures e.read <= r.read <= |f.bytes| && r.next == e.next && r.clock >= e.clock && k < FramesWithin(f, r.read)
    decreases |f.bytes| - e.read,
              if e.read < |f.bytes| then TimeLeft(f.times[e.read], e.clock) else 0
  {
    AllComplete(f);
    if k < FramesWithin(f, e.read) then e else Gather(f, lag, PatientTurn(f, lag, e), k)
  }

  /**
   * A loop of aml_receive that ends at time `until` reads frame number `k`: whenever it has to look at the socket,
   * either it has not looked yet or the time is not over, and what it waits for comes within the time or is there.
   */
  predicate ReadInTime(f: Incoming, lag: nat -> nat, e: Ear, k: nat, until: int, polled: bool)
    requires e.read <= |f.bytes| && k < |Frames(f)|
    decreases |f.bytes| - e.read,
              if e.read < |f.bytes| then TimeLeft(f.times[e.read], e.clock) else 0
  {
    AllComplete(f);
    || k < FramesWithin(f, e.read)
    || (&& !(polled && Call(lag, e).clock >= until)
        && f.times[e.read] <= Later(Call(lag, e).clock, until)
        && ReadInTime(f, lag, PatientTurn(f, lag, e), k, until, true))
  }

  /** Where the loop of aml_receive stands after a turn that does not end it. */
  function AfterTurn(f: Incoming, lag: nat -> nat, e: Ear, until: int): (next: Ear)
    requires e.read <= |f.bytes|
    ensures e.read <= next.read <= |f.bytes| && next.next == e.next && next.clock >= e.clock
  {
    var c := Call(lag, e);
    var end, time := PollEnd(c.clock, until), NextTime(f, e.read);
    if time.None? || time.value > end || e.read == |f.bytes| then AfterPoll(c, end) else AfterRead(f, lag, c)
  }

  /** It goes on after this turn. */
  predicate GoesOn(f: Incoming, lag: nat -> nat, e: Ear, until: int, polled: bool)
    requires e.read <= |f.bytes|
  {
    var c := Call(lag, e);
    var end, time := PollEnd(c.clock, until), NextTime(f, e.read);
    && e.next >= FramesWithin(f, e.read) && !(polled && c.clock >= until)
    && (time.None? || time.value > end || e.read < |f.bytes|)
  }

  lemma HearGoesOn(f: Incoming, lag: nat -> nat, e: Ear, until: int, polled: bool)
    requires e.read <= |f.bytes| && GoesOn(f, lag, e, until, polled)
    ensures var next := AfterTurn(f, lag, e, until);
            && Hear(f, lag, e, until, polled) == Hear(f, lag, next, until, true)
            && (|| next.read > e.read
                || TimeLeft(until, next.clock) < TimeLeft(until, e.clock)
                || (!polled && next.clock >= until))
  {
    hide FramesWithin, Frames;
  }

  lemma HearEnds(f: Incoming, lag: nat -> nat, e: Ear, until: int, polled: bool)
    requires Sound(f, e) && !GoesOn(f, lag, e, until, polled)
    ensures var h := Hear(f, lag, e, until, polled);
            && (h.code == 0 <==> e.next < FramesWithin(f, e.read))
            && (h.code == 0 ==> h.ear == e.(next := e.next + 1))
  {
    hide FramesWithin, Frames;
  }

  /** Either the turn is one of reading frame number `k`, or its poll has used up the time. */
  lemma TurnReads(f: Incoming, lag: nat -> nat, e: Ear, k: nat, until: int, polled: bool)
    requires e.read <= |f.bytes| && k < |Frames(f)| && k == e.next && GoesOn(f, lag, e, until, polled)
    ensures var next := AfterTurn(f, lag, e, until);
            || (&& Gather(f, lag, e, k) == Gather(f, lag, next, k)
                && ReadInTime(f, lag, e, k, until, polled) == ReadInTime(f, lag, next, k, until, true))
            || (!ReadInTime(f, lag, e, k, until, polled) && !ReadInTime(f, lag, next, k, until, true))
  {
    hide FramesWithin, Frames, Gather, ReadInTime, AfterRead;
    AllComplete(f);
    var next := AfterTurn(f, lag, e, until);
    Unfold(f, lag, e, k, until, polled);
    if next.read == e.read {
      Unfold(f, lag, next, k, until, true);
    }
  }

  lemma Unfold(f: Incoming, lag: nat -> nat, e: Ear, k: nat, until: int, polled: bool)
    requires e.read < |f.bytes| && k < |Frames(f)| && k >= FramesWithin(f, e.read)
    ensures Gather(f, lag, e, k) == Gather(f, lag, PatientTurn(f, lag, e), k)
    ensures ReadInTime(f, lag, e, k, until, polled) <==>
              && !(polled && Call(lag, e).clock >= until)
              && f.times[e.read] <= Later(Call(lag, e).clock, until)
              && ReadInTime(f, lag, PatientTurn(f, lag, e), k, until, true)
  {
    hide FramesWithin, Frames, AfterRead;
  }

  /** aml_receive returns a frame exactly if it can read the next one in time; it has then read no more than needed. */
  lemma {:induction false} HearGathers(f: Incoming, lag: nat -> nat, e: Ear, until: int, polled: bool)
    requires Sound(f, e)
    ensures Hear(f, lag, e, until, polled).code == 0 <==>
              e.next < |Frames(f)| && ReadInTime(f, lag, e, e.next, until, polled)
    ensures Hear(f, lag, e, until, polled).code == 0 ==>
              Hear(f, lag, e, until, polled).ear == Gather(f, lag, e, e.next).(next := e.next + 1)
    decreases |f.bytes| - e.read, TimeLeft(until, e.clock), if polled then 0 else 1
  {
    hide FramesWithin, Frames, GoesOn, AfterTurn, Hear;
    CompleteGrows(f, e.read, |f.bytes|);
    if GoesOn(f, lag, e, until, polled) {
      hide Gather, ReadInTime;
      var next := AfterTurn(f, lag, e, until);
      HearGoesOn(f, lag, e, until, polled);
      CompleteGrows(f, e.read, next.read);
      HearGathers(f, lag, next, until, true);
      if e.next < |Frames(f)| {
        TurnReads(f, lag, e, e.next, until, polled);
      }
    } else {
      HearEnds(f, lag, e, until, polled);
      if e.next < |Frames(f)| {
        NotRead(f, lag, e, until, polled);
      }
    }
  }

  lemma NotRead(f: Incoming, lag: nat -> nat, e: Ear, until: int, polled: bool)
    requires Sound(f, e) && !GoesOn(f, lag, e, until, polled) && e.next < |Frames(f)|
    ensures ReadInTime(f, lag, e, e.next, until, polled) <==> e.next < FramesWithin(f, e.read)
  {
    hide FramesWithin, Frames;
    AllComplete(f);
  }

  /** Reading that ends before time `until` is in time. */
  lemma {:induction false} GatheredInTime(f: Incoming, lag: nat -> nat, e: Ear, k: nat, until: int, polled: bool)
    requires e.read <= |f.bytes| && k < |Frames(f)| && Gather(f, lag, e, k).clock < until
    ensures ReadInTime(f, lag, e, k, until, polled)
    decreases |f.bytes| - e.read,
              if e.read < |f.bytes| then TimeLeft(f.times[e.read], e.clock) else 0
  {
    hide FramesWithin, Frames;
    AllComplete(f);
    if k >= FramesWithin(f, e.read) {
      GatheredInTime(f, lag, PatientTurn(f, lag, e), k, until, true);
      GatherIsLater(f, lag, e, k);
    }
  }

  lemma GatherIsLater(f: Incoming, lag: nat -> nat, e: Ear, k: nat)
    requires e.read < |f.bytes| && k < |Frames(f)| && k >= FramesWithin(f, e.read)
    ensures Gather(f, lag, e, k).clock >= Call(lag, e).clock && Gather(f, lag, e, k).clock >= f.times[e.read]
    decreases |f.bytes| - e.read, TimeLeft(f.times[e.read], e.clock)
  {
    hide FramesWithin, Frames;
    var next := PatientTurn(f, lag, e);
    if next.read == e.read {
      GatherIsLater(f, lag, next, k);
    }
  }

  /** One turn of the waiting loop, without a deadline: two readings of the clock, then the next frame is read. */
  function TakeNext(f: Incoming, lag: nat -> nat, e: Ear): (r: Ear)
    requires e.read <= |f.bytes| && e.next < |Frames(f)|
    ensures e.read <= r.read <= |f.bytes| && r.next == e.next + 1 && r.clock >= Call(lag, e).clock
  {
    Gather(f, lag, Call(lag, Call(lag, e)), e.next).(next := e.next + 1)
  }

  /** Where reception stands when the loop gets to frame number `r`. */
  function Before(f: Incoming, lag: nat -> nat, e: Ear, r: nat): (b: Ear)
    requires e.read <= |f.bytes| && e.next <= r <= |Frames(f)|
    ensures e.read <= b.read <= |f.bytes| && b.next == r && b.clock >= e.clock
    decreases r - e.next
  {
    if r == e.next then e else Before(f, lag, TakeNext(f, lag, e), r)
  }

  /** The next frame is read in the time left, counted from the second reading of the clock. */
  predicate NextInTime(f: Incoming, lag: nat -> nat, e: Ear, deadline: int)
    requires e.read <= |f.bytes| && e.next < |Frames(f)|
  {
    var c := Call(lag, e);
    var s := Call(lag, c);
    ReadInTime(f, lag, s, e.next, s.clock + (deadline - c.clock), false)
  }

  /**
   * Frame number `r` is the reply, and in time: it is the first match, the loop gets to it before the deadline, and
   * then reads it in the time left.
   */
  predicate Answers(f: Incoming, lag: nat -> nat, e: Ear, deadline: int, code: Byte, r: int)
    requires e.read <= |f.bytes|
  {
    && e.next <= r < |Frames(f)| && IsReply(Frames(f)[r], code)
    && (forall k :: e.next <= k < r ==> !IsReply(Frames(f)[k], code))
    && var b := Before(f, lag, e, r);
       Call(lag, b).clock < deadline && NextInTime(f, lag, b, deadline)
  }

  lemma AnswersFirst(f: Incoming, lag: nat -> nat, e: Ear, deadline: int, code: Byte)
    requires e.read <= |f.bytes|
    ensures Answers(f, lag, e, deadline, code, e.next) <==>
              && e.next < |Frames(f)| && IsReply(Frames(f)[e.next], code)
              && Call(lag, e).clock < deadline && NextInTime(f, lag, e, deadline)
  {
    hide FramesWithin, Frames, IsReply, ReadInTime;
  }

  lemma AnswersLater(f: Incoming, lag: nat -> nat, e: Ear, deadline: int, code: Byte, r: int)
    requires e.read <= |f.bytes| && e.next < |Frames(f)| && r != e.next
    ensures Answers(f, lag, e, deadline, code, r) <==>
              !IsReply(Frames(f)[e.next], code) && Answers(f, lag, TakeNext(f, lag, e), deadline, code, r)
    ensures Answers(f, lag, e, deadline, code, r) ==> TakeNext(f, lag, e).clock < deadline
  {
    hide FramesWithin, Frames, IsReply, ReadInTime, TakeNext;
    if e.next < r <= |Frames(f)| {
      assert Before(f, lag, e, r) == Before(f, lag, TakeNext(f, lag, e), r);
    }
  }

  /** The loop succeeds exactly if some frame is the reply in time, and with that frame. */
  lemma {:induction false} AwaitSucceeds(f: Incoming, lag: nat -> nat, e: Ear, deadline: int, code: Byte, r: int)
    requires Sound(f, e)
    ensures var h := Await(f, lag, e, deadline, code);
            h.code == 0 && h.ear.next == r + 1 <==> Answers(f, lag, e, deadline, code, r)
    decreases |Frames(f)| - e.next
  {
    hide FramesWithin, Frames, IsReply, Gather, ReadInTime, Answers, TakeNext, Await, Call;
    CompleteGrows(f, e.read, |f.bytes|);
    if e.next == |Frames(f)| {
      NoneLeft(f, lag, e, deadline, code, r);
    } else {
      AwaitTurn(f, lag, e, deadline, code);
      AnswersFirst(f, lag, e, deadline, code);
      if r != e.next {
        AnswersLater(f, lag, e, deadline, code, r);
      }
      if Call(lag, e).clock < deadline && NextInTime(f, lag, e, deadline) && !IsReply(Frames(f)[e.next], code) {
        AwaitSucceeds(f, lag, TakeNext(f, lag, e), deadline, code, r);
      }
    }
  }

  lemma AwaitTurn(f: Incoming, lag: nat -> nat, e: Ear, deadline: int, code: Byte)
    requires Sound(f, e) && e.next < |Frames(f)|
    ensures var h, c := Await(f, lag, e, deadline, code), Call(lag, e);
            if c.clock < deadline && NextInTime(f, lag, e, deadline) then
              && Sound(f, TakeNext(f, lag, e))
              && h == if IsReply(Frames(f)[e.next], code) then Heard(TakeNext(f, lag, e), 0)
                      else Await(f, lag, TakeNext(f, lag, e), deadline, code)
            else h.code != 0 && TakeNext(f, lag, e).clock >= deadline
  {
    hide FramesWithin, Frames, IsReply, ReadInTime, TakeNext, Receive;
    TakesNext(f, lag, e, deadline);
    var c := Call(lag, e);
    if c.clock < deadline {
      ReceiveSound(f, lag, c, deadline - c.clock);
    }
  }

  lemma NoneLeft(f: Incoming, lag: nat -> nat, e: Ear, deadline: int, code: Byte, r: int)
    requires Sound(f, e) && e.next == |Frames(f)|
    ensures Await(f, lag, e, deadline, code).code != 0 && !Answers(f, lag, e, deadline, code, r)
  {
    hide FramesWithin, Frames, IsReply, Hear;
  }

  /** A turn takes the next frame exactly if it is read in time, and surely if without a deadline it would be before. */
  lemma TakesNext(f: Incoming, lag: nat -> nat, e: Ear, deadline: int)
    requires Sound(f, e) && e.next < |Frames(f)|
    ensures var c := Call(lag, e);
            deadline > c.clock ==>
              var h := Receive(f, lag, c, deadline - c.clock);
              && (h.code == 0 <==> NextInTime(f, lag, e, deadline))
              && (h.code == 0 ==> h.ear == TakeNext(f, lag, e))
              && (TakeNext(f, lag, e).clock < deadline ==> h.code == 0)
  {
    hide FramesWithin, Frames, Hear, Gather, ReadInTime;
    var c := Call(lag, e);
    var s := Call(lag, c);
    var until := s.clock + (deadline - c.clock);
    HearGathers(f, lag, s, until, false);
    if Gather(f, lag, s, e.next).clock < until {
      GatheredInTime(f, lag, s, e.next, until, false);
    }
  }

  /** If without a deadline the first match would have been read before it, that frame is the reply in time. */
  lemma SoonEnough(f: Incoming, lag: nat -> nat, e: Ear, deadline: int, code: Byte, r: nat)
    requires e.read <= |f.bytes| && e.next <= r < |Frames(f)| && IsReply(Frames(f)[r], code)
    requires forall k :: e.next <= k < r ==> !IsReply(Frames(f)[k], code)
    requires TakeNext(f, lag, Before(f, lag, e, r)).clock < deadline
    ensures Answers(f, lag, e, deadline, code, r)
  {
    hide FramesWithin, Frames, IsReply, Before, NextInTime, TakeNext;
    NextSoonEnough(f, lag, Before(f, lag, e, r), deadline);
  }

  lemma NextSoonEnough(f: Incoming, lag: nat -> nat, e: Ear, deadline: int)
    requires e.read <= |f.bytes| && e.next < |Frames(f)| && TakeNext(f, lag, e).clock < deadline
    ensures NextInTime(f, lag, e, deadline)
  {
    hide FramesWithin, Frames, Gather, ReadInTime;
    var c := Call(lag, e);
    var s := Call(lag, c);
    GatheredInTime(f, lag, s, e.next, s.clock + (deadline - c.clock), false);
  }

  // ---------------------------------------------------------------------
  // A request: at most 16 looks, sending, and the wait
  // ---------------------------------------------------------------------

  const MAX_EARLY_FRAMES := 16

  /** The wait for the reply to a request just sent; its deadline is set by a reading of the clock. */
  function Asked(f: Incoming, lag: nat -> nat, sent: Ear, delay: nat, code: Byte): Heard
    requires sent.read <= |f.bytes|
  {
    Await(f, lag, Call(lag, sent), Call(lag, sent).clock + delay, code)
  }

  lemma AskedLater(f: Incoming, lag: nat -> nat, sent: Ear, delay: nat, code: Byte)
    requires sent.read <= |f.bytes|
    ensures Asked(f, lag, sent, delay, code).ear.clock >= sent.clock
  {
  }

  lemma AskedReplies(f: Incoming, lag: nat -> nat, sent: Ear, delay: nat, code: Byte)
    requires Sound(f, sent)
    ensures var h := Asked(f, lag, sent, delay, code);
            && h.ear.clock >= sent.clock
            && (h.code == 0 ==> 0 < h.ear.next <= |Frames(f)| && IsReply(Frames(f)[h.ear.next - 1], code))
  {
    hide FramesWithin, Frames, Await, IsReply;
    var w := Call(lag, sent);
    AwaitEndsWithReply(f, lag, w, w.clock + delay, code);
    var h := Asked(f, lag, sent, delay, code);
    assert h.code == 0 ==> Answers(f, lag, w, w.clock + delay, code, h.ear.next - 1);
  }

  /** The whole exchange, if the request can be sent. */
  function Exchange(f: Incoming, lag: nat -> nat, e: Ear, delay: nat, code: Byte): (h: Heard)
    requires e.read <= |f.bytes|
  {
    var early := Early(f, lag, e, MAX_EARLY_FRAMES);
    if early.code != 0 then Heard(early.ear, ERR_DISCONNECTED) else Asked(f, lag, Call(lag, early.ear), delay, code)
  }

  /** The wait that starts at `e` ends with the reply in time, or there is none. */
  ghost predicate EndsWithReply(f: Incoming, lag: nat -> nat, e: Ear, deadline: int, code: Byte, h: Heard)
    requires e.read <= |f.bytes|
  {
    forall r :: h.code == 0 && h.ear.next == r + 1 <==> Answers(f, lag, e, deadline, code, r)
  }

  /** A frame with the code, number `from` or a later one, has come in by time `t`. */
  ghost predicate CameBy(f: Incoming, from: nat, t: int, code: Byte) {
    exists k :: from <= k < |Frames(f)| && IsReply(Frames(f)[k], code) && Time(f, k) <= t
  }

  /** It succeeds exactly if no fault is met before sending and the reply is in time among the frames not read early. */
  lemma ExchangeSucceeds(f: Incoming, lag: nat -> nat, e: Ear, delay: nat, code: Byte)
    requires Sound(f, e)
    ensures var early, h := Early(f, lag, e, MAX_EARLY_FRAMES), Exchange(f, lag, e, delay, code);
            var w := Call(lag, Call(lag, early.ear));
            && Sound(f, h.ear)
            && (h.code == 0 ==> early.code == 0)
            && (early.code == 0 ==> EndsWithReply(f, lag, w, w.clock + delay, code, h))
  {
    hide FramesWithin, Frames, Early, Await, Answers;
    EarlyEnds(f, lag, e, MAX_EARLY_FRAMES);
    var early := Early(f, lag, e, MAX_EARLY_FRAMES);
    var w := Call(lag, Call(lag, early.ear));
    if early.code == 0 {
      AwaitSound(f, lag, w, w.clock + delay, code);
      AwaitEndsWithReply(f, lag, w, w.clock + delay, code);
    }
  }

  lemma AwaitEndsWithReply(f: Incoming, lag: nat -> nat, e: Ear, deadline: int, code: Byte)
    requires Sound(f, e)
    ensures EndsWithReply(f, lag, e, deadline, code, Await(f, lag, e, deadline, code))
  {
    hide FramesWithin, Frames, Await, Answers;
    forall r
      ensures var h := Await(f, lag, e, deadline, code);
              h.code == 0 && h.ear.next == r + 1 <==> Answers(f, lag, e, deadline, code, r)
    {
      AwaitSucceeds(f, lag, e, deadline, code, r);
    }
  }

  lemma {:induction false} AwaitSound(f: Incoming, lag: nat -> nat, e: Ear, deadline: int, code: Byte)
    requires Sound(f, e)
    ensures Sound(f, Await(f, lag, e, deadline, code).ear)
    decreases |Frames(f)| - e.next
  {
    hide FramesWithin, Frames, Receive, IsReply;
    var c := Call(lag, e);
    if deadline > c.clock {
      ReceiveSound(f, lag, c, deadline - c.clock);
      var h := Receive(f, lag, c, deadline - c.clock);
      if h.code == 0 && !IsReply(Frames(f)[e.next], code) {
        AwaitSound(f, lag, h.ear, deadline, code);
      }
    }
  }

  /** When fewer than 16 frames are read early, these are exactly the frames that end within the bytes read. */
  lemma EarlyIsAll(f: Incoming, lag: nat -> nat, e: Ear, k: nat)
    requires Sound(f, e) && k < |Frames(f)|
    ensures var early := Early(f, lag, e, MAX_EARLY_FRAMES);
            early.code == 0 && early.ear.next < e.next + MAX_EARLY_FRAMES ==>
              (k < early.ear.next <==> End(f, k) <= early.ear.read)
  {
    hide FramesWithin, Frames, Early;
    EarlyEnds(f, lag, e, MAX_EARLY_FRAMES);
    EndIsLeast(f, k, Early(f, lag, e, MAX_EARLY_FRAMES).ear.read);
  }

  /**
   * How old the reply of a successful exchange can be. It was there at time t exactly if a frame with the code was,
   * and was not read early. It is newer than the last look before sending, unless 16 frames were read early or that
   * look read 256 bytes, and the reply ends behind them.
   */
  lemma ReplyAge(f: Incoming, lag: nat -> nat, e: Ear, delay: nat, code: Byte)
    requires Sound(f, e) && Exchange(f, lag, e, delay, code).code == 0
    ensures var early, r := Early(f, lag, e, MAX_EARLY_FRAMES).ear, Exchange(f, lag, e, delay, code).ear.next - 1;
            && early.next <= r < |Frames(f)| && IsReply(Frames(f)[r], code)
            && (forall t :: Time(f, r) <= t <==> CameBy(f, early.next, t, code))
            && e.clock <= early.clock
            && (Time(f, r) <= early.looked ==>
                  || early.next == e.next + MAX_EARLY_FRAMES
                  || (early.taken == RX_BUFFER_SIZE && early.read < End(f, r)))
  {
    hide FramesWithin, Frames, Early, IsReply, Exchange, NextInTime, Before, Time;
    ExchangeSucceeds(f, lag, e, delay, code);
    EarlyEnds(f, lag, e, MAX_EARLY_FRAMES);
    var early, r := Early(f, lag, e, MAX_EARLY_FRAMES).ear, Exchange(f, lag, e, delay, code).ear.next - 1;
    var w := Call(lag, Call(lag, early));
    assert Answers(f, lag, w, w.clock + delay, code, r);
    forall t ensures Time(f, r) <= t <==> CameBy(f, early.next, t, code) {
      if CameBy(f, early.next, t, code) {
        var k :| early.next <= k < |Frames(f)| && IsReply(Frames(f)[k], code) && Time(f, k) <= t;
        TimesInOrder(f, r, k);
      }
    }
    if early.next < e.next + MAX_EARLY_FRAMES {
      EarlyIsAll(f, lag, e, r);
      LeftUnread(f, early, e.clock, r);
    }
  }

  /** A frame that does not end within the bytes read comes in after a look that leaves nothing unread. */
  lemma LeftUnread(f: Incoming, e: Ear, since: int, r: nat)
    requires FoundNone(f, e, since) && r < |Frames(f)| && e.read < End(f, r)
    ensures e.taken < RX_BUFFER_SIZE ==> Time(f, r) > e.looked
  {
    hide FramesWithin, Frames;
    assert f.times[e.read] <= f.times[End(f, r) - 1];
  }

  // ---------------------------------------------------------------------
  // Two cases of the loop of aml_receive
  // ---------------------------------------------------------------------

  /** Nothing comes in before the time is over. */
  lemma HearTimesOut(f: Incoming, lag: nat -> nat, e: Ear, until: int)
    requires e.read < |f.bytes| && FramesWithin(f, e.read) <= e.next && f.times[e.read] > until
    requires Call(lag, e).clock <= until <= Call(lag, e).clock + MAX_WAIT_MS
    ensures Hear(f, lag, e, until, false) == Heard(Call(lag, AfterPoll(Call(lag, e), until)), ERR_TIMEOUT)
  {
    hide FramesWithin, Frames;
    assert Hear(f, lag, e, until, false) == Hear(f, lag, AfterPoll(Call(lag, e), until), until, true);
  }

  /** One read completes a frame, or uses up the time. */
  lemma HearReads(f: Incoming, lag: nat -> nat, e: Ear, until: int)
    requires e.read < |f.bytes| && FramesWithin(f, e.read) <= e.next
    requires f.times[e.read] <= PollEnd(Call(lag, e).clock, until)
    ensures var r := AfterRead(f, lag, Call(lag, e));
            && (e.next < FramesWithin(f, r.read) ==> Hear(f, lag, e, until, false) == Heard(r.(next := r.next + 1), 0))
            && (e.next >= FramesWithin(f, r.read) && Call(lag, r).clock >= until ==>
                  Hear(f, lag, e, until, false) == Heard(Call(lag, r), ERR_TIMEOUT))
  {
    hide FramesWithin, Frames;
    assert Hear(f, lag, e, until, false) == Hear(f, lag, AfterRead(f, lag, Call(lag, e)), until, true);
  }

  /** What is there is read up to the room there is. */
  lemma {:induction false} GulpAll(f: Feed, from: nat, t: int, room: nat, time: int)
    requires |f.times| == |f.bytes| && from <= |f.bytes| && time <= t
    requires forall i :: 0 <= i < |f.times| ==> f.times[i] == time
    ensures Gulp(f, from, t, room) == if room <= |f.bytes| - from then room else |f.bytes| - from
    decreases room
  {
    if room > 0 && from < |f.bytes| {
      GulpAll(f, from + 1, t, room - 1, time);
    }
  }
}

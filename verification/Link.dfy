/**
 * The link supervisor and the request/response matcher (src/core/sweetdawn.c). Bluetooth is a World: a clock that
 * never goes back, and for each connection the bytes that come in, with their times, received as Reception.dfy says.
 */
module Link {
  import opened Common
  import opened Protocol
  import opened Transport
  import opened Requests
  import opened Reception

  const RESPONSE_TIMEOUT_MS := 5000
  const REFRESH_INTERVAL_MS := 60000
  const REFRESH_RETRY_MS := 5000
  const BACKOFF_MIN_MS := 1000
  const BACKOFF_MAX_MS := 30000
  const MAX_FAILURES := 3

  /** est_evenement */
  const EVENT_CODES: set<Byte> :=
    {EVT_SUNRISE_START, EVT_ALARM_RING, EVT_LIGHT_REFRESH,
     EVT_LIGHT_TIMER_END, EVT_MOOD_TIMER_END, EVT_RADIO_TIMER_END, EVT_MUSIC_TIMER_END}

  /** The codes of the replies some command waits for (AML_RSP_* in src/aml/protocol.h). */
  const REPLY_CODES: set<Byte> :=
    {RSP_STATUS, RSP_SYNC_TIME, RSP_WRITE_SETTINGS, RSP_READ_SETTINGS,
     RSP_ALARM, RSP_ALARM_STATUS, RSP_ALARM_SNOOZE, RSP_ALARM_STOP, RSP_LIGHT_QUERY,
     RSP_RADIO_LIST, RSP_RADIO_QUERY, RSP_RADIO_ENABLE, RSP_RADIO_PRESET, RSP_RADIO_TUNE, RSP_RADIO_SAVE_PRESET,
     RSP_A2DP_STATUS, RSP_SPEAKER_ON, RSP_MUSIC_TIMER_ENABLE, RSP_MUSIC_QUERY}

  // ---------------------------------------------------------------------
  // The world outside
  // ---------------------------------------------------------------------

  class World {
    const lag: nat -> nat                      // time that passes before each system call
    const feeds: nat -> Incoming               // what comes in on each connection
    const sendCode: nat -> int                 // what each send returns
    const connectCode: nat -> int              // what each connection attempt returns
    var ear: Ear                               // the clock, and how far the present connection has been read
    var feed: Incoming                         // what comes in on it
    var outbox: seq<seq<Byte>>                 // the frames sent
    var sends: nat
    var attempts: nat

    ghost var log: seq<seq<Byte>>              // the frames received, on all connections

    ghost predicate Valid()
      reads this
    {
      Sound(feed, ear)
    }

    constructor (lag: nat -> nat, feeds: nat -> Incoming, sendCode: nat -> int, connectCode: nat -> int)
      ensures Valid() && log == [] && ear == Ear(0, 0, 0, 0, 0, 0) && sends == 0 && attempts == 0
      ensures this.lag == lag && this.feeds == feeds && this.sendCode == sendCode && this.connectCode == connectCode
    {
      this.lag, this.feeds, this.sendCode, this.connectCode := lag, feeds, sendCode, connectCode;
      ear, feed := Ear(0, 0, 0, 0, 0, 0), Feed([], [], None);
      sends, attempts, outbox, log := 0, 0, [], [];
    }

    /** maintenant */
    method Now() returns (t: int)
      requires Valid()
      modifies this`ear
      ensures Valid() && ear == Call(lag, old(ear)) && t == ear.clock
    {
      ear := Call(lag, ear);
      t := ear.clock;
    }

    /** aml_receive, with a buffer that holds any frame. */
    method Receive(timeoutMs: nat) returns (code: int, frame: seq<Byte>)
      requires Valid()
      modifies this`ear, this`log
      ensures Valid() && Heard(ear, code) == Reception.Receive(feed, lag, old(ear), timeoutMs)
      ensures code == 0 ==> && old(ear.next) < |Frames(feed)| && frame == Frames(feed)[old(ear.next)]
                            && log == old(log) + [frame]
      ensures code != 0 ==> log == old(log)
    {
      hide Frames, FramesWithin, Hear;
      ReceiveSound(feed, lag, ear, timeoutMs);
      var h := Reception.Receive(feed, lag, ear, timeoutMs);
      frame := if h.code == 0 then Frames(feed)[ear.next] else [];
      code, ear := h.code, h.ear;
      if code == 0 {
        log := log + [frame];
      }
    }

    /** aml_send */
    method Send(frame: seq<Byte>) returns (code: int)
      requires Valid()
      modifies this`ear, this`sends, this`outbox
      ensures Valid() && ear == Call(lag, old(ear))
      ensures code == sendCode(old(sends)) && sends == old(sends) + 1
      ensures outbox == if code == 0 then old(outbox) + [frame] else old(outbox)
    {
      var _ := Now();
      code := sendCode(sends);
      sends := sends + 1;
      if code == 0 {
        outbox := outbox + [frame];
      }
    }

    /** aml_connect: a success starts on what comes in on the new connection. */
    method Connect() returns (code: int)
      requires Valid()
      modifies this`ear, this`attempts, this`feed
      ensures Valid() && ear.clock == Call(lag, old(ear)).clock && ear.calls == old(ear.calls) + 1
      ensures attempts == old(attempts) + 1 && code == connectCode(old(attempts))
      ensures code == 0 ==> ear == Ear(ear.clock, ear.calls, 0, 0, ear.clock, 0) && feed == feeds(attempts)
      ensures code != 0 ==> feed == old(feed)
    {
      var _ := Now();
      code := connectCode(attempts);
      attempts := attempts + 1;
      if code == 0 {
        ear, feed := Ear(ear.clock, ear.calls, 0, 0, ear.clock, 0), feeds(attempts);
      }
    }
  }

  // ---------------------------------------------------------------------
  // Events
  // ---------------------------------------------------------------------

  /** The test of transmettre_evenement. */
  predicate IsEvent(frame: seq<Byte>) {
    |frame| >= DATA_OFFSET + 4 && frame[2] == TYPE_RESPONSE && frame[CODE_OFFSET] in EVENT_CODES
  }

  /** What the event handler is told about one frame. */
  function NoticeOf(frame: seq<Byte>): seq<Notice> {
    if IsEvent(frame) then [Notice(frame[CODE_OFFSET], frame[DATA_OFFSET..|frame| - 4])] else []
  }

  /** Of a well-formed event, the handler gets the code and the bytes between it and the checksum. */
  lemma NoticeCarriesData(frame: seq<Byte>)
    requires IsFrame(frame) && IsEvent(frame)
    ensures |NoticeOf(frame)| == 1
    ensures var notice := NoticeOf(frame)[0];
            && notice.code == frame[CODE_OFFSET] && |notice.data| == frame[3] as int - 8
            && forall i :: 0 <= i < |notice.data| ==> notice.data[i] == frame[DATA_OFFSET + i]
  {
  }

  /** The events among some frames, in order. */
  function Notices(frames: seq<seq<Byte>>): seq<Notice>
    decreases |frames|
  {
    if frames == [] then [] else Notices(frames[..|frames| - 1]) + NoticeOf(frames[|frames| - 1])
  }

  lemma NoticesAppend(frames: seq<seq<Byte>>, frame: seq<Byte>)
    ensures Notices(frames + [frame]) == Notices(frames) + NoticeOf(frame)
  {
    assert (frames + [frame])[..|frames|] == frames;
  }

  lemma NoticesGrow(frames: seq<seq<Byte>>, from: nat, to: nat)
    requires from <= to < |frames|
    ensures Notices(frames[from..to + 1]) == Notices(frames[from..to]) + NoticeOf(frames[to])
  {
    assert frames[from..to + 1] == frames[from..to] + [frames[to]];
    NoticesAppend(frames[from..to], frames[to]);
  }

  lemma NoNotices(frames: seq<seq<Byte>>, i: nat)
    requires i <= |frames|
    ensures Notices(frames[i..i]) == []
  {
    assert frames[i..i] == [];
  }

  lemma {:induction false} NoticesJoin(frames: seq<seq<Byte>>, from: nat, mid: nat, end: nat)
    requires from <= mid <= end <= |frames|
    ensures Notices(frames[from..end]) == Notices(frames[from..mid]) + Notices(frames[mid..end])
    decreases end
  {
    hide Notices, NoticeOf;
    if mid == end {
      NoNotices(frames, mid);
    } else {
      NoticesJoin(frames, from, mid, end - 1);
      NoticesGrow(frames, from, end - 1);
      NoticesGrow(frames, mid, end - 1);
    }
  }

  /** Between `before` and `after`, the handler has heard the events among the frames from `from` up to `to`. */
  predicate HeardEvents(before: seq<Notice>, after: seq<Notice>, handled: bool, frames: seq<seq<Byte>>, from: nat, to: nat)
  {
    from <= to <= |frames| && after == before + if handled then Notices(frames[from..to]) else []
  }

  lemma HeardNone(before: seq<Notice>, handled: bool, frames: seq<seq<Byte>>, from: nat)
    requires from <= |frames|
    ensures HeardEvents(before, before, handled, frames, from, from)
  {
    NoNotices(frames, from);
  }

  lemma HeardOneMore(before: seq<Notice>, heard: seq<Notice>, handled: bool, frames: seq<seq<Byte>>, from: nat, to: nat)
    requires HeardEvents(before, heard, handled, frames, from, to) && to < |frames|
    ensures HeardEvents(before, if handled then heard + NoticeOf(frames[to]) else heard, handled, frames, from, to + 1)
  {
    hide Notices, NoticeOf;
    NoticesGrow(frames, from, to);
  }

  lemma HeardBoth(before: seq<Notice>, heard: seq<Notice>, after: seq<Notice>, handled: bool, frames: seq<seq<Byte>>,
                  from: nat, mid: nat, to: nat)
    requires HeardEvents(before, heard, handled, frames, from, mid) && HeardEvents(heard, after, handled, frames, mid, to)
    ensures HeardEvents(before, after, handled, frames, from, to)
  {
    hide Notices;
    NoticesJoin(frames, from, mid, to);
  }

  lemma HeardMore(before: seq<Notice>, after: seq<Notice>, handled: bool, frames: seq<seq<Byte>>, from: nat, to: nat)
    requires HeardEvents(before, after, handled, frames, from, to)
    ensures before <= after
  {
    hide Notices;
  }

  /** A reply that ends the frames received is no event. */
  lemma ReplyUnheard(before: seq<Notice>, after: seq<Notice>, handled: bool, frames: seq<seq<Byte>>, from: nat, to: nat,
                     code: Byte)
    requires from < to <= |frames| && IsReply(frames[to - 1], code) && code !in EVENT_CODES
    requires HeardEvents(before, after, handled, frames, from, to - 1)
    ensures HeardEvents(before, after, handled, frames, from, to)
  {
    hide Notices, NoticeOf;
    ReplyIsNoEvent(frames[to - 1], code);
    NoticesGrow(frames, from, to - 1);
  }

  /** No reply in use can be mistaken for an event. */
  lemma EventsAreNotReplies(frame: seq<Byte>, code: Byte)
    requires code in REPLY_CODES
    ensures !(IsEvent(frame) && IsReply(frame, code))
  {
    assert EVENT_CODES !! REPLY_CODES;
  }

  lemma ReplyIsNoEvent(frame: seq<Byte>, code: Byte)
    requires IsReply(frame, code) && code !in EVENT_CODES
    ensures NoticeOf(frame) == []
  {
  }

  // ---------------------------------------------------------------------
  // Backoff
  // ---------------------------------------------------------------------

  /** The wait after `n` reconnections have been planned since the last successful refresh. */
  function BackoffAfter(n: nat): (b: int)
    ensures 0 <= b <= BACKOFF_MAX_MS
    ensures b == 0 <==> n == 0
  {
    if n == 0 then 0
    else if 1000 * Power2(n - 1) < BACKOFF_MAX_MS then 1000 * Power2(n - 1)
    else BACKOFF_MAX_MS
  }

  /** Doubling up to half the maximum, then the maximum, follows min(1000 * 2^(n-1), 30000). */
  lemma BackoffDoubles(n: nat)
    ensures BackoffAfter(n + 1) ==
            var b := BackoffAfter(n);
            if b <= 0 then BACKOFF_MIN_MS else if b >= BACKOFF_MAX_MS / 2 then BACKOFF_MAX_MS else b * 2
  {
    if n > 0 {
      assert Power2(n) == 2 * Power2(n - 1);
      if Power2(n - 1) < 30 && Power2(n - 1) >= 15 {
        assert Power2(n - 1) >= 16 by { PowersAround15(n - 1); }
      }
    }
  }

  lemma PowersAround15(n: nat)
    ensures Power2(n) <= 8 || Power2(n) >= 16
  {
    if n == 4 {
      assert Power2(4) == 16;
    } else if n > 4 {
      PowersAround15(n - 1);
      assert n >= 5 ==> Power2(n - 1) >= 16 by { LargePower(n - 1); }
    } else {
      assert Power2(0) == 1 && Power2(1) == 2 && Power2(2) == 4 && Power2(3) == 8;
    }
  }

  lemma LargePower(n: nat)
    requires n >= 4
    ensures Power2(n) >= 16
  {
    if n == 4 { assert Power2(4) == 16; } else { LargePower(n - 1); }
  }

  function SumOfBackoffs(n: nat): nat {
    if n == 0 then 0 else SumOfBackoffs(n - 1) + BackoffAfter(n)
  }

  /** Consecutive plannings are at least the planned wait apart. */
  predicate SpacedOut(times: seq<int>) {
    forall i :: 1 <= i < |times| ==> times[i] >= times[i - 1] + BackoffAfter(i)
  }

  /** One reconnection is planned when a link is lost, none otherwise. */
  predicate PlansWhenLost(wasConnected: bool, before: seq<int>, connected: bool, after: seq<int>) {
    if wasConnected && !connected then before < after && |after| == |before| + 1
    else after == before && connected == wasConnected
  }

  /** After a failure: a lost link is given up at once, another failure is counted, and the third in a row gives the link up. */
  predicate Supervised(code: int, before: int, connected: bool, failures: int) {
    && (connected <==> code != ERR_DISCONNECTED && code != ERR_IO && before + 1 < MAX_FAILURES)
    && failures == if connected then before + 1 else 0
  }

  lemma NothingLost(planned: seq<int>)
    ensures PlansWhenLost(true, planned, true, planned) && PlansWhenLost(false, planned, false, planned)
  {
  }

  lemma StillLinked(before: seq<int>, after: seq<int>)
    requires PlansWhenLost(true, before, true, after)
    ensures after == before
  {
  }

  /** The failure number n+1 comes at least the sum of the first n waits after the first. */
  lemma {:induction false} FailuresAreSpaced(times: seq<int>, n: nat)
    requires SpacedOut(times) && n < |times|
    ensures times[n] - times[0] >= SumOfBackoffs(n)
    decreases n
  {
    if n > 0 {
      FailuresAreSpaced(times, n - 1);
    }
  }

  /** In closed form: 1, 3, 7, 15 and 31 seconds, then 30 more each time. */
  lemma {:induction false} SumInClosedForm(n: nat)
    ensures SumOfBackoffs(n) == if n <= 5 then 1000 * (Power2(n) - 1) else 31000 + 30000 * (n - 5)
  {
    if n > 0 {
      SumInClosedForm(n - 1);
      assert Power2(0) == 1 && Power2(1) == 2 && Power2(2) == 4 && Power2(3) == 8 && Power2(4) == 16;
      if n > 5 {
        LargePower(n - 2);
        assert Power2(n - 1) == 2 * Power2(n - 2);
      }
    }
  }

  // ---------------------------------------------------------------------
  // The application
  // ---------------------------------------------------------------------

  /** The settings last read, as raw bytes. */
  datatype Settings = Settings(known: bool, display: Byte, date: Byte, time: Byte, feedback: Byte, fade: Byte)

  /** The delay of a request: 5 seconds unless one is given. */
  function Delay(timeout: int): nat {
    if timeout <= 0 then RESPONSE_TIMEOUT_MS else timeout
  }

  /** Frame number `k` is a status reply that gives this authorization. */
  predicate GaveStatus(f: Feed, k: nat, authorization: Byte) {
    && k < |Frames(f)| && IsReply(Frames(f)[k], RSP_STATUS)
    && |Frames(f)[k]| > DATA_OFFSET && authorization == Frames(f)[k][DATA_OFFSET]
  }

  /** Some frame from number `from` up to `to` is such a reply. */
  ghost predicate GotStatus(f: Feed, from: nat, to: nat, authorization: Byte) {
    exists k :: from <= k < to && GaveStatus(f, k, authorization)
  }

  /** Frame number `k` is a complete reply that gives these settings. */
  predicate GaveSettings(f: Feed, k: nat, settings: Settings) {
    && k < |Frames(f)| && IsReply(Frames(f)[k], RSP_READ_SETTINGS)
    && |Frames(f)[k]| >= DATA_OFFSET + 6 && settings == SettingsIn(Frames(f)[k])
  }

  /** The arguments that write settings. */
  function SettingsArguments(s: Settings): (arguments: seq<Byte>)
    ensures |arguments| == 5
  {
    [s.display, s.date, s.time, s.feedback, s.fade]
  }

  /** A reply whose data are the arguments of a write gives the settings that were written. */
  lemma SettingsReadBack(frame: seq<Byte>, written: Settings)
    requires |frame| >= DATA_OFFSET + 6 && frame[DATA_OFFSET..DATA_OFFSET + 5] == SettingsArguments(written)
    ensures SettingsIn(frame) == written.(known := true)
  {
    var data := frame[DATA_OFFSET..DATA_OFFSET + 5];
    assert data[0] == frame[8] && data[1] == frame[9] && data[2] == frame[10] && data[3] == frame[11] && data[4] == frame[12];
  }

  /** The settings a reply to the read command carries. */
  function SettingsIn(frame: seq<Byte>): Settings
    requires |frame| >= DATA_OFFSET + 6
  {
    Settings(true, frame[8], frame[9], frame[10], frame[11], frame[12])
  }

  /** What a request comes to that needs at least `size` bytes in its reply. */
  function RequestResult(f: Incoming, lag: nat -> nat, e: Ear, sendCode: int, code: Byte, size: nat): Heard
    requires e.read <= |f.bytes|
  {
    var early := Early(f, lag, e, MAX_EARLY_FRAMES);
    if early.code != 0 then Heard(early.ear, ERR_DISCONNECTED)
    else if sendCode != 0 then Heard(Call(lag, early.ear), sendCode)
    else
      var h := Exchange(f, lag, e, RESPONSE_TIMEOUT_MS, code);
      if h.code == 0 && 0 < h.ear.next <= |Frames(f)| && |Frames(f)[h.ear.next - 1]| < size then Heard(h.ear, ERR_PROTOCOL)
      else h
  }

  /** What a refresh comes to: the status, and then, if it is answered, the settings. */
  function RefreshCode(f: Incoming, lag: nat -> nat, e: Ear, firstSend: int, secondSend: int): int
    requires e.read <= |f.bytes|
  {
    var status := RequestResult(f, lag, e, firstSend, RSP_STATUS, DATA_OFFSET + 1);
    if status.code != 0 then status.code
    else if status.ear.read <= |f.bytes| then
      RequestResult(f, lag, status.ear, secondSend, RSP_READ_SETTINGS, DATA_OFFSET + 6).code
    else ERR_GENERIC
  }

  class SweetDawn {
    const world: World
    const handled: bool              // an event handler is registered
    var connected: bool
    var authorization: Byte
    var lastRefresh: int
    var nextRefresh: int
    var nextConnect: int
    var backoff: int
    var failures: int
    var connectCount: nat
    var state: Settings
    var heard: seq<Notice>           // every call of the event handler, in order

    ghost var planned: seq<int>      // when reconnections were planned, since the last successful refresh
    ghost var hasty: bool            // since then, a connection was opened before the planned wait was over
    ghost var mixed: bool            // a request has had an event code for its reply

    /** The backoff follows the reconnections planned, which are far enough apart if no connection came too soon. */
    ghost predicate Paced()
      reads this, world
    {
      && world.Valid()
      && backoff == BackoffAfter(|planned|)
      && (!hasty ==> SpacedOut(planned))
      && (|planned| > 0 ==>
            && planned[|planned| - 1] <= world.ear.clock
            && nextConnect == planned[|planned| - 1] + backoff
            && (connected && !hasty ==> world.ear.clock >= nextConnect))
    }

    /** The handler has heard the events among all the frames received, each once, in order. */
    ghost predicate Told()
      reads this`mixed, this`heard, world`log
    {
      !mixed ==> heard == if handled then Notices(world.log) else []
    }

    ghost predicate Valid()
      reads this, world
    {
      Paced() && Told() && 0 <= failures < MAX_FAILURES
    }

    constructor (world: World, handled: bool)
      requires world.Valid() && world.log == []
      ensures Valid() && this.world == world && this.handled == handled
      ensures !connected && planned == [] && heard == [] && !state.known && !hasty && !mixed && failures == 0
    {
      this.world, this.handled := world, handled;
      connected, authorization, lastRefresh, nextRefresh, nextConnect := false, 0, -1, 0, 0;
      backoff, failures, connectCount := 0, 0, 0;
      state := Settings(false, 0, 0, 0, 0, 0);
      heard, planned, hasty, mixed := [], [], false, false;
    }

    /** programmer_reconnexion */
    method PlanReconnection()
      requires Paced() && Told() && (!hasty && |planned| > 0 ==> world.ear.clock >= nextConnect)
      modifies this`backoff, this`nextConnect, this`planned, world`ear
      ensures world.Valid() && Told() && world.ear == Call(world.lag, old(world.ear))
      ensures planned == old(planned) + [world.ear.clock] && (!hasty ==> SpacedOut(planned))
      ensures backoff == BackoffAfter(|planned|) && nextConnect == world.ear.clock + backoff
    {
      hide Notices, FramesWithin;
      BackoffDoubles(|planned|);
      if backoff <= 0 {
        backoff := BACKOFF_MIN_MS;
      } else if backoff >= BACKOFF_MAX_MS / 2 {
        backoff := BACKOFF_MAX_MS;
      } else {
        backoff := backoff * 2;
      }
      var now := world.Now();
      nextConnect := now + backoff;
      planned := planned + [now];
    }

    /** abandonner_liaison: what was read and heard is kept. */
    method Abandon()
      requires Paced() && Told() && connected
      modifies this`connected, this`failures, this`backoff, this`nextConnect, this`planned, world`ear
      ensures Valid() && !connected && failures == 0 && planned == old(planned) + [world.ear.clock]
      ensures world.ear == Call(world.lag, old(world.ear))
    {
      hide Notices, FramesWithin, BackoffAfter;
      PlanReconnection();
      connected := false;
      failures := 0;
    }

    /** traiter_echec_liaison: a lost link is given up at once, other failures after three in a row. */
    method HandleFailure(code: int)
      requires Valid() && connected
      modifies this`connected, this`failures, this`backoff, this`nextConnect, this`planned, world`ear
      ensures Valid()
      ensures Supervised(code, old(failures), connected, failures)
      ensures PlansWhenLost(old(connected), old(planned), connected, planned)
      ensures world.ear == if connected then old(world.ear) else Call(world.lag, old(world.ear))
    {
      hide Notices, FramesWithin, BackoffAfter, SpacedOut;
      if code == ERR_DISCONNECTED || code == ERR_IO {
        Abandon();
        return;
      }
      failures := failures + 1;
      if failures >= MAX_FAILURES {
        Abandon();
      }
    }

    /** transmettre_evenement */
    method Forward(frame: seq<Byte>) returns (event: bool)
      modifies this`heard
      ensures event <==> IsEvent(frame)
      ensures heard == old(heard) + if event && handled then
                                      [Notice(frame[CODE_OFFSET], frame[DATA_OFFSET..|frame| - 4])]
                                    else []
    {
      if |frame| < DATA_OFFSET + 4 || frame[2] != TYPE_RESPONSE || frame[CODE_OFFSET] !in EVENT_CODES {
        return false;
      }
      if handled {
        heard := heard + [Notice(frame[CODE_OFFSET], frame[DATA_OFFSET..|frame| - 4])];
      }
      return true;
    }

    /** One turn of lire_evenements: takes the next frame, if the look gives one, and forwards it if it is an event. */
    method ReceiveEarly() returns (code: int)
      requires world.Valid() && Told()
      modifies this`heard, world`ear, world`log
      ensures world.Valid() && Told()
      ensures Heard(world.ear, code) == Receive(world.feed, world.lag, old(world.ear), 0)
      ensures if code == 0 then
                && old(world.ear.next) < |Frames(world.feed)|
                && heard == if handled then old(heard) + NoticeOf(Frames(world.feed)[old(world.ear.next)]) else old(heard)
              else heard == old(heard)
    {
      hide Frames, FramesWithin, Receive, Notices;
      var frame;
      code, frame := world.Receive(0);
      if code == 0 {
        NoticesAppend(old(world.log), frame);
        var _ := Forward(frame);
      }
    }

    /**
     * lire_evenements: at most 16 looks, as long as each gives a frame, and the events among these frames are
     * forwarded. Every fault is a lost link.
     */
    method ReadEvents()
      requires Valid()
      modifies this`connected, this`failures, this`backoff, this`nextConnect, this`planned, this`heard,
               world`ear, world`log
      ensures Valid()
      ensures world.ear.clock >= old(world.ear.clock)
      ensures !old(connected) ==> !connected && world.ear == old(world.ear)
      ensures old(connected) ==>
                var early := Early(world.feed, world.lag, old(world.ear), MAX_EARLY_FRAMES);
                && world.ear.next == early.ear.next
                && (connected <==> early.code == 0)
                && (if connected then world.ear == early.ear && failures == old(failures) else failures == 0)
      ensures HeardEvents(old(heard), heard, handled, Frames(world.feed), old(world.ear.next), world.ear.next)
      ensures PlansWhenLost(old(connected), old(planned), connected, planned)
    {
      hide SpacedOut, BackoffAfter, Notices, NoticeOf, IsEvent, PlansWhenLost, Frames, FramesWithin, Receive, Early,
           HeardEvents, Told;
      NothingLost(planned);
      ghost var first, f := world.ear.next, world.feed;
      var i := 0;
      WithinFrames(f, world.ear);
      HeardNone(heard, handled, Frames(f), first);
      while i < MAX_EARLY_FRAMES && connected
        invariant 0 <= i <= MAX_EARLY_FRAMES && Valid() && world.ear.next == first + i
        invariant (!connected ==> i == 0 && world.ear == old(world.ear)) && connected == old(connected)
        invariant failures == old(failures) && planned == old(planned) && world.ear.clock >= old(world.ear.clock)
        invariant Early(f, world.lag, old(world.ear), MAX_EARLY_FRAMES)
               == Early(f, world.lag, world.ear, MAX_EARLY_FRAMES - i)
        invariant HeardEvents(old(heard), heard, handled, Frames(f), first, first + i)
      {
        ghost var before := heard;
        EarlyTurn(f, world.lag, world.ear, MAX_EARLY_FRAMES - i);
        var code := ReceiveEarly();
        if code == ERR_TIMEOUT {
          return;
        }
        if code != 0 {
          HandleFailure(code);
          return;
        }
        HeardOneMore(old(heard), before, handled, Frames(f), first, first + i);
        i := i + 1;
      }
      NoLooks(f, world.lag, world.ear);
    }

    /** One turn of the waiting loop: takes the next frame, if it comes in time, and forwards it if it is an event. */
    method ReceiveNext(expected: Byte, remaining: nat) returns (code: int, frame: seq<Byte>, isReply: bool)
      requires world.Valid() && Told()
      modifies this`heard, this`mixed, world`ear, world`log
      ensures world.Valid() && Told() && (mixed <==> old(mixed) || (isReply && expected in EVENT_CODES))
      ensures Heard(world.ear, code) == Receive(world.feed, world.lag, old(world.ear), remaining)
      ensures if code == 0 then
                && old(world.ear.next) < |Frames(world.feed)| && frame == Frames(world.feed)[old(world.ear.next)]
                && (isReply <==> IsReply(frame, expected))
                && heard == if handled && !isReply then old(heard) + NoticeOf(frame) else old(heard)
              else !isReply && heard == old(heard)
    {
      hide Frames, FramesWithin, Receive, Notices, IsEvent;
      code, frame := world.Receive(remaining);
      isReply := false;
      if code == 0 {
        NoticesAppend(old(world.log), frame);
        if |frame| > CODE_OFFSET && frame[2] == TYPE_RESPONSE && frame[CODE_OFFSET] == expected {
          isReply := true;
          if expected in EVENT_CODES {
            mixed := true;
          } else {
            ReplyIsNoEvent(frame, expected);
          }
        } else {
          var _ := Forward(frame);
        }
      }
    }

    /**
     * The waiting loop of envoyer_requete: receives until the reply comes, a fault occurs or time is up,
     * forwarding the events that come first. It ends because each turn takes one frame or is the last.
     */
    method AwaitReply(expected: Byte, timeoutMs: nat) returns (code: int, response: seq<Byte>)
      requires world.Valid() && Told()
      modifies this`heard, this`mixed, world`ear, world`log
      ensures world.Valid() && Told() && (expected !in EVENT_CODES ==> mixed == old(mixed))
      ensures Heard(world.ear, code) == Asked(world.feed, world.lag, old(world.ear), timeoutMs, expected)
      ensures code == 0 ==> && 0 < world.ear.next <= |Frames(world.feed)|
                            && response == Frames(world.feed)[world.ear.next - 1]
      ensures old(world.ear.next) + (if code == 0 then 1 else 0) <= world.ear.next
      ensures HeardEvents(old(heard), heard, handled, Frames(world.feed), old(world.ear.next),
                          world.ear.next - if code == 0 then 1 else 0)
    {
      hide Frames, FramesWithin, Receive, Await, Notices, NoticeOf, IsReply, HeardEvents, Told;
      ghost var first, f := world.ear.next, world.feed;
      WithinFrames(f, world.ear);
      HeardNone(heard, handled, Frames(f), first);
      var now := world.Now();
      var deadline := now + timeoutMs;
      while true
        invariant world.Valid() && Told() && first <= world.ear.next && mixed == old(mixed)
        invariant Asked(f, world.lag, old(world.ear), timeoutMs, expected)
               == Await(f, world.lag, world.ear, deadline, expected)
        invariant HeardEvents(old(heard), heard, handled, Frames(f), first, world.ear.next)
        decreases |Frames(f)| - world.ear.next
      {
        ghost var before, next := heard, world.ear.next;
        WaitTurn(f, world.lag, world.ear, deadline, expected);
        now := world.Now();
        var remaining := deadline - now;
        if remaining <= 0 {
          return ERR_TIMEOUT, [];
        }
        var isReply;
        code, response, isReply := ReceiveNext(expected, remaining);
        if code != 0 {
          return;
        }
        if isReply {
          return;
        }
        HeardOneMore(old(heard), before, handled, Frames(f), first, next);
      }
    }

    /** The wait for the reply and what becomes of the link: a reply clears the failures, anything else is one. */
    method WaitForReply(expected: Byte, timeoutMs: nat) returns (code: int, response: seq<Byte>)
      requires Valid() && connected
      modifies this`connected, this`failures, this`backoff, this`nextConnect, this`planned, this`heard, this`mixed,
               world`ear, world`log
      ensures Valid() && (expected !in EVENT_CODES ==> mixed == old(mixed))
      ensures var h := Asked(world.feed, world.lag, old(world.ear), timeoutMs, expected);
              && code == h.code && world.ear.next == h.ear.next && world.ear.clock >= h.ear.clock
              && (connected ==> world.ear == h.ear)
      ensures code == 0 ==> && connected && failures == 0
                            && 0 < world.ear.next <= |Frames(world.feed)| && response == Frames(world.feed)[world.ear.next - 1]
      ensures code != 0 ==> Supervised(code, old(failures), connected, failures)
      ensures old(world.ear.next) + (if code == 0 then 1 else 0) <= world.ear.next
      ensures HeardEvents(old(heard), heard, handled, Frames(world.feed), old(world.ear.next),
                          world.ear.next - if code == 0 then 1 else 0)
      ensures PlansWhenLost(old(connected), old(planned), connected, planned)
    {
      hide SpacedOut, BackoffAfter, Supervised, PlansWhenLost, Frames, FramesWithin, Asked, HeardEvents, Told;
      NothingLost(planned);
      AskedLater(world.feed, world.lag, world.ear, timeoutMs, expected);
      code, response := AwaitReply(expected, timeoutMs);
      if code == 0 {
        failures := 0;
      } else {
        HandleFailure(code);
      }
    }

    /** The frame to send, in a buffer of 259 bytes: at most 247 argument bytes fit. */
    method BuildFrame(requestCode: Byte, arguments: seq<Byte>) returns (frame: Option<seq<Byte>>)
      ensures frame.Some? <==> |arguments| <= 247
      ensures frame.Some? ==> frame.value == RequestFrame(requestCode, arguments)
    {
      hide RequestFrame;
      var request := new Byte[MAX_FRAME_SIZE](_ => 0);
      var built, length := BuildRequest(requestCode, arguments, request);
      if built != 0 {
        return None;
      }
      return Some(request[..length]);
    }

    /** The part of envoyer_requete after early frames have been dealt with. */
    method SendAndWait(frame: seq<Byte>, expected: Option<Byte>, timeoutMs: nat) returns (code: int, response: seq<Byte>)
      requires Valid() && connected
      modifies this`connected, this`failures, this`backoff, this`nextConnect, this`planned, this`heard, this`mixed,
               world`ear, world`log, world`sends, world`outbox
      ensures Valid() && (expected.None? || expected.value !in EVENT_CODES ==> mixed == old(mixed))
      ensures world.ear.clock >= old(world.ear.clock) && old(world.ear.next) <= world.ear.next
      ensures code == 0 ==> && connected && planned == old(planned) && world.sendCode(old(world.sends)) == 0
                            && world.outbox == old(world.outbox) + [frame]
      // Nothing but the send counts if no reply is expected, or if it fails.
      ensures expected.None? || world.sendCode(old(world.sends)) != 0 ==>
                && code == world.sendCode(old(world.sends)) && world.ear.next == old(world.ear.next)
                && (connected ==> world.ear == Call(world.lag, old(world.ear)))
      ensures world.sends == old(world.sends) + 1
      ensures world.outbox == if world.sendCode(old(world.sends)) == 0 then old(world.outbox) + [frame] else old(world.outbox)
      ensures code != 0 ==> Supervised(code, old(failures), connected, failures)
      ensures expected.Some? && world.sendCode(old(world.sends)) == 0 ==>
                var h := Asked(world.feed, world.lag, Call(world.lag, old(world.ear)), timeoutMs, expected.value);
                && code == h.code && world.ear.next == h.ear.next && (connected ==> world.ear == h.ear)
      ensures expected.Some? && code == 0 ==>
                && failures == 0
                && 0 < world.ear.next <= |Frames(world.feed)| && response == Frames(world.feed)[world.ear.next - 1]
      ensures expected.None? || expected.value !in EVENT_CODES ==>
                HeardEvents(old(heard), heard, handled, Frames(world.feed), old(world.ear.next), world.ear.next)
      ensures PlansWhenLost(old(connected), old(planned), connected, planned)
    {
      hide SpacedOut, BackoffAfter, PlansWhenLost, Frames, FramesWithin, Asked, HeardEvents, Told, Notices,
           NoticeOf, IsReply;
      NothingLost(planned);
      ghost var f, first := world.feed, world.ear.next;
      WithinFrames(f, world.ear);
      HeardNone(heard, handled, Frames(f), first);
      code := world.Send(frame);
      if code != 0 {
        HandleFailure(code);
        return code, [];
      }
      if expected.None? {
        return 0, [];
      }
      AskedReplies(f, world.lag, world.ear, timeoutMs, expected.value);
      code, response := WaitForReply(expected.value, timeoutMs);
      if connected {
        StillLinked(old(planned), planned);
      }
      if code == 0 && expected.value !in EVENT_CODES {
        ReplyUnheard(old(heard), heard, handled, Frames(f), first, world.ear.next, expected.value);
      }
    }

    /** The part of envoyer_requete after the request has been built: early frames, then sending and waiting. */
    method Converse(frame: seq<Byte>, expected: Option<Byte>, timeoutMs: nat) returns (code: int, response: seq<Byte>)
      requires Valid() && connected
      modifies this`connected, this`failures, this`backoff, this`nextConnect, this`planned, this`heard, this`mixed,
               world`ear, world`log, world`sends, world`outbox
      ensures Valid() && (expected.None? || expected.value !in EVENT_CODES ==> mixed == old(mixed))
      ensures world.ear.clock >= old(world.ear.clock) && old(world.ear.next) <= world.ear.next
      ensures code == 0 ==> && connected && planned == old(planned) && world.sendCode(old(world.sends)) == 0
                            && world.outbox == old(world.outbox) + [frame]
      ensures var early := Early(world.feed, world.lag, old(world.ear), MAX_EARLY_FRAMES);
              var sendCode := world.sendCode(old(world.sends));
              && world.sends == old(world.sends) + (if early.code == 0 then 1 else 0)
              && world.outbox == (if early.code == 0 && sendCode == 0 then old(world.outbox) + [frame] else old(world.outbox))
              && (early.code != 0 ==> code == ERR_DISCONNECTED)
              && (early.code == 0 && (expected.None? || sendCode != 0) ==>
                    && code == sendCode && world.ear.next == early.ear.next
                    && (connected ==> world.ear == Call(world.lag, early.ear)))
      ensures code != 0 ==> Supervised(code, old(failures), connected, failures)
      ensures expected.Some? && world.sendCode(old(world.sends)) == 0 ==>
                var h := Exchange(world.feed, world.lag, old(world.ear), timeoutMs, expected.value);
                && code == h.code && world.ear.next == h.ear.next && (connected ==> world.ear == h.ear)
      ensures expected.Some? && code == 0 ==>
                && failures == 0
                && 0 < world.ear.next <= |Frames(world.feed)| && response == Frames(world.feed)[world.ear.next - 1]
      ensures expected.None? || expected.value !in EVENT_CODES ==>
                HeardEvents(old(heard), heard, handled, Frames(world.feed), old(world.ear.next), world.ear.next)
      ensures PlansWhenLost(old(connected), old(planned), connected, planned)
    {
      hide SpacedOut, BackoffAfter, PlansWhenLost, Frames, FramesWithin, Asked, Early, HeardEvents, Told;
      ghost var f, first := world.feed, world.ear.next;
      response := [];
      ReadEvents();
      if !connected {
        return ERR_DISCONNECTED, [];
      }
      ghost var mid, heardEarly := world.ear.next, heard;
      StillLinked(old(planned), planned);
      assert planned == old(planned);
      code, response := SendAndWait(frame, expected, timeoutMs);
      if expected.None? || expected.value !in EVENT_CODES {
        HeardBoth(old(heard), heardEarly, heard, handled, Frames(f), first, mid, world.ear.next);
      }
    }

    /** envoyer_requete: deals with what has already come in, sends a request and waits for its reply. */
    method Request(requestCode: Byte, expected: Option<Byte>, timeout: int, arguments: seq<Byte>)
      returns (code: int, response: seq<Byte>)
      requires Valid()
      modifies this`connected, this`failures, this`backoff, this`nextConnect, this`planned, this`heard, this`mixed,
               world`ear, world`log, world`sends, world`outbox
      ensures Valid() && (expected.None? || expected.value !in EVENT_CODES ==> mixed == old(mixed))
      ensures world.ear.clock >= old(world.ear.clock) && old(world.ear.next) <= world.ear.next
      ensures !old(connected) ==>
                code == ERR_DISCONNECTED && !connected && heard == old(heard) && world.ear == old(world.ear)
      ensures code == 0 ==> && old(connected) && connected && planned == old(planned) && |arguments| <= 247
                            && world.outbox == old(world.outbox) + [RequestFrame(requestCode, arguments)]
                            && world.sendCode(old(world.sends)) == 0
      ensures old(connected) && |arguments| <= 247 && code != 0 ==> Supervised(code, old(failures), connected, failures)
      // It is sent unless a fault is met before; if that fails, or no reply is expected, only the send counts.
      ensures old(connected) && |arguments| <= 247 ==>
                var early := Early(world.feed, world.lag, old(world.ear), MAX_EARLY_FRAMES);
                var sendCode := world.sendCode(old(world.sends));
                && world.sends == old(world.sends) + (if early.code == 0 then 1 else 0)
                && world.outbox == (if early.code == 0 && sendCode == 0 then
                                      old(world.outbox) + [RequestFrame(requestCode, arguments)]
                                    else old(world.outbox))
                && (early.code != 0 ==> code == ERR_DISCONNECTED)
                && (early.code == 0 && (expected.None? || sendCode != 0) ==>
                    && code == sendCode && world.ear.next == early.ear.next
                    && (connected ==> world.ear == Call(world.lag, early.ear)))
      // If it can be sent, all depends on what comes in, and when.
      ensures old(connected) && |arguments| <= 247 && expected.Some? && world.sendCode(old(world.sends)) == 0 ==>
                var h := Exchange(world.feed, world.lag, old(world.ear), Delay(timeout), expected.value);
                && code == h.code && world.ear.next == h.ear.next && (connected ==> world.ear == h.ear)
      // The response is the last frame received, and has the expected code. It was there at time t exactly if a frame
      // with the code was, and was not read early: newer than the request, unless such a frame comes before it is sent.
      ensures code == 0 && expected.Some? ==>
                var early, r := Early(world.feed, world.lag, old(world.ear), MAX_EARLY_FRAMES).ear, world.ear.next - 1;
                && failures == 0 && old(world.ear.next) <= early.next <= r < |Frames(world.feed)|
                && response == Frames(world.feed)[r] && IsReply(response, expected.value)
                && (forall t :: Time(world.feed, r) <= t <==> CameBy(world.feed, early.next, t, expected.value))
      // It is newer than the last look before sending, unless 16 frames were read early or that look read 256 bytes.
      ensures code == 0 && expected.Some? ==>
                var early, r := Early(world.feed, world.lag, old(world.ear), MAX_EARLY_FRAMES).ear, world.ear.next - 1;
                Time(world.feed, r) <= early.looked ==>
                  || early.next == old(world.ear.next) + MAX_EARLY_FRAMES
                  || (early.taken == RX_BUFFER_SIZE && early.read < End(world.feed, r))
      // Every event received before or during the wait reaches the handler once, in order.
      ensures expected.None? || expected.value !in EVENT_CODES ==>
                HeardEvents(old(heard), heard, handled, Frames(world.feed), old(world.ear.next), world.ear.next)
      ensures PlansWhenLost(old(connected), old(planned), connected, planned)
    {
      hide SpacedOut, BackoffAfter, RequestFrame, PlansWhenLost, Frames, FramesWithin, Exchange, Early, HeardEvents, Told,
           CameBy, Time, IsReply, Supervised;
      NothingLost(planned);
      WithinFrames(world.feed, world.ear);
      HeardNone(heard, handled, Frames(world.feed), world.ear.next);
      if !connected {
        return ERR_DISCONNECTED, [];
      }
      var timeoutMs := if timeout <= 0 then RESPONSE_TIMEOUT_MS else timeout;
      var frame := BuildFrame(requestCode, arguments);
      if frame.None? {
        return ERR_GENERIC, [];
      }
      code, response := Converse(frame.value, expected, timeoutMs);
      if code == 0 && expected.Some? {
        ReplyAge(world.feed, world.lag, old(world.ear), timeoutMs, expected.value);
      }
    }

    /** demander_statut */
    method AskStatus() returns (code: int, authorization: Byte)
      requires Valid()
      modifies this`connected, this`failures, this`backoff, this`nextConnect, this`planned, this`heard, this`mixed,
               world`ear, world`log, world`sends, world`outbox
      ensures Valid() && mixed == old(mixed) && world.ear.clock >= old(world.ear.clock)
      ensures old(world.ear.next) <= world.ear.next
      ensures PlansWhenLost(old(connected), old(planned), connected, planned)
      ensures code == 0 ==> && connected && world.outbox == old(world.outbox) + [RequestFrame(REQ_STATUS, [STATUS_ARG])]
                            && old(world.ear.next) < world.ear.next
                            && GaveStatus(world.feed, world.ear.next - 1, authorization)
      ensures HeardEvents(old(heard), heard, handled, Frames(world.feed), old(world.ear.next), world.ear.next)
      ensures old(connected) ==>
                var h := RequestResult(world.feed, world.lag, old(world.ear), world.sendCode(old(world.sends)),
                                       RSP_STATUS, DATA_OFFSET + 1);
                && code == h.code && (connected ==> world.ear == h.ear)
                && (code == 0 ==> world.sends == old(world.sends) + 1)
      ensures old(heard) <= heard
    {
      hide SpacedOut, BackoffAfter, RequestFrame, PlansWhenLost, Frames, FramesWithin, Exchange, Early, HeardEvents, Told,
           CameBy, Time;
      var response;
      code, response := Request(REQ_STATUS, Some(RSP_STATUS), 0, [STATUS_ARG]);
      HeardMore(old(heard), heard, handled, Frames(world.feed), old(world.ear.next), world.ear.next);
      authorization := 0;
      if code == 0 {
        if |response| < DATA_OFFSET + 1 {
          code := ERR_PROTOCOL;
        } else {
          authorization := response[DATA_OFFSET];
        }
      }
    }

    /** demander_parametres: the settings kept change only on a complete reply. */
    method AskSettings() returns (code: int)
      requires Valid()
      modifies this`connected, this`failures, this`backoff, this`nextConnect, this`planned, this`heard, this`mixed,
               this`state, world`ear, world`log, world`sends, world`outbox
      ensures Valid() && mixed == old(mixed) && world.ear.clock >= old(world.ear.clock)
      ensures old(world.ear.next) <= world.ear.next
      ensures PlansWhenLost(old(connected), old(planned), connected, planned)
      ensures code != 0 ==> state == old(state)
      ensures code == 0 ==> && connected && world.outbox == old(world.outbox) + [RequestFrame(REQ_READ_SETTINGS, [])]
                            && old(world.ear.next) < world.ear.next
                            && GaveSettings(world.feed, world.ear.next - 1, state) && state.known
      ensures HeardEvents(old(heard), heard, handled, Frames(world.feed), old(world.ear.next), world.ear.next)
      ensures old(connected) ==>
                var h := RequestResult(world.feed, world.lag, old(world.ear), world.sendCode(old(world.sends)),
                                       RSP_READ_SETTINGS, DATA_OFFSET + 6);
                && code == h.code && (connected ==> world.ear == h.ear)
                && (code == 0 ==> world.sends == old(world.sends) + 1)
      ensures old(heard) <= heard
    {
      hide SpacedOut, BackoffAfter, RequestFrame, PlansWhenLost, Frames, FramesWithin, Exchange, Early, HeardEvents, Told,
           CameBy, Time;
      var response;
      code, response := Request(REQ_READ_SETTINGS, Some(RSP_READ_SETTINGS), 0, []);
      HeardMore(old(heard), heard, handled, Frames(world.feed), old(world.ear.next), world.ear.next);
      if code == 0 {
        if |response| < DATA_OFFSET + 6 {
          return ERR_PROTOCOL;
        }
        state := Settings(true, response[8], response[9], response[10], response[11], response[12]);
      }
    }

    /** control_settings_write (src/core/control.c): the settings kept change only once the device has acknowledged. */
    method WriteSettings(settings: Settings) returns (code: int)
      requires Valid()
      modifies this`connected, this`failures, this`backoff, this`nextConnect, this`planned, this`heard, this`mixed,
               this`state, world`ear, world`log, world`sends, world`outbox
      ensures Valid() && mixed == old(mixed) && world.ear.clock >= old(world.ear.clock)
      ensures PlansWhenLost(old(connected), old(planned), connected, planned)
      ensures state == if code == 0 then settings.(known := true) else old(state)
      ensures code == 0 ==>
                && world.outbox == old(world.outbox) + [RequestFrame(REQ_WRITE_SETTINGS, SettingsArguments(settings))]
                && old(world.ear.next) < world.ear.next <= |Frames(world.feed)|
                && IsReply(Frames(world.feed)[world.ear.next - 1], RSP_WRITE_SETTINGS)
    {
      hide SpacedOut, BackoffAfter, RequestFrame, PlansWhenLost, Frames, FramesWithin, Exchange, Early, HeardEvents, Told,
           CameBy, Time, IsReply;
      var response;
      var arguments := [settings.display, settings.date, settings.time, settings.feedback, settings.fade];
      code, response := Request(REQ_WRITE_SETTINGS, Some(RSP_WRITE_SETTINGS), 0, arguments);
      if code == 0 {
        if |response| < DATA_OFFSET + 4 {
          return ERR_PROTOCOL;
        }
        state := settings.(known := true);
      }
    }

    /** sweetdawn_connect: does not touch the backoff, and does not care whether the planned wait is over. */
    method Connect() returns (code: int)
      requires Valid()
      modifies this`connected, this`failures, this`nextRefresh, this`hasty, world`ear, world`attempts, world`feed
      ensures Valid()
      ensures if old(connected) then world.ear == old(world.ear) && world.feed == old(world.feed)
              else world.ear.clock == Call(world.lag, old(world.ear)).clock && world.ear.calls == old(world.ear.calls) + 1
      ensures connected <==> code == 0
      ensures world.attempts == old(world.attempts) + if old(connected) then 0 else 1
      ensures backoff == old(backoff) && planned == old(planned)
      ensures !old(connected) ==> code == world.connectCode(old(world.attempts))
      ensures !old(connected) && code == 0 ==>
                && failures == 0 && nextRefresh == 0
                && world.ear == Ear(world.ear.clock, world.ear.calls, 0, 0, world.ear.clock, 0)
                && world.feed == world.feeds(world.attempts)
      ensures old(connected) || code != 0 ==> failures == old(failures) && nextRefresh == old(nextRefresh)
      ensures hasty <==> old(hasty) || (!old(connected) && connected && |planned| > 0 && world.ear.clock < nextConnect)
    {
      hide SpacedOut, BackoffAfter, FramesWithin, Told;
      if connected {
        return 0;
      }
      code := world.Connect();
      if code != 0 {
        return;
      }
      connected := true;
      failures := 0;
      nextRefresh := 0;
      hasty := hasty || (|planned| > 0 && world.ear.clock < nextConnect);
    }

    /** The two requests of sweetdawn_refresh: the status, then the settings. */
    method AskBoth() returns (code: int)
      requires Valid() && connected
      modifies this`connected, this`failures, this`backoff, this`nextConnect, this`planned, this`heard, this`mixed,
               this`state, this`authorization, world`ear, world`log, world`sends, world`outbox
      ensures Valid() && mixed == old(mixed) && world.ear.clock >= old(world.ear.clock) && old(heard) <= heard
      ensures HeardEvents(old(heard), heard, handled, Frames(world.feed), old(world.ear.next), world.ear.next)
      ensures old(world.ear.next) <= world.ear.next
      ensures PlansWhenLost(true, old(planned), connected, planned)
      ensures code == RefreshCode(world.feed, world.lag, old(world.ear), world.sendCode(old(world.sends)),
                                  world.sendCode(old(world.sends) + 1))
      ensures code == 0 ==> && connected
                            && world.outbox == old(world.outbox)
                                 + [RequestFrame(REQ_STATUS, [STATUS_ARG]), RequestFrame(REQ_READ_SETTINGS, [])]
                            && 0 < world.ear.next && GaveSettings(world.feed, world.ear.next - 1, state) && state.known
      ensures code != 0 ==> state == old(state)
      ensures || (authorization == old(authorization) && code != 0)
              || GotStatus(world.feed, old(world.ear.next), world.ear.next, authorization)
    {
      hide SpacedOut, BackoffAfter, RequestFrame, PlansWhenLost, Frames, FramesWithin, Told, GaveStatus, GaveSettings,
           HeardEvents, RequestResult;
      var answer;
      code, answer := AskStatus();
      if code == 0 {
        StillLinked(old(planned), planned);
        ghost var k, mid, between := world.ear.next - 1, world.ear.next, heard;
        authorization := answer;
        code := AskSettings();
        assert GaveStatus(world.feed, k, authorization);
        HeardBoth(old(heard), between, heard, handled, Frames(world.feed), old(world.ear.next), mid, world.ear.next);
      }
    }

    /**
     * sweetdawn_refresh: a success forgets the failures and puts the next refresh off; a failure keeps the settings.
     * The authorization becomes that of a status reply, as soon as there is one.
     */
    method Refresh() returns (code: int)
      requires Valid()
      modifies this`connected, this`failures, this`backoff, this`nextConnect, this`planned, this`heard, this`mixed,
               this`state, this`authorization, this`lastRefresh, this`nextRefresh, this`hasty,
               world`ear, world`log, world`sends, world`outbox
      ensures Valid() && mixed == old(mixed) && world.ear.clock >= old(world.ear.clock) && old(heard) <= heard
      ensures HeardEvents(old(heard), heard, handled, Frames(world.feed), old(world.ear.next), world.ear.next)
      ensures old(world.ear.next) <= world.ear.next
      ensures !old(connected) ==> code == ERR_GENERIC && planned == old(planned) && nextRefresh == old(nextRefresh)
      // It succeeds exactly if both requests do.
      ensures old(connected) ==>
                code == RefreshCode(world.feed, world.lag, old(world.ear), world.sendCode(old(world.sends)),
                                    world.sendCode(old(world.sends) + 1))
      ensures hasty <==> old(hasty) && code != 0
      ensures code == 0 ==> && connected && planned == [] && backoff == 0
                            && world.outbox == old(world.outbox)
                                 + [RequestFrame(REQ_STATUS, [STATUS_ARG]), RequestFrame(REQ_READ_SETTINGS, [])]
                            && 0 < world.ear.next && GaveSettings(world.feed, world.ear.next - 1, state) && state.known
      ensures code == 0 ==> && old(world.ear.clock) <= lastRefresh <= world.ear.clock
                            && nextRefresh == lastRefresh + REFRESH_INTERVAL_MS
      ensures code != 0 ==> state == old(state) && lastRefresh == old(lastRefresh)
                            && PlansWhenLost(old(connected), old(planned), connected, planned)
      ensures code != 0 && old(connected) ==> nextRefresh == world.ear.clock + REFRESH_RETRY_MS
      ensures || (authorization == old(authorization) && code != 0)
              || GotStatus(world.feed, old(world.ear.next), world.ear.next, authorization)
    {
      hide BackoffAfter, SpacedOut, RequestFrame, PlansWhenLost, Frames, FramesWithin, Told, GotStatus, GaveSettings,
           HeardEvents, RefreshCode;
      if !connected {
        NothingLost(planned);
        WithinFrames(world.feed, world.ear);
        HeardNone(heard, handled, Frames(world.feed), world.ear.next);
        return ERR_GENERIC;
      }
      code := AskBoth();
      if code != 0 {
        var now := world.Now();
        nextRefresh := now + REFRESH_RETRY_MS;
        return;
      }
      NoteSuccess();
    }

    /** The end of a successful refresh: the next failure starts again from a short wait. */
    method NoteSuccess()
      requires Valid()
      modifies this`backoff, this`planned, this`hasty, this`lastRefresh, this`nextRefresh, world`ear
      ensures Valid() && world.ear == Call(world.lag, old(world.ear)) && planned == [] && backoff == 0 && !hasty
      ensures lastRefresh == world.ear.clock && nextRefresh == lastRefresh + REFRESH_INTERVAL_MS
    {
      hide FramesWithin, Told;
      lastRefresh := world.Now();
      nextRefresh := lastRefresh + REFRESH_INTERVAL_MS;
      backoff := 0;
      planned, hasty := [], false;
    }

    /** The attempt of sweetdawn_tick: a failure plans another one, a success refreshes at once. */
    method Reconnect()
      requires Valid() && !connected && world.ear.clock >= nextConnect
      modifies this`connected, this`failures, this`backoff, this`nextConnect, this`planned, this`heard, this`mixed,
               this`state, this`authorization, this`lastRefresh, this`nextRefresh, this`connectCount, this`hasty,
               world`ear, world`log, world`feed, world`attempts, world`sends, world`outbox
      ensures Valid() && mixed == old(mixed) && world.ear.clock >= old(world.ear.clock) && old(heard) <= heard
      ensures world.attempts == old(world.attempts) + 1
      ensures connectCount == old(connectCount) + if world.connectCode(old(world.attempts)) == 0 then 1 else 0
      // A new connection is refreshed at once.
      ensures world.connectCode(old(world.attempts)) == 0 ==> nextRefresh >= old(world.ear.clock) + REFRESH_RETRY_MS
      ensures || PlansWhenLost(false, old(planned), connected, planned)
              || PlansWhenLost(true, old(planned), connected, planned)
              || (planned == [] && backoff == 0 && connected && state.known && lastRefresh >= old(world.ear.clock))
      ensures hasty ==> old(hasty)
      ensures state != old(state) ==> planned == [] && lastRefresh >= old(world.ear.clock)
    {
      hide BackoffAfter, SpacedOut, RequestFrame, FramesWithin, Told, GotStatus, RefreshCode, GaveSettings, HeardEvents, Frames;
      var code := Connect();
      if code != 0 {
        PlanReconnection();
        return;
      }
      connectCount := connectCount + 1;
      var _ := Refresh();
    }

    /** What sweetdawn_tick does with an open link: the messages that have come in, then a refresh if it is due. */
    method Attend(now: int)
      requires Valid() && connected
      modifies this`connected, this`failures, this`backoff, this`nextConnect, this`planned, this`heard, this`mixed,
               this`state, this`authorization, this`lastRefresh, this`nextRefresh, this`hasty,
               world`ear, world`log, world`sends, world`outbox
      ensures Valid() && mixed == old(mixed) && world.ear.clock >= old(world.ear.clock) && old(heard) <= heard
      ensures HeardEvents(old(heard), heard, handled, Frames(world.feed), old(world.ear.next), world.ear.next)
      ensures var early := Early(world.feed, world.lag, old(world.ear), MAX_EARLY_FRAMES);
              && early.ear.next <= world.ear.next
              && (early.code != 0 ==> !connected && world.ear.next == early.ear.next)
              && (early.code == 0 && now < old(nextRefresh) ==>
                    && connected && world.ear == early.ear
                      && world.outbox == old(world.outbox) && nextRefresh == old(nextRefresh))
              && (early.code == 0 && now >= old(nextRefresh) && now <= old(world.ear.clock) ==>
                    && nextRefresh >= now + REFRESH_RETRY_MS
                    && if RefreshCode(world.feed, world.lag, early.ear, world.sendCode(old(world.sends)),
                                      world.sendCode(old(world.sends) + 1)) == 0 then
                         && planned == [] && state.known && lastRefresh >= now
                         && nextRefresh == lastRefresh + REFRESH_INTERVAL_MS
                       else state == old(state) && lastRefresh == old(lastRefresh))
      ensures || PlansWhenLost(true, old(planned), connected, planned)
              || (planned == [] && backoff == 0 && connected && state.known && lastRefresh >= old(world.ear.clock))
      ensures hasty ==> old(hasty)
      ensures state != old(state) ==> planned == [] && lastRefresh >= old(world.ear.clock)
    {
      hide BackoffAfter, SpacedOut, RequestFrame, FramesWithin, Frames, Early, Told, HeardEvents, GotStatus, RefreshCode,
           GaveSettings, GaveStatus;
      ReadEvents();
      ghost var mid, between := world.ear.next, heard;
      if connected && now >= nextRefresh {
        var _ := Refresh();
        HeardBoth(old(heard), between, heard, handled, Frames(world.feed), old(world.ear.next), mid, world.ear.next);
      }
      HeardMore(old(heard), heard, handled, Frames(world.feed), old(world.ear.next), world.ear.next);
    }

    /**
     * sweetdawn_tick: connects exactly when disconnected with the planned wait over, plans again after a failed
     * attempt, and refreshes when due. Only a successful refresh, never a mere connection, resets the waits.
     */
    method Tick()
      requires Valid()
      modifies this`connected, this`failures, this`backoff, this`nextConnect, this`planned, this`heard, this`mixed,
               this`state, this`authorization, this`lastRefresh, this`nextRefresh, this`connectCount, this`hasty,
               world`ear, world`log, world`feed, world`attempts, world`sends, world`outbox
      ensures Valid() && mixed == old(mixed) && world.ear.clock >= old(world.ear.clock) && old(heard) <= heard
      ensures world.attempts == old(world.attempts) +
                if !old(connected) && Call(world.lag, old(world.ear)).clock >= old(nextConnect) then 1 else 0
      ensures connectCount == old(connectCount) +
                if world.attempts > old(world.attempts) && world.connectCode(old(world.attempts)) == 0 then 1 else 0
      // What has come in is dealt with first, and a fault met there is a lost link.
      ensures old(connected) ==>
                var start := Call(world.lag, old(world.ear));
                var early := Early(old(world.feed), world.lag, start, MAX_EARLY_FRAMES);
                && world.feed == old(world.feed) && early.ear.next <= world.ear.next
                && HeardEvents(old(heard), heard, handled, Frames(old(world.feed)), old(world.ear.next), world.ear.next)
                && (early.code != 0 ==> !connected && world.ear.next == early.ear.next)
                // No refresh is made before its time, and one is when it is due.
                && (early.code == 0 && start.clock < old(nextRefresh) ==>
                      && connected && world.ear == early.ear
                      && world.outbox == old(world.outbox) && nextRefresh == old(nextRefresh))
                && (early.code == 0 && start.clock >= old(nextRefresh) ==>
                      && nextRefresh >= start.clock + REFRESH_RETRY_MS
                      && if RefreshCode(world.feed, world.lag, early.ear, world.sendCode(old(world.sends)),
                                        world.sendCode(old(world.sends) + 1)) == 0 then
                           && planned == [] && state.known && lastRefresh >= start.clock
                           && nextRefresh == lastRefresh + REFRESH_INTERVAL_MS
                         else state == old(state) && lastRefresh == old(lastRefresh))
      ensures world.attempts > old(world.attempts) && world.connectCode(old(world.attempts)) == 0 ==>
                nextRefresh >= old(world.ear.clock) + REFRESH_RETRY_MS
      ensures || PlansWhenLost(old(connected), old(planned), connected, planned)
              || (world.attempts > old(world.attempts) && PlansWhenLost(true, old(planned), connected, planned))
              || (planned == [] && backoff == 0 && connected && state.known && lastRefresh >= old(world.ear.clock))
      ensures hasty ==> old(hasty)
      ensures state != old(state) ==> planned == [] && lastRefresh >= old(world.ear.clock)
    {
      hide BackoffAfter, SpacedOut, RequestFrame, FramesWithin, Frames, Early, Told, HeardEvents, GotStatus, RefreshCode,
           GaveSettings, GaveStatus;
      var now := world.Now();
      if !connected {
        if now < nextConnect {
          return;
        }
        Reconnect();
        return;
      }
      Attend(now);
    }
  }

  /**
   * In every run: unless a connection was opened by hand before its time, which the periodic task never
   * does, the failure number n+1 since the last successful refresh came at least the sum of the first n
   * waits after the first one, and the next attempt of the task waits for the sum of all of them.
   */
  lemma AttemptsAreSpaced(link: SweetDawn, n: nat)
    requires link.Valid() && !link.hasty && n < |link.planned|
    ensures link.planned[n] - link.planned[0] >= SumOfBackoffs(n)
    ensures link.nextConnect - link.planned[0] >= SumOfBackoffs(|link.planned|)
  {
    hide BackoffAfter;
    FailuresAreSpaced(link.planned, n);
    FailuresAreSpaced(link.planned, |link.planned| - 1);
  }

  /**
   * In every run in which no request expects an event code, the handler has heard exactly the events among the
   * frames received on all connections, each once, in order.
   */
  lemma HandlerHearsAll(link: SweetDawn)
    requires link.Valid() && link.handled && !link.mixed
    ensures link.heard == Notices(link.world.log)
  {
  }

  // ---------------------------------------------------------------------
  // A late reply taken for a new one
  // ---------------------------------------------------------------------

  /** The reply to the status request, as documented. */
  const STATUS_REPLY: seq<Byte> := [0xFE, 0xEF, 0x0C, 0x09, 0xAB, 0xBB, 0x04, 0xF0, 0x16, 0xE2, 0x55, 0x0D, 0x0A]

  const NOISE: seq<Byte> := seq(RX_BUFFER_SIZE, _ => 0)

  /** It comes in 3 ms after the request has timed out, behind 256 bytes of noise. */
  const LATE_FEED: Feed := Feed(NOISE + STATUS_REPLY, seq(269, _ => 5003), None)

  /** The clock is read 10 ms late when the wait for the first request is found to be over. */
  function SlowEnd(call: nat): nat {
    if call == 9 then 10 else 0
  }

  lemma LateFeed()
    ensures InTimeOrder(LATE_FEED) && |LATE_FEED.bytes| == 269
    ensures Frames(LATE_FEED) == [STATUS_REPLY] && IsReply(STATUS_REPLY, RSP_STATUS)
    ensures FramesWithin(LATE_FEED, 0) == 0 && FramesWithin(LATE_FEED, 256) == 0 && FramesWithin(LATE_FEED, 269) == 1
  {
    hide Judge, Next;
    var f := LATE_FEED;
    assert |f.bytes| == 269;
    assert f.bytes[..256] == NOISE && f.bytes[..269] == f.bytes;
    assert IsNoise(NOISE);
    NoiseResidueIsScan(NOISE);
    assert STATUS_REPLY[..13] == STATUS_REPLY;
    JudgeFindsFrame(STATUS_REPLY, 13);
    ReplyAlone();
    NoiseIsSkipped(NOISE, STATUS_REPLY);
    AllComplete(f);
  }

  lemma ReplyAlone()
    requires Judge(STATUS_REPLY) == Complete(13)
    ensures Next(STATUS_REPLY) == Extracted(STATUS_REPLY, []) && Next([]) == Waiting([])
  {
    hide Judge;
    assert STATUS_REPLY[..13] == STATUS_REPLY && STATUS_REPLY[13..] == [];
  }

  lemma FirstRequestTimesOut(f: Incoming)
    requires f == LATE_FEED
    ensures Exchange(f, SlowEnd, Ear(0, 1, 0, 0, 0, 0), RESPONSE_TIMEOUT_MS, RSP_STATUS)
         == Heard(Ear(5010, 10, 0, 0, 5000, 0), ERR_TIMEOUT)
  {
    hide Frames, FramesWithin, Hear, IsReply, Early, Await, LATE_FEED;
    LateFeed();
    LateTimes(f);
    var start := Ear(0, 1, 0, 0, 0, 0);
    HearTimesOut(f, SlowEnd, Ear(0, 2, 0, 0, 0, 0), 0);
    EarlyTurn(f, SlowEnd, start, MAX_EARLY_FRAMES);
    assert Early(f, SlowEnd, start, MAX_EARLY_FRAMES) == Heard(Ear(0, 4, 0, 0, 0, 0), 0);
    HearTimesOut(f, SlowEnd, Ear(0, 8, 0, 0, 0, 0), 5000);
    WaitTurn(f, SlowEnd, Ear(0, 6, 0, 0, 0, 0), 5000, RSP_STATUS);
  }

  lemma SecondRequestLooks(f: Incoming)
    requires f == LATE_FEED
    ensures Early(f, SlowEnd, Ear(5010, 10, 0, 0, 5000, 0), MAX_EARLY_FRAMES) == Heard(Ear(5010, 14, 256, 0, 5010, 256), 0)
  {
    hide Frames, FramesWithin, Hear, Early, LATE_FEED, Gulp;
    LateFeed();
    LateTimes(f);
    GulpAll(f, 0, 5010, RX_BUFFER_SIZE, 5003);
    HearReads(f, SlowEnd, Ear(5010, 11, 0, 0, 5000, 0), 5010);
    EarlyTurn(f, SlowEnd, Ear(5010, 10, 0, 0, 5000, 0), MAX_EARLY_FRAMES);
  }

  lemma SecondRequestWaits(f: Incoming)
    requires f == LATE_FEED
    ensures var h := Await(f, SlowEnd, Ear(5010, 16, 256, 0, 5010, 256), 10010, RSP_STATUS);
            h.code == 0 && h.ear.next == 1
  {
    hide Frames, FramesWithin, Hear, IsReply, Await, LATE_FEED, Gulp;
    LateFeed();
    LateTimes(f);
    GulpAll(f, 256, 5010, RX_BUFFER_SIZE, 5003);
    HearReads(f, SlowEnd, Ear(5010, 18, 256, 0, 5010, 256), 10010);
    WaitTurn(f, SlowEnd, Ear(5010, 16, 256, 0, 5010, 256), 10010, RSP_STATUS);
  }

  lemma SecondRequestTakesIt(f: Incoming)
    requires f == LATE_FEED
    ensures var h := Exchange(f, SlowEnd, Ear(5010, 10, 0, 0, 5000, 0), RESPONSE_TIMEOUT_MS, RSP_STATUS);
            h.code == 0 && h.ear.next == 1
  {
    hide Early, Await, LATE_FEED;
    LateTimes(f);
    SecondRequestLooks(f);
    SecondRequestWaits(f);
  }

  lemma LateTimes(f: Incoming)
    requires f == LATE_FEED
    ensures |f.bytes| == |f.times| == 269 && forall i :: 0 <= i < 269 ==> f.times[i] == 5003
  {
  }

  /**
   * A request times out; its reply comes in before a second one is made, and is the only frame that comes in. It is
   * behind 256 bytes of noise, which are all that the look before the second request reads: the late reply is taken.
   */
  method LateReplyIsTaken() returns (link: SweetDawn, first: int, second: int, ghost calledAt: int)
    ensures fresh(link) && first == ERR_TIMEOUT && second == 0
    ensures |Frames(link.world.feed)| == 1 == link.world.ear.next && Time(link.world.feed, 0) < calledAt
  {
    hide Frames, FramesWithin, Exchange, Early, Time, Notices, RequestFrame, CameBy, HeardEvents, IsReply;
    LateFeed();
    var feed: Incoming := LATE_FEED;
    FirstRequestTimesOut(feed);
    SecondRequestTakesIt(feed);
    LateTime(feed);
    var world := new World(SlowEnd, _ => feed, _ => 0, _ => 0);
    link := new SweetDawn(world, true);
    var connected := link.Connect();
    assert world.ear == Ear(0, 1, 0, 0, 0, 0);
    var response;
    first, response := link.Request(REQ_STATUS, Some(RSP_STATUS), 0, [STATUS_ARG]);
    calledAt := world.ear.clock;
    second, response := link.Request(REQ_STATUS, Some(RSP_STATUS), 0, [STATUS_ARG]);
  }

  lemma LateTime(f: Incoming)
    requires f == LATE_FEED
    ensures |Frames(f)| == 1 && Time(f, 0) == 5003
  {
    hide Frames, FramesWithin;
    LateFeed();
    LateTimes(f);
  }
}

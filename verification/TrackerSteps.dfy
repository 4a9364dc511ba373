/** What one step of the tracker does to the watch, to the queue of messages and to what subscribers are sent. */
module TrackerSteps {
  import opened Common
  import opened Protocol
  import opened TrackerState
  import opened TrackerRuns

  // ---------------------------------------------------------------------
  // The watch
  // ---------------------------------------------------------------------

  /** A message about a sunrise or a ring, whatever the alarm, starts the watch anew and cancels a pending stop. */
  lemma {:induction false} HandleAllWatches(s: State, events: seq<Event>, now: int)
    ensures var r := HandleAll(s, events, now);
            && r.connections == s.connections
            && (if QuietQueue(events) then
                  r.watching == s.watching && r.nextRead == s.nextRead && r.stopAsked == s.stopAsked
                else r.watching && r.nextRead == now + WATCH_MS && !r.stopAsked)
    decreases |events|
  {
    if events != [] {
      var past, last := events[..|events| - 1], events[|events| - 1];
      HandleAllWatches(s, past, now);
      QuietGrows(events);
      HandleWatches(HandleAll(s, past, now), last, now);
    }
  }

  lemma HandleWatches(s: State, e: Event, now: int)
    ensures var r := Handle(s, e, now);
            && r.connections == s.connections
            && (if QuietCode(e.code) then
                  r.watching == s.watching && r.nextRead == s.nextRead && r.stopAsked == s.stopAsked
                else r.watching && r.nextRead == now + WATCH_MS && !r.stopAsked)
  {
  }

  lemma QuietGrows(events: seq<Event>)
    requires events != []
    ensures QuietQueue(events) <==> QuietQueue(events[..|events| - 1]) && QuietCode(events[|events| - 1].code)
  {
    assert events == events[..|events| - 1] + [events[|events| - 1]];
  }

  /** An alarm no message is about is left as it is, with its presumed end of snooze. */
  lemma {:induction false} OtherAlarmKept(s: State, events: seq<Event>, now: int, n: int)
    requires 1 <= n <= 2 && forall e :: e in events ==> Announced(e, n) == None
    ensures HandleAll(s, events, now).Alarm(n) == s.Alarm(n)
    decreases |events|
  {
    if events != [] {
      var past, last := events[..|events| - 1], events[|events| - 1];
      assert forall e :: e in past ==> e in events;
      OtherAlarmKept(s, past, now, n);
      assert Announced(last, n) == None;
      OtherKept(HandleAll(s, past, now), last, now, n);
    }
  }

  lemma OtherKept(s: State, e: Event, now: int, n: int)
    requires 1 <= n <= 2 && Announced(e, n) == None
    ensures Handle(s, e, now).Alarm(n) == s.Alarm(n)
  {
  }

  predicate NewConnection(s: State, input: TickInput) {
    input.connectCount != s.connections
  }

  /** Before it decides whether to poll, a tick has noticed a new connection and the messages about alarms. */
  lemma WatchBeforePoll(s: State, input: TickInput)
    ensures var b, quiet := BeforePoll(s, input), QuietQueue(s.queue);
            && b.connections == input.connectCount
            && b.watching == (s.watching || NewConnection(s, input) || !quiet)
            && b.stopAsked == (s.stopAsked && quiet)
            && b.nextRead == if !quiet then input.now + WATCH_MS else if NewConnection(s, input) then 0 else s.nextRead
  {
    hide HandleAll, NoteAll, QuietQueue;
    var noticed := NoticeConnection(s, input);
    HandleAllWatches(noticed, noticed.queue, input.now);
    var handled := Publish(HandleAll(noticed, noticed.queue, input.now).(queue := []));
    NotingOnly(handled.(lightChanged := false), input.light.arrived);
  }

  /**
   * A connected tick polls exactly when no message about an alarm is waiting and either the connection is new or
   * the watch is on and its time has come.
   */
  lemma TickPolls(s: State, input: TickInput)
    ensures PollIsDue(BeforePoll(s, input), input.now) <==>
              QuietQueue(s.queue) && (NewConnection(s, input) || (s.watching && input.now >= s.nextRead))
  {
    hide BeforePoll, QuietQueue;
    WatchBeforePoll(s, input);
  }

  /** What a connected tick leaves of the watch: an answered poll decides, otherwise it is on if it was or has been started. */
  lemma TickWatches(s: State, input: TickInput)
    requires Invariant(s) && input.connected
    ensures var b, r := BeforePoll(s, input), Tick(s, input);
            && r.connections == input.connectCount
            && r.nextRead == (if PollIsDue(b, input.now) then input.now + WATCH_MS else b.nextRead)
            && (if Answered(s, input) then
                  r.watching == !BothIdle(r) && r.stopAsked == (b.stopAsked && !BothIdle(r))
                else
                  && r.watching == (s.watching || NewConnection(s, input) || !QuietQueue(s.queue))
                  && r.stopAsked == (s.stopAsked && QuietQueue(s.queue)))
  {
    hide BeforePoll, NoteAll, QuietQueue, FollowedTrack, LastHeard, Summarised;
    BeforePollFacts(s, input);
    WatchBeforePoll(s, input);
    var b := BeforePoll(s, input);
    if Answered(s, input) {
      PollAnswered(b, input);
      PolledConnections(b, input);
    }
    NotingOnly(b.(nextRead := input.now + WATCH_MS), input.status.arrived);
    NotingOnly(Follow(b, input), input.clock);
  }

  lemma PolledConnections(s: State, input: TickInput)
    requires |s.queue| <= QUEUE_SIZE
    ensures Follow(s, input).connections == s.connections
  {
    hide NoteAll, NextTrack, PresumesSnooze, SnoozeMinutes, TickInput.SnoozeOf;
    NotingOnly(s.(nextRead := input.now + WATCH_MS), input.status.arrived);
    if PollIsDue(s, input.now) && input.status.reply.Some? {
      var (sunrise, ringing) := input.status.reply.value;
      var asked := NoteAll(s.(nextRead := input.now + WATCH_MS), input.status.arrived);
      FollowingRest(asked, 1, sunrise, ringing, input.now, input.SnoozeOf(1));
      var one := FollowAlarm(asked, 1, sunrise, ringing, input.now, input.SnoozeOf(1));
      FollowingRest(one, 2, sunrise, ringing, input.now, input.SnoozeOf(2));
    }
  }

  /**
   * A new connection is followed by a poll in the same tick, unless a message about an alarm is waiting. If it is
   * answered, each alarm is in the state that the answer implies: ringing, for one, exactly if it is named.
   */
  lemma NewConnectionIsPolled(s: State, input: TickInput)
    requires Invariant(s) && input.connected && NewConnection(s, input) && QuietQueue(s.queue)
    ensures PollIsDue(BeforePoll(s, input), input.now) && Tick(s, input).connections == input.connectCount
    ensures input.status.reply.Some? ==>
              var (sunrise, ringing) := input.status.reply.value;
              var r := Tick(s, input);
              && FollowedTrack(s.first, r.first, ringing == 1, sunrise == 1, s.stopAsked, input.now, MinutesRead(input).0)
              && FollowedTrack(s.second, r.second, ringing == 2, sunrise == 2, s.stopAsked, input.now, MinutesRead(input).1)
              && (r.first.state == Ringing <==> ringing == 1) && (r.second.state == Ringing <==> ringing == 2)
  {
    hide BeforePoll, Follow, NoteAll, QuietQueue, LastHeard, Summarised, TickInput.SnoozeOf, SnoozeMinutes;
    TickPolls(s, input);
    TickWatches(s, input);
    BeforePollFacts(s, input);
    if input.status.reply.Some? {
      hide FollowedTrack;
      PollAnswered(BeforePoll(s, input), input);
      NotingOnly(Follow(BeforePoll(s, input), input), input.clock);
      var (sunrise, ringing) := input.status.reply.value;
      RingsIfNamed(s.first, Tick(s, input).first, ringing == 1, sunrise == 1, s.stopAsked, input.now, MinutesRead(input).0);
      RingsIfNamed(s.second, Tick(s, input).second, ringing == 2, sunrise == 2, s.stopAsked, input.now, MinutesRead(input).1);
    }
  }

  lemma RingsIfNamed(before: Track, after: Track, mine: bool, rising: bool, stopAsked: bool, now: int, minutes: int)
    requires FollowedTrack(before, after, mine, rising, stopAsked, now, minutes)
    ensures after.state == Ringing <==> mine
  {
  }

  /** Apart from ticks, only a request starts the watch; a message noted, or a tick without a link, leaves it as it is. */
  lemma OnlyRequestsWatch(s: State, step: Step)
    requires Invariant(s) && (step.Ticks? ==> !step.input.connected)
    ensures var r := Apply(s, step);
            if step.Acts? then r.watching && r.nextRead == 0
            else r.watching == s.watching && r.nextRead == s.nextRead && r.stopAsked == s.stopAsked
  {
    hide NoteAll;
    match step
    case Arrives(message) =>
    case Ticks(input) =>
    case Acts(stop, exchange) => NotingOnly(s, exchange.arrived);
  }

  // ---------------------------------------------------------------------
  // The queue
  // ---------------------------------------------------------------------

  /** The messages to be handled later, among those that arrive: all but the light refreshes, in order. */
  function Events(arrived: seq<Notice>): seq<Event>
    decreases |arrived|
  {
    if arrived == [] then []
    else
      var last := arrived[|arrived| - 1];
      Events(arrived[..|arrived| - 1])
      + if last.code == EVT_LIGHT_REFRESH then [] else [Event(last.code, if last.data == [] then 0 else last.data[0])]
  }

  predicate Refreshed(arrived: seq<Notice>) {
    exists a :: a in arrived && a.code == EVT_LIGHT_REFRESH
  }

  /** The queue keeps the first 16. */
  function Clip(events: seq<Event>): seq<Event> {
    if |events| > QUEUE_SIZE then events[..QUEUE_SIZE] else events
  }

  /** What arrives joins the queue in order, as far as there is room; a light refresh is only remembered. */
  lemma {:induction false} NoteAllQueues(s: State, arrived: seq<Notice>)
    requires |s.queue| <= QUEUE_SIZE
    ensures NoteAll(s, arrived).queue == Clip(s.queue + Events(arrived))
    ensures NoteAll(s, arrived).lightChanged == (s.lightChanged || Refreshed(arrived))
    decreases |arrived|
  {
    if arrived == [] {
      assert s.queue + Events(arrived) == s.queue;
    } else {
      var past, last := arrived[..|arrived| - 1], arrived[|arrived| - 1];
      assert arrived == past + [last];
      NoteAllQueues(s, past);
      var before := s.queue + Events(past);
      if last.code != EVT_LIGHT_REFRESH {
        var e := Event(last.code, if last.data == [] then 0 else last.data[0]);
        assert s.queue + Events(arrived) == before + [e];
      } else {
        assert s.queue + Events(arrived) == before;
      }
    }
  }

  lemma {:induction false} EventsAppend(a: seq<Notice>, b: seq<Notice>)
    ensures Events(a + b) == Events(a) + Events(b)
    decreases |b|
  {
    if b == [] {
      assert a + b == a;
    } else {
      var past, last := b[..|b| - 1], b[|b| - 1];
      EventsAppend(a, past);
      assert (a + b)[..|a + b| - 1] == a + past && (a + b)[|a + b| - 1] == last;
    }
  }

  lemma RefreshedAppend(a: seq<Notice>, b: seq<Notice>)
    ensures Refreshed(a + b) <==> Refreshed(a) || Refreshed(b)
  {
    assert forall n :: n in a + b <==> n in a || n in b;
  }

  lemma NotedLater(s: State, queue: seq<Event>, before: seq<Notice>, arrived: seq<Notice>)
    requires s.queue == Clip(queue + Events(before)) && s.lightChanged == Refreshed(before)
    ensures var r := NoteAll(s, arrived);
            r.queue == Clip(queue + Events(before + arrived)) && r.lightChanged == Refreshed(before + arrived)
  {
    NoteAllQueues(s, arrived);
    EventsAppend(before, arrived);
    RefreshedAppend(before, arrived);
    var x, y := queue + Events(before), Events(arrived);
    assert queue + Events(before + arrived) == x + y;
    if |x| > QUEUE_SIZE {
      assert (x[..QUEUE_SIZE] + y)[..QUEUE_SIZE] == (x + y)[..QUEUE_SIZE];
    }
  }

  /** Light and Mood are read again if a refresh was noted or the end of one of their timers is waiting. */
  predicate LightDue(s: State) {
    s.lightChanged || exists e :: e in s.queue && (e.code == EndOf(Light) || e.code == EndOf(Mood))
  }

  /** The message that announces the end of a timer. */
  function EndOf(timer: Timer): Byte {
    match timer
    case Light => EVT_LIGHT_TIMER_END
    case Mood => EVT_MOOD_TIMER_END
    case Radio => EVT_RADIO_TIMER_END
    case Music => EVT_MUSIC_TIMER_END
  }

  /** What arrives while the exchanges of a tick are under way, in order. */
  function ArrivedDuring(s: State, input: TickInput): seq<Notice> {
    var b := BeforePoll(s, input);
    (if LightDue(s) then input.light.arrived else [])
    + (if !PollIsDue(b, input.now) then []
       else
         input.status.arrived +
         match input.status.reply
         case None => []
         case Some((sunrise, ringing)) =>
           (if PresumesSnooze(b.first, ringing == 1, sunrise == 1, b.stopAsked) then input.SnoozeOf(1).arrived else [])
           + (if PresumesSnooze(b.second, ringing == 2, sunrise == 2, b.stopAsked) then input.SnoozeOf(2).arrived else []))
    + input.clock
  }

  /** The queue and the light flag hold what has arrived, as far as there is room. */
  predicate Holds(s: State, arrived: seq<Notice>) {
    s.queue == Clip(Events(arrived)) && s.lightChanged == Refreshed(arrived)
  }

  lemma HoldsMore(s: State, before: seq<Notice>, arrived: seq<Notice>)
    requires Holds(s, before)
    ensures Holds(NoteAll(s, arrived), before + arrived)
  {
    hide NoteAll, Events, Refreshed;
    assert [] + Events(before) == Events(before) && [] + Events(before + arrived) == Events(before + arrived);
    NotedLater(s, [], before, arrived);
  }

  lemma HoldsNothing(s: State)
    requires s.queue == [] && !s.lightChanged
    ensures Holds(s, [])
  {
  }

  lemma {:induction false} HandleAllLights(s: State, events: seq<Event>, now: int)
    ensures HandleAll(s, events, now).lightChanged <==>
              s.lightChanged || exists e :: e in events && (e.code == EndOf(Light) || e.code == EndOf(Mood))
    decreases |events|
  {
    if events != [] {
      var past, last := events[..|events| - 1], events[|events| - 1];
      assert events == past + [last];
      HandleAllLights(s, past, now);
      HandleLights(HandleAll(s, past, now), last, now);
    }
  }

  lemma HandleLights(s: State, e: Event, now: int)
    ensures Handle(s, e, now).lightChanged == (s.lightChanged || e.code == EndOf(Light) || e.code == EndOf(Mood))
  {
  }

  lemma QueueProcessed(s: State, input: TickInput)
    ensures Holds(BeforePoll(s, input), if LightDue(s) then input.light.arrived else [])
  {
    hide HandleAll, NoteAll, Events, Refreshed;
    var noticed := NoticeConnection(s, input);
    HandleAllLights(noticed, noticed.queue, input.now);
    var handled := Publish(HandleAll(noticed, noticed.queue, input.now).(queue := []));
    if handled.lightChanged {
      HoldsNothing(handled.(lightChanged := false));
      HoldsMore(handled.(lightChanged := false), [], input.light.arrived);
      assert [] + input.light.arrived == input.light.arrived;
    } else {
      HoldsNothing(handled);
    }
  }

  lemma AlarmFollowedHolds(s: State, n: int, sunrise: Byte, ringing: Byte, now: int, setting: Exchange<Byte>,
                           before: seq<Notice>)
    requires 1 <= n <= 2 && Holds(s, before)
    ensures var presumed := PresumesSnooze(s.Alarm(n), ringing as int == n, sunrise as int == n, s.stopAsked);
            Holds(FollowAlarm(s, n, sunrise, ringing, now, setting), before + if presumed then setting.arrived else [])
    ensures FollowAlarm(s, n, sunrise, ringing, now, setting).stopAsked == s.stopAsked
    ensures n == 1 ==> FollowAlarm(s, n, sunrise, ringing, now, setting).second == s.second
  {
    hide NoteAll, Events, Refreshed, NextTrack, SnoozeMinutes, PresumesSnooze;
    NotingOnly(s, setting.arrived);
    HoldsMore(s, before, setting.arrived);
    assert before + [] == before;
  }

  lemma FollowedHolds(s: State, input: TickInput, before: seq<Notice>)
    requires Holds(s, before) && PollIsDue(s, input.now)
    ensures var during :=
              input.status.arrived +
              match input.status.reply
              case None => []
              case Some((sunrise, ringing)) =>
                (if PresumesSnooze(s.first, ringing == 1, sunrise == 1, s.stopAsked) then input.SnoozeOf(1).arrived else [])
                + (if PresumesSnooze(s.second, ringing == 2, sunrise == 2, s.stopAsked) then input.SnoozeOf(2).arrived else []);
            Holds(Follow(s, input), before + during)
  {
    hide NoteAll, Events, Refreshed, FollowAlarm, PresumesSnooze, TickInput.SnoozeOf;
    var asked := NoteAll(s.(nextRead := input.now + WATCH_MS), input.status.arrived);
    NotingOnly(s.(nextRead := input.now + WATCH_MS), input.status.arrived);
    HoldsMore(s.(nextRead := input.now + WATCH_MS), before, input.status.arrived);
    var heard := before + input.status.arrived;
    match input.status.reply
    case None => assert before + (input.status.arrived + []) == heard;
    case Some((sunrise, ringing)) =>
      var first := if PresumesSnooze(s.first, ringing == 1, sunrise == 1, s.stopAsked) then input.SnoozeOf(1).arrived else [];
      var second := if PresumesSnooze(s.second, ringing == 2, sunrise == 2, s.stopAsked) then input.SnoozeOf(2).arrived else [];
      AlarmFollowedHolds(asked, 1, sunrise, ringing, input.now, input.SnoozeOf(1), heard);
      var one := FollowAlarm(asked, 1, sunrise, ringing, input.now, input.SnoozeOf(1));
      AlarmFollowedHolds(one, 2, sunrise, ringing, input.now, input.SnoozeOf(2), heard + first);
      assert before + (input.status.arrived + (first + second)) == heard + first + second;
  }

  /**
   * After a connected tick, the queue holds the messages that arrived during its exchanges, in order, as far as there
   * is room, and a light refresh is remembered exactly if one is among them.
   */
  lemma TickQueues(s: State, input: TickInput)
    requires input.connected
    ensures Tick(s, input).queue == Clip(Events(ArrivedDuring(s, input)))
    ensures Tick(s, input).lightChanged == Refreshed(ArrivedDuring(s, input))
  {
    hide BeforePoll, Follow, NoteAll, Events, Refreshed, LightDue, PresumesSnooze, TickInput.SnoozeOf;
    QueueProcessed(s, input);
    var b := BeforePoll(s, input);
    var light := if LightDue(s) then input.light.arrived else [];
    if PollIsDue(b, input.now) {
      FollowedHolds(b, input, light);
      var during :=
        input.status.arrived +
        match input.status.reply
        case None => []
        case Some((sunrise, ringing)) =>
          (if PresumesSnooze(b.first, ringing == 1, sunrise == 1, b.stopAsked) then input.SnoozeOf(1).arrived else [])
          + (if PresumesSnooze(b.second, ringing == 2, sunrise == 2, b.stopAsked) then input.SnoozeOf(2).arrived else []);
      HoldsMore(Follow(b, input), light + during, input.clock);
    } else {
      NotPolled(b, input);
      assert light + [] == light;
      HoldsMore(b, light, input.clock);
    }
  }

  lemma NotPolled(s: State, input: TickInput)
    requires !PollIsDue(s, input.now)
    ensures Follow(s, input) == s
  {
  }

  /** A request adds what arrives during its exchange. */
  lemma ActQueues(s: State, stop: bool, exchange: Exchange<()>)
    requires |s.queue| <= QUEUE_SIZE
    ensures Act(s, stop, exchange).queue == Clip(s.queue + Events(exchange.arrived))
    ensures Act(s, stop, exchange).lightChanged == (s.lightChanged || Refreshed(exchange.arrived))
  {
    hide NoteAll, Events;
    NoteAllQueues(s, exchange.arrived);
  }

  // ---------------------------------------------------------------------
  // What subscribers are sent
  // ---------------------------------------------------------------------

  /** The ends of timers among some messages, in order. */
  function TimersEnded(events: seq<Event>): seq<Message>
    decreases |events|
  {
    if events == [] then []
    else
      var code := events[|events| - 1].code;
      TimersEnded(events[..|events| - 1]) +
      (if code == EndOf(Light) then [TimerEnded(Light)]
       else if code == EndOf(Mood) then [TimerEnded(Mood)]
       else if code == EndOf(Radio) then [TimerEnded(Radio)]
       else if code == EndOf(Music) then [TimerEnded(Music)]
       else [])
  }

  lemma {:induction false} HandleAllSends(s: State, events: seq<Event>, now: int)
    ensures HandleAll(s, events, now).sent == s.sent + TimersEnded(events)
    decreases |events|
  {
    if events != [] {
      HandleAllSends(s, events[..|events| - 1], now);
      HandleSends(HandleAll(s, events[..|events| - 1], now), events[|events| - 1], now);
    }
  }

  lemma HandleSends(s: State, e: Event, now: int)
    ensures Handle(s, e, now).sent == s.sent +
              (if e.code == EndOf(Light) then [TimerEnded(Light)]
               else if e.code == EndOf(Mood) then [TimerEnded(Mood)]
               else if e.code == EndOf(Radio) then [TimerEnded(Radio)]
               else if e.code == EndOf(Music) then [TimerEnded(Music)]
               else [])
  {
  }

  /**
   * All that a connected tick sends, in order: the timers whose end was announced; the states, if some message
   * contradicts them; the light, if it is due and could be read; and the states again, if a poll changes them.
   */
  lemma TickSends(s: State, input: TickInput)
    requires Invariant(s) && input.connected
    ensures var b, r := BeforePoll(s, input), Tick(s, input);
            var contradicted := Contradicted(s.queue, 1, s.first.state) || Contradicted(s.queue, 2, s.second.state);
            r.sent == s.sent + TimersEnded(s.queue)
                      + (if contradicted then [PairMessage(Pair(b))] else [])
                      + (if LightDue(s) && input.light.reply.Some? then [LightChanged] else [])
                      + (if Pair(r) == Pair(b) then [] else [PairMessage(Pair(r))])
  {
    hide ProcessQueue, Follow, NoteAll, TimersEnded, Contradicted, LightDue, LastHeard, Summarised, PairMessage;
    QueueSends(NoticeConnection(s, input), input.now, input.light);
    BeforePollFacts(s, input);
    PollSends(BeforePoll(s, input), input);
    NotingOnly(Follow(BeforePoll(s, input), input), input.clock);
    SameLight(s, input);
  }

  lemma SameLight(s: State, input: TickInput)
    ensures LightDue(NoticeConnection(s, input)) == LightDue(s)
  {
  }

  lemma QueueSends(s: State, now: int, light: Exchange<()>)
    requires Invariant(s)
    ensures var r := ProcessQueue(s, now, light);
            var contradicted := Contradicted(s.queue, 1, s.first.state) || Contradicted(s.queue, 2, s.second.state);
            r.sent == s.sent + TimersEnded(s.queue) + (if contradicted then [PairMessage(Pair(r))] else [])
                      + (if LightDue(s) && light.reply.Some? then [LightChanged] else [])
  {
    hide HandleAll, NoteAll, TimersEnded, Contradicted, PairChanges, LastAnnounced, LastHeard, Summarised;
    HandleAllSends(s, s.queue, now);
    HandleAllStates(s, s.queue, now);
    HandleAllLights(s, s.queue, now);
    var published := Publish(HandleAll(s, s.queue, now).(queue := []));
    NotingOnly(published.(lightChanged := false), light.arrived);
  }

  lemma PollSends(s: State, input: TickInput)
    requires Invariant(s)
    ensures var r := Follow(s, input);
            r.sent == s.sent + if Pair(r) == Pair(s) then [] else [PairMessage(Pair(r))]
  {
    hide NoteAll, LastHeard, Summarised, QuietQueue, QuietInput;
    if PollIsDue(s, input.now) {
      if input.status.reply.Some? {
        PollAnswered(s, input);
        hide Follow, FollowedTrack;
      } else {
        NotingOnly(s.(nextRead := input.now + WATCH_MS), input.status.arrived);
      }
    }
  }
}

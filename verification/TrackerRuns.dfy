/** What holds of the tracker in every run, and what a quiet device or a Stop brings it to. */
module TrackerRuns {
  import opened Common
  import opened Protocol
  import opened TrackerState

  // ---------------------------------------------------------------------
  // The invariant
  // ---------------------------------------------------------------------

  predicate TrackOk(t: Track) {
    && (t.hasRung <==> t.state == Ringing || t.state == Snoozed)
    && (t.state == Ringing ==> t.snoozeEnd == 0)
  }

  /** The pair of states subscribers last heard of; both idle before the first message. */
  function LastHeard(sent: seq<Message>): (AlarmState, AlarmState)
    decreases |sent|
  {
    if sent == [] then (Idle, Idle)
    else match sent[|sent| - 1]
      case AlarmStates(first, second, _) => (first, second)
      case _ => LastHeard(sent[..|sent| - 1])
  }

  predicate Summarised(sent: seq<Message>) {
    forall m :: m in sent && m.AlarmStates? ==> m.main == MainAlarm(m.first, m.second)
  }

  /** Holds at any point of a step; `changed` announces a broadcast still to come. */
  predicate Coherent(s: State) {
    && |s.queue| <= QUEUE_SIZE
    && TrackOk(s.first) && TrackOk(s.second)
    && (!BothIdle(s) || s.stopAsked ==> s.watching)
    && (!s.changed ==> LastHeard(s.sent) == (s.first.state, s.second.state))
    && Summarised(s.sent)
  }

  /** Holds between steps. */
  predicate Invariant(s: State) {
    Coherent(s) && !s.changed
  }

  /** With `t` the time of the last tick: no snooze and no poll is planned too far ahead. */
  predicate Timely(s: State, t: int) {
    && 0 <= t
    && s.first.snoozeEnd <= t + MAX_SNOOZE_MS && s.second.snoozeEnd <= t + MAX_SNOOZE_MS
    && s.nextRead <= t + WATCH_MS
  }

  predicate QuietCode(code: Byte) {
    code != EVT_SUNRISE_START && code != EVT_ALARM_RING
  }

  predicate QuietQueue(queue: seq<Event>) {
    forall e :: e in queue ==> QuietCode(e.code)
  }

  predicate QuietArrivals(arrived: seq<Notice>) {
    forall a :: a in arrived ==> QuietCode(a.code)
  }

  /** Noting messages touches nothing but the queue and the light flag. */
  predicate OnlyNoted(s: State, r: State) {
    && r == s.(queue := r.queue, lightChanged := r.lightChanged)
    && |r.queue| <= (if |s.queue| <= QUEUE_SIZE then QUEUE_SIZE else |s.queue|)
  }

  lemma {:induction false} NotingOnly(s: State, arrived: seq<Notice>)
    ensures OnlyNoted(s, NoteAll(s, arrived))
    ensures QuietQueue(s.queue) && QuietArrivals(arrived) ==> QuietQueue(NoteAll(s, arrived).queue)
    decreases |arrived|
  {
    if arrived != [] {
      NotingOnly(s, arrived[..|arrived| - 1]);
    }
  }

  lemma HeardLast(sent: seq<Message>, m: Message)
    ensures LastHeard(sent + [m]) == match m case AlarmStates(a, b, _) => (a, b) case _ => LastHeard(sent)
  {
    assert (sent + [m])[..|sent|] == sent;
  }

  lemma AnnounceCoherent(s: State, n: Byte, ring: bool, now: int)
    requires Coherent(s)
    ensures Coherent(Announce(s, n, ring, now))
    ensures Announce(s, n, ring, now).queue == s.queue && Announce(s, n, ring, now).nextRead == now + WATCH_MS
    ensures forall k :: 1 <= k <= 2 && Announce(s, n, ring, now).Alarm(k).state == Snoozed ==>
              s.Alarm(k).state == Snoozed
    ensures forall t :: Timely(s, t) && t <= now ==> Timely(Announce(s, n, ring, now), now)
  {
    hide LastHeard, Summarised;
    if n == 1 {
      assert Announce(s, n, ring, now).second == s.second;
    } else if n == 2 {
      assert Announce(s, n, ring, now).first == s.first;
    }
  }

  lemma TimerCoherent(s: State, timer: Timer, lightChanged: bool)
    requires Coherent(s)
    ensures Coherent(s.(lightChanged := lightChanged, sent := s.sent + [TimerEnded(timer)]))
  {
    HeardLast(s.sent, TimerEnded(timer));
  }

  lemma HandleCoherent(s: State, e: Event, now: int)
    requires Coherent(s)
    ensures Coherent(Handle(s, e, now))
    ensures Handle(s, e, now).queue == s.queue
    ensures QuietCode(e.code) ==> AlarmsUntouched(s, Handle(s, e, now))
    ensures AlarmsUntouched(s, Handle(s, e, now)) || Handle(s, e, now).nextRead == now + WATCH_MS
    ensures forall n :: 1 <= n <= 2 && Handle(s, e, now).Alarm(n).state == Snoozed ==> s.Alarm(n).state == Snoozed
    ensures forall t :: Timely(s, t) && t <= now ==> Timely(Handle(s, e, now), now)
  {
    hide Announce, Coherent;
    AnnounceCoherent(s, e.value, e.code == EVT_ALARM_RING, now);
    match TimerOf(e.code)
    case None =>
    case Some(timer) => TimerCoherent(s, timer, s.lightChanged || timer == Light || timer == Mood);
  }

  lemma PublishCoherent(s: State)
    requires Coherent(s)
    ensures Invariant(Publish(s))
  {
    HeardLast(s.sent, AlarmStates(s.first.state, s.second.state, MainAlarm(s.first.state, s.second.state)));
  }

  /** Either no alarm message is handled and the alarms stay as they are, or the next poll is put off. */
  predicate AlarmsUntouched(s: State, r: State) {
    && r.first == s.first && r.second == s.second && r.watching == s.watching
    && r.nextRead == s.nextRead && r.stopAsked == s.stopAsked && r.changed == s.changed
  }

  lemma {:induction false} HandleAllCoherent(s: State, events: seq<Event>, now: int)
    requires Coherent(s)
    ensures Coherent(HandleAll(s, events, now))
    ensures HandleAll(s, events, now).queue == s.queue
    ensures QuietQueue(events) ==> AlarmsUntouched(s, HandleAll(s, events, now))
    ensures AlarmsUntouched(s, HandleAll(s, events, now)) || HandleAll(s, events, now).nextRead == now + WATCH_MS
    ensures forall n :: 1 <= n <= 2 && HandleAll(s, events, now).Alarm(n).state == Snoozed ==>
              s.Alarm(n).state == Snoozed
    ensures forall t :: Timely(s, t) && t <= now ==> Timely(HandleAll(s, events, now), now)
    decreases |events|
  {
    hide Handle, Coherent;
    if events == [] {
    } else {
      var before := HandleAll(s, events[..|events| - 1], now);
      var e := events[|events| - 1];
      HandleAllCoherent(s, events[..|events| - 1], now);
      HandleCoherent(before, e, now);
    }
  }

  /** No step makes an alarm snoozed that was neither ringing nor snoozed. */
  predicate SnoozedFromRing(s: State, r: State) {
    forall n :: 1 <= n <= 2 && r.Alarm(n).state == Snoozed ==>
      s.Alarm(n).state == Ringing || s.Alarm(n).state == Snoozed
  }

  lemma ProcessCoherent(s: State, now: int, light: Exchange<()>)
    requires Invariant(s)
    ensures Invariant(ProcessQueue(s, now, light))
    ensures QuietQueue(s.queue) ==> AlarmsUntouched(s, ProcessQueue(s, now, light))
    ensures QuietArrivals(light.arrived) ==> QuietQueue(ProcessQueue(s, now, light).queue)
    ensures AlarmsUntouched(s, ProcessQueue(s, now, light)) || ProcessQueue(s, now, light).nextRead == now + WATCH_MS
    ensures forall n :: 1 <= n <= 2 && ProcessQueue(s, now, light).Alarm(n).state == Snoozed ==>
              s.Alarm(n).state == Snoozed
    ensures forall t :: Timely(s, t) && t <= now ==> Timely(ProcessQueue(s, now, light), now)
  {
    hide HandleAll, NoteAll, LastHeard, Summarised;
    HandleAllCoherent(s, s.queue, now);
    var handled := HandleAll(s, s.queue, now).(queue := []);
    PublishCoherent(handled);
    var published := Publish(handled);
    if published.lightChanged {
      NotingOnly(published.(lightChanged := false), light.arrived);
      HeardLast(published.sent, LightChanged);
      SummarisedMore(published.sent, LightChanged);
    }
  }

  lemma SummarisedMore(sent: seq<Message>, m: Message)
    requires Summarised(sent) && (m.AlarmStates? ==> m.main == MainAlarm(m.first, m.second))
    ensures Summarised(sent + [m])
  {
  }

  // ---------------------------------------------------------------------
  // One poll
  // ---------------------------------------------------------------------

  /** What a poll may make of one alarm. */
  predicate FollowedTrack(before: Track, after: Track, mine: bool, rising: bool, stopAsked: bool, now: int, minutes: int) {
    && TrackOk(after)
    && (mine ==> after.state == Ringing)
    && (!mine && stopAsked ==> after.state == Idle)
    && (!mine && !stopAsked && rising ==> after == before.(state := if before.hasRung then Snoozed else Sunrise))
    && (!mine && !stopAsked && !rising ==>
          match before.state
          case Ringing => after.state == Snoozed && after.snoozeEnd == now + minutes * 60000 + SNOOZE_MARGIN_MS > now
          case Snoozed => if now < before.snoozeEnd then after == before else after.state == Idle
          case _ => after.state == Idle)
    && (after.snoozeEnd == before.snoozeEnd || after.snoozeEnd <= now + MAX_SNOOZE_MS)
  }

  /** What following alarm `n` changes in the rest of the state: the announcement, and messages noted meanwhile. */
  predicate FollowedRest(s: State, r: State, n: int) {
    && r == s.WithAlarm(n, r.Alarm(n)).(queue := r.queue, lightChanged := r.lightChanged, changed := r.changed)
    && r.changed == (s.changed || r.Alarm(n).state != s.Alarm(n).state)
    && |r.queue| <= QUEUE_SIZE
  }

  lemma FollowingRest(s: State, n: int, sunrise: Byte, ringing: Byte, now: nat, setting: Exchange<Byte>)
    requires |s.queue| <= QUEUE_SIZE && 1 <= n <= 2
    ensures FollowedRest(s, FollowAlarm(s, n, sunrise, ringing, now, setting), n)
    ensures QuietQueue(s.queue) && QuietArrivals(setting.arrived) ==>
              QuietQueue(FollowAlarm(s, n, sunrise, ringing, now, setting).queue)
  {
    hide NoteAll, NextTrack, SnoozeMinutes, QuietQueue, QuietArrivals;
    NotingOnly(s, setting.arrived);
  }

  lemma FollowingTrack(t: Track, mine: bool, rising: bool, stopAsked: bool, now: nat, minutes: int)
    requires TrackOk(t) && 1 <= minutes <= 30
    ensures FollowedTrack(t, NextTrack(t, mine, rising, stopAsked, now, minutes), mine, rising, stopAsked, now, minutes)
  {
  }

  predicate QuietInput(input: TickInput) {
    && QuietArrivals(input.light.arrived) && QuietArrivals(input.status.arrived) && QuietArrivals(input.clock)
    && QuietArrivals(input.SnoozeOf(1).arrived) && QuietArrivals(input.SnoozeOf(2).arrived)
  }

  /** The snooze durations that a poll would find for the two alarms. */
  function MinutesRead(input: TickInput): (int, int) {
    (SnoozeMinutes(input.SnoozeOf(1).reply), SnoozeMinutes(input.SnoozeOf(2).reply))
  }

  /** A poll that is answered: both alarms followed, one broadcast iff a state changed, the watch ended iff both are idle. */
  predicate Polled(s: State, r: State, sunrise: Byte, ringing: Byte, now: int, minutes: (int, int)) {
    && FollowedTrack(s.first, r.first, ringing == 1, sunrise == 1, s.stopAsked, now, minutes.0)
    && FollowedTrack(s.second, r.second, ringing == 2, sunrise == 2, s.stopAsked, now, minutes.1)
    && r.nextRead == now + WATCH_MS
    && r.watching == !BothIdle(r)
    && r.stopAsked == (s.stopAsked && !BothIdle(r))
    && r.sent == (if r.first.state == s.first.state && r.second.state == s.second.state then s.sent
                  else s.sent + [AlarmStates(r.first.state, r.second.state, MainAlarm(r.first.state, r.second.state))])
  }

  lemma PollAnswered(s: State, input: TickInput)
    requires Invariant(s) && PollIsDue(s, input.now) && input.status.reply.Some?
    ensures Invariant(Follow(s, input))
    ensures Polled(s, Follow(s, input), input.status.reply.value.0, input.status.reply.value.1, input.now, MinutesRead(input))
    ensures QuietQueue(s.queue) && QuietInput(input) ==> QuietQueue(Follow(s, input).queue)
  {
    hide NoteAll, NextTrack, SnoozeMinutes, PresumesSnooze, LastHeard, Summarised, QuietQueue, QuietArrivals, FollowedTrack, TickInput.SnoozeOf;
    var now := input.now;
    var (sunrise, ringing) := input.status.reply.value;
    NotingOnly(s.(nextRead := now + WATCH_MS), input.status.arrived);
    var asked := NoteAll(s.(nextRead := now + WATCH_MS), input.status.arrived);
    FollowingRest(asked, 1, sunrise, ringing, now, input.SnoozeOf(1));
    FollowingTrack(s.first, ringing == 1, sunrise == 1, s.stopAsked, now, SnoozeMinutes(input.SnoozeOf(1).reply));
    var one := FollowAlarm(asked, 1, sunrise, ringing, now, input.SnoozeOf(1));
    FollowingRest(one, 2, sunrise, ringing, now, input.SnoozeOf(2));
    FollowingTrack(s.second, ringing == 2, sunrise == 2, s.stopAsked, now, SnoozeMinutes(input.SnoozeOf(2).reply));
    var two := FollowAlarm(one, 2, sunrise, ringing, now, input.SnoozeOf(2));
    FollowedIsOk(s.first, two.first, ringing == 1, sunrise == 1, s.stopAsked, now, MinutesRead(input).0);
    FollowedIsOk(s.second, two.second, ringing == 2, sunrise == 2, s.stopAsked, now, MinutesRead(input).1);
    PublishCoherent(if BothIdle(two) then two.(watching := false, stopAsked := false) else two);
  }

  lemma FollowedIsOk(before: Track, after: Track, mine: bool, rising: bool, stopAsked: bool, now: int, minutes: int)
    requires FollowedTrack(before, after, mine, rising, stopAsked, now, minutes)
    ensures TrackOk(after)
  {
  }

  // ---------------------------------------------------------------------
  // Any step, any run
  // ---------------------------------------------------------------------

  lemma BeforePollFacts(s: State, input: TickInput)
    requires Invariant(s)
    ensures Invariant(BeforePoll(s, input))
    ensures QuietQueue(s.queue) ==>
              AlarmsUntouched(NoticeConnection(s, input), BeforePoll(s, input))
              && (QuietInput(input) ==> QuietQueue(BeforePoll(s, input).queue))
    ensures PollIsDue(BeforePoll(s, input), input.now) ==>
              BeforePoll(s, input).first == s.first && BeforePoll(s, input).second == s.second
              && BeforePoll(s, input).stopAsked == s.stopAsked
    ensures forall n :: 1 <= n <= 2 && BeforePoll(s, input).Alarm(n).state == Snoozed ==> s.Alarm(n).state == Snoozed
    ensures forall t :: Timely(s, t) && t <= input.now ==> Timely(BeforePoll(s, input), input.now)
  {
    hide ProcessQueue, LastHeard, Summarised, QuietQueue, QuietArrivals;
    ProcessCoherent(NoticeConnection(s, input), input.now, input.light);
    forall t | Timely(s, t) && t <= input.now
      ensures Timely(BeforePoll(s, input), input.now)
    {
      assert Timely(NoticeConnection(s, input), t);
    }
  }

  lemma FollowFacts(s: State, input: TickInput)
    requires Invariant(s)
    ensures Invariant(Follow(s, input))
    ensures QuietQueue(s.queue) && QuietInput(input) ==> QuietQueue(Follow(s, input).queue)
    ensures SnoozedFromRing(s, Follow(s, input))
    ensures !PollIsDue(s, input.now) || input.status.reply.None? ==>
              Follow(s, input) == s.(queue := Follow(s, input).queue, lightChanged := Follow(s, input).lightChanged,
                                     nextRead := Follow(s, input).nextRead)
    ensures Timely(s, input.now) ==> Timely(Follow(s, input), input.now)
  {
    hide NoteAll, LastHeard, Summarised, QuietQueue, QuietArrivals;
    if PollIsDue(s, input.now) {
      if input.status.reply.Some? {
        hide Follow;
        PollAnswered(s, input);
      } else {
        NotingOnly(s.(nextRead := input.now + WATCH_MS), input.status.arrived);
      }
    }
  }

  lemma StepKeepsInvariant(s: State, step: Step)
    requires Invariant(s)
    ensures Invariant(Apply(s, step))
    ensures SnoozedFromRing(s, Apply(s, step))
  {
    hide BeforePoll, Follow, NoteAll, LastHeard, Summarised, QuietQueue, QuietArrivals;
    match step
    case Arrives(message) =>
    case Ticks(input) =>
      if input.connected {
        BeforePollFacts(s, input);
        var before := BeforePoll(s, input);
        FollowFacts(before, input);
        NotingOnly(Follow(before, input), input.clock);
        assert forall n :: 1 <= n <= 2 && Follow(before, input).Alarm(n).state == Snoozed ==>
            s.Alarm(n).state == Ringing || s.Alarm(n).state == Snoozed by {
          if !PollIsDue(before, input.now) { assert Follow(before, input).first == before.first; }
        }
      }
    case Acts(stop, exchange) =>
      NotingOnly(s, exchange.arrived);
  }

  /**
   * In every reachable state: an alarm has rung iff it is ringing or snoozed; a ringing alarm has no
   * presumed end of snooze; an alarm under way, or a pending stop, keeps the watch on; subscribers were
   * last told of the two present states; every broadcast names the most advanced alarm.
   */
  lemma {:induction false} ReachableInvariant(steps: seq<Step>)
    ensures Invariant(Run(INITIAL, steps))
    decreases |steps|
  {
    if steps != [] {
      ReachableInvariant(steps[..|steps| - 1]);
      StepKeepsInvariant(Run(INITIAL, steps[..|steps| - 1]), steps[|steps| - 1]);
    }
  }

  /** The state of alarm `n` after the first `k` steps of a run. */
  function StateAfter(steps: seq<Step>, k: nat, n: int): AlarmState
    requires k <= |steps|
  {
    Run(INITIAL, steps[..k]).Alarm(n).state
  }

  /** A snoozed alarm rang at some earlier step and has been snoozed at every step since. */
  lemma {:induction false} SnoozedAfterRing(steps: seq<Step>, k: nat, n: int)
    requires 1 <= n <= 2 && k <= |steps| && StateAfter(steps, k, n) == Snoozed
    ensures exists j :: 0 <= j < k && StateAfter(steps, j, n) == Ringing
                        && forall i :: j < i <= k ==> StateAfter(steps, i, n) == Snoozed
    decreases k
  {
    hide Apply, Invariant;
    if k > 0 {
      assert steps[..k][..k - 1] == steps[..k - 1];
      ReachableInvariant(steps[..k - 1]);
      StepKeepsInvariant(Run(INITIAL, steps[..k - 1]), steps[k - 1]);
      if StateAfter(steps, k - 1, n) == Snoozed {
        SnoozedAfterRing(steps, k - 1, n);
      }
    }
  }

  // ---------------------------------------------------------------------
  // Time
  // ---------------------------------------------------------------------

  /** The time of the last tick of a run, `from` if there is none. */
  function LastTime(steps: seq<Step>, from: int): int
    decreases |steps|
  {
    if steps == [] then from
    else if steps[|steps| - 1].Ticks? then steps[|steps| - 1].input.now
    else LastTime(steps[..|steps| - 1], from)
  }

  /** Tick times never go back, starting from `from`. */
  predicate Chronological(steps: seq<Step>, from: int)
    decreases |steps|
  {
    steps != [] ==>
      && Chronological(steps[..|steps| - 1], from)
      && (steps[|steps| - 1].Ticks? ==> LastTime(steps[..|steps| - 1], from) <= steps[|steps| - 1].input.now)
  }

  lemma StepKeepsTimely(s: State, step: Step, t: int)
    requires Invariant(s) && Timely(s, t)
    requires step.Ticks? ==> t <= step.input.now
    ensures Timely(Apply(s, step), if step.Ticks? then step.input.now else t)
  {
    hide BeforePoll, Follow, NoteAll, LastHeard, Summarised, QuietQueue, QuietArrivals;
    match step
    case Arrives(message) =>
    case Ticks(input) =>
      if input.connected {
        BeforePollFacts(s, input);
        FollowFacts(BeforePoll(s, input), input);
        NotingOnly(Follow(BeforePoll(s, input), input), input.clock);
      }
    case Acts(stop, exchange) =>
      NotingOnly(s, exchange.arrived);
  }

  /** In every chronological run, no presumed snooze ends more than 31 minutes after the last tick. */
  lemma {:induction false} ReachableTimely(steps: seq<Step>)
    requires Chronological(steps, 0)
    ensures Timely(Run(INITIAL, steps), LastTime(steps, 0))
    decreases |steps|
  {
    hide Apply, Invariant;
    if steps != [] {
      hide Timely;
      var past, last := steps[..|steps| - 1], steps[|steps| - 1];
      ReachableTimely(past);
      ReachableInvariant(past);
      StepKeepsTimely(Run(INITIAL, past), last, LastTime(past, 0));
    }
  }

  // ---------------------------------------------------------------------
  // A quiet device
  // ---------------------------------------------------------------------

  /** No sunrise or ring is announced during the step. */
  predicate QuietMessages(step: Step) {
    match step
    case Arrives(message) => QuietCode(message.code)
    case Ticks(input) => QuietInput(input)
    case Acts(stop, exchange) => QuietArrivals(exchange.arrived)
  }

  /** Moreover, a poll that is made is answered "nothing under way". */
  predicate QuietStep(step: Step) {
    QuietMessages(step) && (step.Ticks? ==> step.input.status.reply == Some((0, 0)))
  }

  predicate QuietSteps(steps: seq<Step>) {
    forall i :: 0 <= i < |steps| ==> QuietStep(steps[i])
  }

  /** What a first quiet poll at time `p` establishes, and quiet steps keep. */
  predicate Settled(s: State, p: nat) {
    && Invariant(s) && QuietQueue(s.queue)
    && s.first.state != Ringing && s.second.state != Ringing
    && (s.first.state == Snoozed ==> s.first.snoozeEnd <= p + MAX_SNOOZE_MS)
    && (s.second.state == Snoozed ==> s.second.snoozeEnd <= p + MAX_SNOOZE_MS)
    && (!BothIdle(s) ==> s.nextRead <= p + MAX_SNOOZE_MS + WATCH_MS)
    && (BothIdle(s) && s.watching ==> s.nextRead == 0)
  }

  /** A tick makes a poll and gets an answer. */
  predicate Answered(s: State, input: TickInput) {
    input.connected && PollIsDue(BeforePoll(s, input), input.now) && input.status.reply.Some?
  }

  /** A connected tick without sunrise or ring messages: only an answered poll changes the alarms. */
  lemma QuietTickFacts(s: State, input: TickInput)
    requires Invariant(s) && QuietQueue(s.queue) && QuietInput(input) && input.connected
    ensures var b := BeforePoll(s, input);
            && Invariant(b) && b.first == s.first && b.second == s.second && b.stopAsked == s.stopAsked
            && (s.watching ==> b.watching) && (b.watching ==> s.watching || b.nextRead == 0)
            && (b.nextRead == s.nextRead || b.nextRead == 0)
    ensures var r := Tick(s, input);
            && Invariant(r) && QuietQueue(r.queue)
            && (if Answered(s, input) then
                  var (sunrise, ringing) := input.status.reply.value;
                  && FollowedTrack(s.first, r.first, ringing == 1, sunrise == 1, s.stopAsked, input.now,
                                   MinutesRead(input).0)
                  && FollowedTrack(s.second, r.second, ringing == 2, sunrise == 2, s.stopAsked, input.now,
                                   MinutesRead(input).1)
                  && r.nextRead == input.now + WATCH_MS && r.watching == !BothIdle(r)
                  && r.stopAsked == (s.stopAsked && !BothIdle(r))
                else
                  var b := BeforePoll(s, input);
                  r.first == s.first && r.second == s.second && r.stopAsked == s.stopAsked
                  && r.watching == b.watching && (input.status.reply.Some? ==> r.nextRead == b.nextRead))
  {
    hide NoteAll, ProcessQueue, LastHeard, Summarised, QuietQueue, QuietArrivals, FollowedTrack;
    BeforePollFacts(s, input);
    var b := BeforePoll(s, input);
    NotingOnly(b.(nextRead := input.now + WATCH_MS), input.status.arrived);
    if Answered(s, input) {
      hide Follow;
      PollAnswered(b, input);
    }
    NotingOnly(Follow(b, input), input.clock);
  }

  lemma QuietActFacts(s: State, stop: bool, exchange: Exchange<()>)
    requires Invariant(s) && QuietQueue(s.queue) && QuietArrivals(exchange.arrived)
    ensures var r := Act(s, stop, exchange);
            && Invariant(r) && QuietQueue(r.queue) && r.first == s.first && r.second == s.second
            && r.watching && r.nextRead == 0
            && r.stopAsked == (s.stopAsked || (stop && exchange.reply.Some?))
  {
    hide NoteAll, LastHeard, Summarised, QuietQueue, QuietArrivals;
    NotingOnly(s, exchange.arrived);
  }

  lemma QuietArrivalFacts(s: State, message: Notice)
    requires Invariant(s) && QuietQueue(s.queue) && QuietCode(message.code)
    ensures var r := Note(s, message);
            && Invariant(r) && QuietQueue(r.queue) && OnlyNoted(s, r)
  {
    hide LastHeard, Summarised;
  }

  /** The first quiet poll, at time `p`. */
  lemma SettledByPoll(s: State, input: TickInput)
    requires Invariant(s) && Timely(s, input.now) && QuietQueue(s.queue)
    requires QuietStep(Ticks(input)) && input.connected && PollIsDue(BeforePoll(s, input), input.now)
    ensures Settled(Tick(s, input), input.now)
  {
    hide Tick, BeforePoll, Invariant, QuietQueue, QuietInput;
    QuietTickFacts(s, input);
  }

  lemma SettledStep(s: State, step: Step, p: nat)
    requires Settled(s, p) && QuietStep(step)
    ensures Settled(Apply(s, step), p)
    ensures BothIdle(s) ==> BothIdle(Apply(s, step))
  {
    hide Tick, Act, Note, BeforePoll, Invariant, QuietQueue, QuietInput, QuietArrivals, QuietCode;
    match step
    case Arrives(message) => QuietArrivalFacts(s, message);
    case Ticks(input) => if input.connected { QuietTickFacts(s, input); } else { DisconnectedTick(s, input); }
    case Acts(stop, exchange) => QuietActFacts(s, stop, exchange);
  }

  lemma DisconnectedTick(s: State, input: TickInput)
    requires !input.connected
    ensures Tick(s, input) == s
  {
  }

  lemma {:induction false} SettledRun(s: State, steps: seq<Step>, p: nat)
    requires Settled(s, p) && QuietSteps(steps)
    ensures Settled(Run(s, steps), p)
    ensures BothIdle(s) ==> BothIdle(Run(s, steps))
    decreases |steps|
  {
    hide Apply, Settled, QuietStep, BothIdle;
    if steps != [] {
      SettledRun(s, steps[..|steps| - 1], p);
      SettledStep(Run(s, steps[..|steps| - 1]), steps[|steps| - 1], p);
    }
  }

  /** In a settled state, a poll 31 minutes after `p`, or any connected tick a watch period later, ends everything. */
  lemma SettledTickEnds(s: State, input: TickInput, p: nat)
    requires Settled(s, p) && QuietStep(Ticks(input)) && input.connected
    requires || (input.now >= p + MAX_SNOOZE_MS && PollIsDue(BeforePoll(s, input), input.now))
             || input.now >= p + MAX_SNOOZE_MS + WATCH_MS
    ensures BothIdle(Tick(s, input)) && !Tick(s, input).watching && !Tick(s, input).stopAsked
  {
    hide Tick, BeforePoll, QuietQueue, QuietInput, LastHeard, Summarised;
    QuietTickFacts(s, input);
  }

  /**
   * From any reachable state with no sunrise or ring still to process: once every poll says that nothing
   * is under way, both alarms are idle, polling has stopped and no stop is pending after the first poll
   * made 31 minutes or more after the first of these polls, and after any connected tick a second later
   * than that, whatever presumed snoozes, requests, reconnections and other messages come in between;
   * and both alarms stay idle for as long as the device stays quiet.
   */
  lemma BoundedReturnToIdle(past: seq<Step>, poll: TickInput, quiet: seq<Step>, last: TickInput, after: seq<Step>)
    requires Chronological(past, 0) && QuietQueue(Run(INITIAL, past).queue)
    requires LastTime(past, 0) <= poll.now && QuietStep(Ticks(poll)) && poll.connected
    requires PollIsDue(BeforePoll(Run(INITIAL, past), poll), poll.now)
    requires QuietSteps(quiet) && QuietStep(Ticks(last)) && last.connected && QuietSteps(after)
    requires var before := Run(Tick(Run(INITIAL, past), poll), quiet);
             || (last.now >= poll.now + MAX_SNOOZE_MS && PollIsDue(BeforePoll(before, last), last.now))
             || last.now >= poll.now + MAX_SNOOZE_MS + WATCH_MS
    ensures var end := Tick(Run(Tick(Run(INITIAL, past), poll), quiet), last);
            && BothIdle(end) && !end.watching && !end.stopAsked
            && BothIdle(Run(end, after))
  {
    hide Tick, BeforePoll, Settled, Invariant, QuietQueue, QuietStep, BothIdle, PollIsDue;
    var s := Run(INITIAL, past);
    ReachableInvariant(past);
    ReachableTimely(past);
    TimelyLater(s, LastTime(past, 0), poll.now);
    SettledByPoll(s, poll);
    SettledRun(Tick(s, poll), quiet, poll.now);
    var before := Run(Tick(s, poll), quiet);
    SettledTickEnds(before, last, poll.now);
    SettledStep(before, Ticks(last), poll.now);
    SettledRun(Tick(before, last), after, poll.now);
  }

  lemma TimelyLater(s: State, t: int, later: int)
    requires Timely(s, t) && t <= later
    ensures Timely(s, later)
  {
  }

  // ---------------------------------------------------------------------
  // A presumed snooze, in a quiet run
  // ---------------------------------------------------------------------

  /** No stop is acknowledged during the step. */
  predicate NoStop(step: Step) {
    step.Acts? && step.stop ==> step.exchange.reply.None?
  }

  /** A poll made and answered at `end` or later. */
  predicate PollsFrom(s: State, step: Step, end: int) {
    step.Ticks? && Answered(s, step.input) && step.input.now >= end
  }

  /** Whether some poll of the run is made and answered at `end` or later. */
  predicate SomePollFrom(s: State, steps: seq<Step>, end: int)
    decreases |steps|
  {
    steps != [] && var past, last := steps[..|steps| - 1], steps[|steps| - 1];
                   SomePollFrom(s, past, end) || PollsFrom(Run(s, past), last, end)
  }

  lemma SnoozeStep(s: State, step: Step, n: int)
    requires Invariant(s) && QuietQueue(s.queue) && !s.stopAsked && 1 <= n <= 2
    requires QuietStep(step) && NoStop(step)
    ensures var r := Apply(s, step);
            && Invariant(r) && QuietQueue(r.queue) && !r.stopAsked
            && (s.Alarm(n).state == Idle ==> r.Alarm(n).state == Idle)
            && (s.Alarm(n).state == Snoozed ==>
                  if PollsFrom(s, step, s.Alarm(n).snoozeEnd) then r.Alarm(n).state == Idle
                  else r.Alarm(n) == s.Alarm(n))
  {
    hide Tick, Act, Note, BeforePoll, PollIsDue, Invariant, QuietQueue, QuietInput, QuietArrivals, QuietCode;
    match step
    case Arrives(message) => QuietArrivalFacts(s, message);
    case Ticks(input) => if input.connected { QuietTickFacts(s, input); } else { DisconnectedTick(s, input); }
    case Acts(stop, exchange) => QuietActFacts(s, stop, exchange);
  }

  lemma {:induction false} SnoozeRun(s: State, steps: seq<Step>, n: int)
    requires Invariant(s) && QuietQueue(s.queue) && !s.stopAsked && 1 <= n <= 2 && s.Alarm(n).state == Snoozed
    requires forall i :: 0 <= i < |steps| ==> QuietStep(steps[i]) && NoStop(steps[i])
    ensures var r := Run(s, steps);
            && Invariant(r) && QuietQueue(r.queue) && !r.stopAsked
            && if SomePollFrom(s, steps, s.Alarm(n).snoozeEnd) then r.Alarm(n).state == Idle
               else r.Alarm(n) == s.Alarm(n)
    decreases |steps|
  {
    hide Apply, Invariant, QuietQueue, QuietStep, NoStop, PollsFrom;
    if steps != [] {
      SnoozeRun(s, steps[..|steps| - 1], n);
      SnoozeStep(Run(s, steps[..|steps| - 1]), steps[|steps| - 1], n);
    }
  }

  /**
   * An alarm that stops ringing by itself is snoozed for exactly its snooze duration, as read from the
   * device at that poll, and one minute: as long as the device stays quiet and no stop is acknowledged, it
   * is snoozed until the first answered poll from then on, which makes it idle for good.
   */
  lemma SnoozeLastsItsDuration(past: seq<Step>, poll: TickInput, steps: seq<Step>, n: int)
    requires var s := Run(INITIAL, past);
             && 1 <= n <= 2 && s.Alarm(n).state == Ringing && !s.stopAsked && QuietQueue(s.queue)
             && QuietStep(Ticks(poll)) && Answered(s, poll)
    requires forall i :: 0 <= i < |steps| ==> QuietStep(steps[i]) && NoStop(steps[i])
    ensures var s := Tick(Run(INITIAL, past), poll);
            var end := poll.now + SnoozeMinutes(poll.SnoozeOf(n).reply) * 60000 + SNOOZE_MARGIN_MS;
            Run(s, steps).Alarm(n).state == if SomePollFrom(s, steps, end) then Idle else Snoozed
  {
    hide Tick, Run, BeforePoll, PollIsDue, Invariant, QuietQueue, QuietInput, SomePollFrom, TickInput.SnoozeOf, SnoozeMinutes;
    ReachableInvariant(past);
    QuietTickFacts(Run(INITIAL, past), poll);
    SnoozeRun(Tick(Run(INITIAL, past), poll), steps, n);
  }

  // ---------------------------------------------------------------------
  // A stop that was asked for
  // ---------------------------------------------------------------------

  /** The step polls and is told that neither alarm rings; what it is told about sunrise does not matter. */
  predicate HearsSilence(s: State, step: Step) {
    step.Ticks? && Answered(s, step.input) && step.input.status.reply.value.1 !in {1, 2}
  }

  predicate NoNewSnooze(s: State, r: State) {
    forall n :: 1 <= n <= 2 && r.Alarm(n).state == Snoozed ==> s.Alarm(n).state == Snoozed
  }

  /** The step polls and is answered. */
  predicate Polls(s: State, step: Step) {
    step.Ticks? && Answered(s, step.input)
  }

  /** What the last answered poll of the run said about ringing, if there was one. */
  function LastRinging(s: State, steps: seq<Step>): Option<Byte>
    decreases |steps|
  {
    if steps == [] then None
    else
      var past, last := steps[..|steps| - 1], steps[|steps| - 1];
      if Polls(Run(s, past), last) then Some(last.input.status.reply.value.1) else LastRinging(s, past)
  }

  /** With a stop pending: nothing changes before a poll is answered, and then an alarm rings if it is named and is idle if not. */
  function StateWhenStopped(before: AlarmState, ringing: Option<Byte>, n: int): AlarmState {
    match ringing
    case None => before
    case Some(number) => if number as int == n then Ringing else Idle
  }

  lemma StopStep(s: State, step: Step)
    requires Invariant(s) && s.stopAsked && QuietQueue(s.queue) && QuietMessages(step)
    ensures var r := Apply(s, step);
            && Invariant(r) && QuietQueue(r.queue) && NoNewSnooze(s, r)
            && (forall n :: 1 <= n <= 2 ==>
                  r.Alarm(n).state == StateWhenStopped(s.Alarm(n).state,
                                        if Polls(s, step) then Some(step.input.status.reply.value.1) else None, n))
            && if HearsSilence(s, step) then BothIdle(r) && !r.stopAsked && !r.watching else r.stopAsked
  {
    hide Tick, Act, Note, BeforePoll, PollIsDue, Invariant, QuietQueue, QuietInput, QuietArrivals, QuietCode;
    match step
    case Arrives(message) => QuietArrivalFacts(s, message);
    case Ticks(input) => if input.connected { QuietTickFacts(s, input); } else { DisconnectedTick(s, input); }
    case Acts(stop, exchange) => QuietActFacts(s, stop, exchange);
  }

  lemma {:induction false} StopRun(s: State, steps: seq<Step>, k: nat)
    requires k <= |steps| && Invariant(s) && s.stopAsked && QuietQueue(s.queue)
    requires forall i :: 0 <= i < |steps| ==> QuietMessages(steps[i]) && !HearsSilence(Run(s, steps[..i]), steps[i])
    ensures var r := Run(s, steps[..k]);
            && Invariant(r) && r.stopAsked && QuietQueue(r.queue) && NoNewSnooze(s, r)
            && forall n :: 1 <= n <= 2 ==>
                 r.Alarm(n).state == StateWhenStopped(s.Alarm(n).state, LastRinging(s, steps[..k]), n)
    decreases k
  {
    hide Apply, Invariant, QuietQueue, QuietMessages, HearsSilence, Polls;
    if k > 0 {
      StopRun(s, steps, k - 1);
      assert steps[..k][..k - 1] == steps[..k - 1];
      StopStep(Run(s, steps[..k - 1]), steps[k - 1]);
    }
  }

  /**
   * After an acknowledged Alarm/Stop, as long as no sunrise or ring message is processed: no alarm becomes
   * snoozed; each alarm keeps its state until a poll is answered, and is then ringing or idle as the last
   * such poll names it or not; and the first answered poll that hears no ringing makes both alarms idle,
   * clears the request and ends the watch, whatever it says about sunrise.
   */
  lemma StopIsNotSnooze(past: seq<Step>, exchange: Exchange<()>, steps: seq<Step>, last: Step)
    requires exchange.reply.Some?
    requires var s := Act(Run(INITIAL, past), true, exchange);
             && QuietQueue(s.queue)
             && (forall i :: 0 <= i < |steps| ==>
                   QuietMessages(steps[i]) && !HearsSilence(Run(s, steps[..i]), steps[i]))
             && QuietMessages(last) && HearsSilence(Run(s, steps), last)
    ensures var s := Act(Run(INITIAL, past), true, exchange);
            && (forall k :: 0 <= k <= |steps| ==>
                  Run(s, steps[..k]).stopAsked && NoNewSnooze(Run(INITIAL, past), Run(s, steps[..k])))
            && (forall k, n :: 0 <= k <= |steps| && 1 <= n <= 2 ==>
                  Run(s, steps[..k]).Alarm(n).state
                  == StateWhenStopped(Run(INITIAL, past).Alarm(n).state, LastRinging(s, steps[..k]), n))
            && var end := Apply(Run(s, steps), last);
               BothIdle(end) && !end.stopAsked && !end.watching
  {
    hide Apply, Act, Run, Invariant, QuietQueue, QuietMessages, HearsSilence, LastRinging, StateWhenStopped;
    var s0 := Run(INITIAL, past);
    var s := Act(s0, true, exchange);
    ReachableInvariant(past);
    ActFacts(s0, true, exchange);
    forall k | 0 <= k <= |steps|
      ensures Run(s, steps[..k]).stopAsked && NoNewSnooze(s0, Run(s, steps[..k]))
      ensures forall n :: 1 <= n <= 2 ==>
                Run(s, steps[..k]).Alarm(n).state == StateWhenStopped(s0.Alarm(n).state, LastRinging(s, steps[..k]), n)
    {
      StopRun(s, steps, k);
    }
    StopRun(s, steps, |steps|);
    assert steps[..|steps|] == steps;
    StopStep(Run(s, steps), last);
  }

  lemma ActFacts(s: State, stop: bool, exchange: Exchange<()>)
    requires Invariant(s)
    ensures var r := Act(s, stop, exchange);
            && Invariant(r) && r.first == s.first && r.second == s.second && r.watching
            && r.stopAsked == (s.stopAsked || (stop && exchange.reply.Some?))
  {
    hide NoteAll, LastHeard, Summarised;
    NotingOnly(s, exchange.arrived);
  }

  // ---------------------------------------------------------------------
  // Broadcasts
  // ---------------------------------------------------------------------

  function Pair(s: State): (AlarmState, AlarmState) {
    (s.first.state, s.second.state)
  }

  /** The broadcast of a pair of states. */
  function PairMessage(pair: (AlarmState, AlarmState)): Message {
    AlarmStates(pair.0, pair.1, MainAlarm(pair.0, pair.1))
  }

  /** The broadcasts of the states, among everything subscribers were sent. */
  function Broadcasts(sent: seq<Message>): seq<Message>
    decreases |sent|
  {
    if sent == [] then []
    else
      var last := sent[|sent| - 1];
      Broadcasts(sent[..|sent| - 1]) + if last.AlarmStates? then [last] else []
  }

  lemma BroadcastsGrow(sent: seq<Message>, m: Message)
    ensures Broadcasts(sent + [m]) == Broadcasts(sent) + if m.AlarmStates? then [m] else []
  {
    assert (sent + [m])[..|sent|] == sent;
  }

  /** The state a message announces for alarm `n`, if it is about that alarm. */
  function Announced(e: Event, n: int): Option<AlarmState> {
    if e.value as int != n then None
    else if e.code == EVT_SUNRISE_START then Some(Sunrise)
    else if e.code == EVT_ALARM_RING then Some(Ringing)
    else None
  }

  /** The state last announced for alarm `n`, `state` if there is none. */
  function LastAnnounced(events: seq<Event>, n: int, state: AlarmState): AlarmState
    decreases |events|
  {
    if events == [] then state
    else match Announced(events[|events| - 1], n)
      case Some(announced) => announced
      case None => LastAnnounced(events[..|events| - 1], n, state)
  }

  /** Some message announces, for alarm `n`, a state other than `state`. */
  predicate Contradicted(events: seq<Event>, n: int, state: AlarmState) {
    exists i :: 0 <= i < |events| && Announced(events[i], n) !in {None, Some(state)}
  }

  /** Handling the first messages of the queue changes the pair of states at some point, perhaps only for a while. */
  predicate PairChanges(s: State, events: seq<Event>, now: int) {
    exists k :: 0 <= k <= |events| && Pair(HandleAll(s, events[..k], now)) != Pair(s)
  }

  lemma AnnounceStates(s: State, e: Event, now: int)
    requires e.code == EVT_SUNRISE_START || e.code == EVT_ALARM_RING
    ensures var r := Announce(s, e.value, e.code == EVT_ALARM_RING, now);
            && r.first.state == (if e.value == 1 then Announced(e, 1).value else s.first.state)
            && r.second.state == (if e.value == 2 then Announced(e, 2).value else s.second.state)
            && r.changed == (s.changed || Pair(r) != Pair(s))
            && r.sent == s.sent
  {
  }

  /** What one message does to the two states, to the announcement of a broadcast and to what is sent. */
  lemma HandleStates(s: State, e: Event, now: int)
    ensures var r := Handle(s, e, now);
            && r.first.state == (match Announced(e, 1) case Some(announced) => announced case None => s.first.state)
            && r.second.state == (match Announced(e, 2) case Some(announced) => announced case None => s.second.state)
            && r.changed == (s.changed || Pair(r) != Pair(s))
            && Broadcasts(r.sent) == Broadcasts(s.sent)
  {
    hide Announce, Broadcasts;
    if e.code == EVT_SUNRISE_START || e.code == EVT_ALARM_RING {
      AnnounceStates(s, e, now);
    } else {
      match TimerOf(e.code)
      case None =>
      case Some(timer) => BroadcastsGrow(s.sent, TimerEnded(timer));
    }
  }

  lemma ContradictedGrows(events: seq<Event>, n: int, state: AlarmState)
    requires events != []
    ensures var past, last := events[..|events| - 1], events[|events| - 1];
            Contradicted(events, n, state) <==> Contradicted(past, n, state) || Announced(last, n) !in {None, Some(state)}
  {
    var past := events[..|events| - 1];
    if Contradicted(past, n, state) {
      var i :| 0 <= i < |past| && Announced(past[i], n) !in {None, Some(state)};
      assert Announced(events[i], n) !in {None, Some(state)};
    }
    if Contradicted(events, n, state) {
      var i :| 0 <= i < |events| && Announced(events[i], n) !in {None, Some(state)};
      assert i < |past| ==> past[i] == events[i];
    }
  }

  lemma PairChangesGrows(s: State, events: seq<Event>, now: int)
    requires events != []
    ensures var past := events[..|events| - 1];
            PairChanges(s, events, now) <==> PairChanges(s, past, now) || Pair(HandleAll(s, events, now)) != Pair(s)
  {
    hide HandleAll;
    var past := events[..|events| - 1];
    assert forall k :: 0 <= k <= |past| ==> past[..k] == events[..k];
    assert events[..|events|] == events;
    if PairChanges(s, past, now) {
      var k :| 0 <= k <= |past| && Pair(HandleAll(s, past[..k], now)) != Pair(s);
      assert Pair(HandleAll(s, events[..k], now)) != Pair(s);
    }
  }

  /** While nothing contradicts the states there are, they are the ones last announced. */
  lemma {:induction false} LastUncontradicted(events: seq<Event>, n: int, state: AlarmState)
    requires !Contradicted(events, n, state)
    ensures LastAnnounced(events, n, state) == state
    decreases |events|
  {
    hide Contradicted;
    if events != [] {
      ContradictedGrows(events, n, state);
      LastUncontradicted(events[..|events| - 1], n, state);
    }
  }

  /**
   * Handling messages leaves each alarm in the state last announced for it. A broadcast becomes due exactly
   * if the pair of states changes on the way, that is, if some message contradicts the state its alarm had
   * to begin with.
   */
  lemma {:induction false} HandleAllStates(s: State, events: seq<Event>, now: int)
    requires !s.changed
    ensures var r := HandleAll(s, events, now);
            && r.first.state == LastAnnounced(events, 1, s.first.state)
            && r.second.state == LastAnnounced(events, 2, s.second.state)
            && (r.changed <==> PairChanges(s, events, now))
            && (r.changed <==> Contradicted(events, 1, s.first.state) || Contradicted(events, 2, s.second.state))
            && Broadcasts(r.sent) == Broadcasts(s.sent)
    decreases |events|
  {
    hide Handle, Contradicted, Announced, Broadcasts, PairChanges;
    if events == [] {
      NothingHandled(s, events, now);
    } else {
      var past, last := events[..|events| - 1], events[|events| - 1];
      HandleAllStates(s, past, now);
      var before := HandleAll(s, past, now);
      HandleStates(before, last, now);
      assert HandleAll(s, events, now) == Handle(before, last, now);
      PairChangesGrows(s, events, now);
      ContradictedGrows(events, 1, s.first.state);
      ContradictedGrows(events, 2, s.second.state);
      if !Contradicted(past, 1, s.first.state) && !Contradicted(past, 2, s.second.state) {
        LastUncontradicted(past, 1, s.first.state);
        LastUncontradicted(past, 2, s.second.state);
      }
    }
  }

  lemma NothingHandled(s: State, events: seq<Event>, now: int)
    requires events == []
    ensures HandleAll(s, events, now) == s && !PairChanges(s, events, now)
    ensures forall n, state :: !Contradicted(events, n, state)
  {
  }

  lemma MessageOfPair()
    ensures forall pair: (AlarmState, AlarmState) ::
              PairMessage(pair) == AlarmStates(pair.0, pair.1, MainAlarm(pair.0, pair.1))
  {
  }

  lemma SameBroadcast(before: seq<Message>, due: bool, pair: (AlarmState, AlarmState), known: (AlarmState, AlarmState))
    ensures before + (if due then [PairMessage(pair)] else []) == before + [PairMessage(known)] <==> due && pair == known
  {
    var after := before + if due then [PairMessage(pair)] else [];
    if due {
      assert after[|before|] == PairMessage(pair) && (before + [PairMessage(known)])[|before|] == PairMessage(known);
    } else {
      assert |after| == |before|;
    }
  }

  /**
   * Handling the queue broadcasts the states exactly when some message contradicts the state its alarm is
   * in, and once only. What is broadcast is, for each alarm, the state last announced. Subscribers are thus
   * told again the pair they already have exactly when some message contradicts it and the last messages
   * restore it.
   */
  lemma QueueBroadcasts(s: State, now: int, light: Exchange<()>)
    requires Invariant(s)
    ensures var r := ProcessQueue(s, now, light);
            var contradicted := Contradicted(s.queue, 1, s.first.state) || Contradicted(s.queue, 2, s.second.state);
            && Pair(r) == (LastAnnounced(s.queue, 1, s.first.state), LastAnnounced(s.queue, 2, s.second.state))
            && (contradicted <==> PairChanges(s, s.queue, now))
            && Broadcasts(r.sent) == Broadcasts(s.sent) +
                 (if contradicted then [PairMessage(Pair(r))] else [])
            // The pair subscribers have is repeated.
            && (Broadcasts(r.sent) == Broadcasts(s.sent) + [PairMessage(LastHeard(s.sent))] <==>
                  && contradicted
                  && LastAnnounced(s.queue, 1, s.first.state) == s.first.state
                  && LastAnnounced(s.queue, 2, s.second.state) == s.second.state)
  {
    hide HandleAll, NoteAll, Broadcasts, Contradicted, LastAnnounced, PairChanges, LastHeard, Summarised, PairMessage;
    MessageOfPair();
    HandleAllStates(s, s.queue, now);
    SameBroadcast(Broadcasts(s.sent), Contradicted(s.queue, 1, s.first.state) || Contradicted(s.queue, 2, s.second.state),
                  (LastAnnounced(s.queue, 1, s.first.state), LastAnnounced(s.queue, 2, s.second.state)), Pair(s));
    var handled := HandleAll(s, s.queue, now).(queue := []);
    var published := Publish(handled);
    if handled.changed {
      BroadcastsGrow(handled.sent, PairMessage(Pair(handled)));
    }
    if published.lightChanged {
      NotingOnly(published.(lightChanged := false), light.arrived);
      BroadcastsGrow(published.sent, LightChanged);
    }
  }

  /** A poll, on the contrary, broadcasts exactly when it changes the pair of states. */
  lemma PollBroadcasts(s: State, input: TickInput)
    requires Invariant(s)
    ensures var r := Follow(s, input);
            Broadcasts(r.sent) == Broadcasts(s.sent) +
              if Pair(r) == Pair(s) then [] else [PairMessage(Pair(r))]
  {
    hide NoteAll, Broadcasts, LastHeard, Summarised, QuietQueue, QuietInput;
    if PollIsDue(s, input.now) {
      if input.status.reply.Some? {
        PollAnswered(s, input);
        hide Follow, FollowedTrack;
        var r := Follow(s, input);
        BroadcastsGrow(s.sent, PairMessage(Pair(r)));
      } else {
        NotingOnly(s.(nextRead := input.now + WATCH_MS), input.status.arrived);
      }
    }
  }

  /** A tick makes at most these two broadcasts, in this order, and ends with the pair subscribers know. */
  lemma TickBroadcasts(s: State, input: TickInput)
    requires Invariant(s) && input.connected
    ensures var b, r := BeforePoll(s, input), Tick(s, input);
            var contradicted := Contradicted(s.queue, 1, s.first.state) || Contradicted(s.queue, 2, s.second.state);
            && Broadcasts(r.sent) == Broadcasts(s.sent) + (if contradicted then [PairMessage(Pair(b))] else [])
                                                        + (if Pair(r) == Pair(b) then [] else [PairMessage(Pair(r))])
            && LastHeard(r.sent) == Pair(r)
  {
    hide ProcessQueue, Follow, NoteAll, Broadcasts, Contradicted, LastAnnounced, PairChanges, LastHeard, Summarised,
         PairMessage;
    var noticed := NoticeConnection(s, input);
    QueueBroadcasts(noticed, input.now, input.light);
    BeforePollFacts(s, input);
    PollBroadcasts(BeforePoll(s, input), input);
    FollowFacts(BeforePoll(s, input), input);
    NotingOnly(Follow(BeforePoll(s, input), input), input.clock);
  }

  /** A message of the given code about alarm 1. */
  function Tells(code: Byte): Step {
    Arrives(Notice(code, [1]))
  }

  /** A tick on the first connection in which every exchange fails. */
  function BareTick(now: nat): Step {
    Ticks(TickInput(true, now, 1, Exchange([], None), Exchange([], None), [], []))
  }

  /** Such a tick only handles the queue and broadcasts, if that puts the next poll off. */
  lemma BareTickHandles(s: State, now: nat)
    requires !s.lightChanged
    requires var n := NoticeConnection(s, BareTick(now).input);
             var r := Publish(HandleAll(n, n.queue, now).(queue := [])); !r.lightChanged && r.nextRead > now
    ensures var n := NoticeConnection(s, BareTick(now).input);
            Apply(s, BareTick(now)) == Publish(HandleAll(n, n.queue, now).(queue := []))
  {
    hide HandleAll, Publish;
  }

  const SUNRISE_TOLD := AlarmStates(Sunrise, Idle, 1)

  /** Alarm 1 in sunrise, as subscribers know. */
  const IN_SUNRISE :=
    INITIAL.(first := Track(Sunrise, false, 0), watching := true, nextRead := WATCH_MS, connections := 1,
             sent := [SUNRISE_TOLD])

  lemma FirstSunrise()
    ensures Apply(Apply(INITIAL, Tells(EVT_SUNRISE_START)), BareTick(0)) == IN_SUNRISE
  {
    hide ProcessQueue, Follow;
    var s := INITIAL.(queue := [Event(EVT_SUNRISE_START, 1)]);
    var n := s.(watching := true, connections := 1);
    assert NoticeConnection(s, BareTick(0).input) == n;
    OneHandled(n, n.queue[0], 0);
    assert Publish(HandleAll(n, n.queue, 0).(queue := [])) == IN_SUNRISE;
    BareTickHandles(s, 0);
    assert Apply(INITIAL, Tells(EVT_SUNRISE_START)) == s;
  }

  lemma RingAndSunriseAgain()
    ensures var s := Apply(Apply(IN_SUNRISE, Tells(EVT_ALARM_RING)), Tells(EVT_SUNRISE_START));
            Apply(s, BareTick(1)).sent == [SUNRISE_TOLD, SUNRISE_TOLD]
  {
    hide ProcessQueue, Follow;
    var s := IN_SUNRISE.(queue := [Event(EVT_ALARM_RING, 1), Event(EVT_SUNRISE_START, 1)]);
    assert NoticeConnection(s, BareTick(1).input) == s;
    TwoHandled(s, s.queue[0], s.queue[1], 1);
    assert Publish(HandleAll(s, s.queue, 1).(queue := []))
        == IN_SUNRISE.(nextRead := 1 + WATCH_MS, sent := [SUNRISE_TOLD, SUNRISE_TOLD]);
    BareTickHandles(s, 1);
    assert Apply(Apply(IN_SUNRISE, Tells(EVT_ALARM_RING)), Tells(EVT_SUNRISE_START)) == s;
  }

  /**
   * A run in which the pair subscribers have is broadcast again: alarm 1, in sunrise, is announced ringing
   * and in sunrise again before the next tick.
   */
  lemma BroadcastMayRepeat()
    ensures var steps := [Tells(EVT_SUNRISE_START), BareTick(0),
                          Tells(EVT_ALARM_RING), Tells(EVT_SUNRISE_START), BareTick(1)];
            Run(INITIAL, steps).sent == [AlarmStates(Sunrise, Idle, 1), AlarmStates(Sunrise, Idle, 1)]
  {
    hide Apply, Run;
    FirstSunrise();
    RingAndSunriseAgain();
    NoSteps(INITIAL);
    var one := [] + [Tells(EVT_SUNRISE_START)];
    var two := one + [BareTick(0)];
    var three := two + [Tells(EVT_ALARM_RING)];
    var four := three + [Tells(EVT_SUNRISE_START)];
    RunEndsWith(INITIAL, [], Tells(EVT_SUNRISE_START));
    RunEndsWith(INITIAL, one, BareTick(0));
    RunEndsWith(INITIAL, two, Tells(EVT_ALARM_RING));
    RunEndsWith(INITIAL, three, Tells(EVT_SUNRISE_START));
    RunEndsWith(INITIAL, four, BareTick(1));
    assert [Tells(EVT_SUNRISE_START), BareTick(0), Tells(EVT_ALARM_RING), Tells(EVT_SUNRISE_START), BareTick(1)]
        == four + [BareTick(1)];
  }

  lemma NoSteps(s: State)
    ensures Run(s, []) == s
  {
  }

  lemma RunEndsWith(s: State, steps: seq<Step>, last: Step)
    ensures Run(s, steps + [last]) == Apply(Run(s, steps), last)
  {
    assert (steps + [last])[..|steps|] == steps;
  }

  lemma OneHandled(s: State, e: Event, now: int)
    ensures HandleAll(s, [e], now) == Handle(s, e, now)
  {
    assert [e][..0] == [];
    assert HandleAll(s, [], now) == s;
  }

  lemma TwoHandled(s: State, e: Event, f: Event, now: int)
    ensures HandleAll(s, [e, f], now) == Handle(Handle(s, e, now), f, now)
  {
    assert [e, f][..1] == [e];
    OneHandled(s, e, now);
  }
}

/**
 * Following the two alarms (src/app/handlers.c, section "Événements"): the state, and what each step
 * does to it. The class in Tracker.dfy is proved to perform these steps.
 */
module TrackerState {
  import opened Common
  import opened Protocol

  const WATCH_MS := 1000
  const QUEUE_SIZE := 16
  const SNOOZE_MARGIN_MS := 60000
  const SNOOZE_MINUTES := [1, 2, 5, 10, 20, 30]

  /** The longest presumed snooze: 30 minutes and the margin. */
  const MAX_SNOOZE_MS := 30 * 60000 + SNOOZE_MARGIN_MS

  datatype AlarmState = Idle | Sunrise | Ringing | Snoozed

  /** One alarm: its state, whether it rang since it was last idle, and until when a snooze is presumed. */
  datatype Track = Track(state: AlarmState, hasRung: bool, snoozeEnd: int)

  datatype Event = Event(code: Byte, value: Byte)

  datatype Timer = Light | Mood | Radio | Music

  /** What subscribers are told. The number is that of the most advanced alarm, 0 standing for null. */
  datatype Message =
    | AlarmStates(first: AlarmState, second: AlarmState, main: int)
    | LightChanged
    | TimerEnded(timer: Timer)

  datatype State = State(
    queue: seq<Event>,
    lightChanged: bool,
    first: Track,
    second: Track,
    changed: bool,
    watching: bool,
    nextRead: int,
    stopAsked: bool,
    connections: nat,
    sent: seq<Message>)
  {
    function Alarm(n: int): Track {
      if n == 2 then second else first
    }

    function WithAlarm(n: int, t: Track): State {
      if n == 2 then this.(second := t) else this.(first := t)
    }
  }

  const INITIAL := State([], false, Track(Idle, false, 0), Track(Idle, false, 0), false, false, 0, false, 0, [])

  // ---------------------------------------------------------------------
  // What the link answers; spontaneous messages may arrive during any exchange
  // ---------------------------------------------------------------------

  datatype Exchange<+T> = Exchange(arrived: seq<Notice>, reply: Option<T>)

  /** Everything a periodic task sees: link state, clock, and the exchanges it may start. */
  datatype TickInput = TickInput(
    connected: bool,
    now: nat,
    connectCount: nat,
    light: Exchange<()>,
    status: Exchange<(Byte, Byte)>,
    snooze: seq<Exchange<Byte>>,
    clock: seq<Notice>)
  {
    /** The answer about the snooze setting of alarm `n`, if it is asked for. */
    function SnoozeOf(n: int): Exchange<Byte> {
      if 1 <= n <= |snooze| then snooze[n - 1] else Exchange([], None)
    }
  }

  // ---------------------------------------------------------------------
  // Steps
  // ---------------------------------------------------------------------

  /** handlers_on_event: only notes the message; a full queue drops it. */
  function Note(s: State, a: Notice): State {
    if a.code == EVT_LIGHT_REFRESH then s.(lightChanged := true)
    else if |s.queue| < QUEUE_SIZE then
      s.(queue := s.queue + [Event(a.code, if |a.data| > 0 then a.data[0] else 0)])
    else s
  }

  function NoteAll(s: State, arrived: seq<Notice>): State
    decreases |arrived|
  {
    if arrived == [] then s else Note(NoteAll(s, arrived[..|arrived| - 1]), arrived[|arrived| - 1])
  }

  function ChangeAlarm(s: State, n: int, state: AlarmState): State {
    if n < 1 || n > 2 || s.Alarm(n).state == state then s
    else s.WithAlarm(n, s.Alarm(n).(state := state)).(changed := true)
  }

  function Priority(state: AlarmState): int {
    match state
    case Idle => 0
    case Sunrise => 1
    case Ringing => 3
    case Snoozed => 2
  }

  /** The number of the most advanced alarm, the lowest on a tie, 0 if both are idle. */
  function MainAlarm(first: AlarmState, second: AlarmState): (n: int)
    ensures 0 <= n <= 2
    ensures n == 0 <==> first == Idle && second == Idle
    ensures n == 1 ==> first != Idle && Priority(first) >= Priority(second)
    ensures n == 2 ==> second != Idle && Priority(second) > Priority(first)
    ensures Ringing in {first, second} ==> (if n == 2 then second else first) == Ringing
    ensures Ringing !in {first, second} && Snoozed in {first, second} ==> (if n == 2 then second else first) == Snoozed
  {
    if first == Idle then (if second == Idle then 0 else 2)
    else if Priority(second) > Priority(first) then 2
    else 1
  }

  function Publish(s: State): State {
    if s.changed then
      var message := AlarmStates(s.first.state, s.second.state, MainAlarm(s.first.state, s.second.state));
      s.(changed := false, sent := s.sent + [message])
    else s
  }

  function WatchSoon(s: State): State {
    s.(watching := true, nextRead := 0)
  }

  function TimerOf(code: Byte): Option<Timer> {
    if code == EVT_LIGHT_TIMER_END then Some(Light)
    else if code == EVT_MOOD_TIMER_END then Some(Mood)
    else if code == EVT_RADIO_TIMER_END then Some(Radio)
    else if code == EVT_MUSIC_TIMER_END then Some(Music)
    else None
  }

  /** Sunrise or ring announced for alarm `n`; a number other than 1 or 2 only starts the watch. */
  function Announce(s: State, n: Byte, ring: bool, now: int): State {
    var noted :=
      if 1 <= n <= 2 then
        var t := s.Alarm(n);
        ChangeAlarm(s.WithAlarm(n, if ring then t.(hasRung := true, snoozeEnd := 0) else t.(hasRung := false)),
                    n, if ring then Ringing else Sunrise)
      else s;
    noted.(stopAsked := false, watching := true, nextRead := now + WATCH_MS)
  }

  function Handle(s: State, e: Event, now: int): State {
    if e.code == EVT_SUNRISE_START then Announce(s, e.value, false, now)
    else if e.code == EVT_ALARM_RING then Announce(s, e.value, true, now)
    else match TimerOf(e.code)
      case None => s
      case Some(timer) =>
        s.(lightChanged := s.lightChanged || timer == Light || timer == Mood, sent := s.sent + [TimerEnded(timer)])
  }

  function HandleAll(s: State, events: seq<Event>, now: int): State
    decreases |events|
  {
    if events == [] then s
    else Handle(HandleAll(s, events[..|events| - 1], now), events[|events| - 1], now)
  }

  /** traiter_evenements */
  function ProcessQueue(s: State, now: int, light: Exchange<()>): State {
    var handled := Publish(HandleAll(s, s.queue, now).(queue := []));
    if handled.lightChanged then
      var asked := NoteAll(handled.(lightChanged := false), light.arrived);
      if light.reply.Some? then asked.(sent := asked.sent + [LightChanged]) else asked
    else handled
  }

  function SnoozeMinutes(reply: Option<Byte>): (m: int)
    ensures 1 <= m <= 30
    ensures reply.Some? && reply.value < 6 ==> m == SNOOZE_MINUTES[reply.value]
    ensures reply.None? || reply.value >= 6 ==> forall i :: 0 <= i < 6 ==> m >= SNOOZE_MINUTES[i]
  {
    if reply.Some? && reply.value as int < |SNOOZE_MINUTES| then SNOOZE_MINUTES[reply.value] else 30
  }

  /** Is alarm `n`, in state `t`, presumed snoozed by this poll? Its ringing stopped and nobody asked for it. */
  predicate PresumesSnooze(t: Track, mine: bool, rising: bool, stopAsked: bool) {
    !mine && !(rising && !stopAsked) && t.state == Ringing && !stopAsked
  }

  /** One alarm after a successful poll: it is the one that rings (`mine`), the one whose sunrise runs (`rising`), or neither. */
  function NextTrack(t: Track, mine: bool, rising: bool, stopAsked: bool, now: int, minutes: int): Track {
    if mine then Track(Ringing, true, 0)
    else if rising && !stopAsked then t.(state := if t.hasRung then Snoozed else Sunrise)
    else if t.state == Ringing && !stopAsked then
      t.(state := Snoozed, snoozeEnd := now + minutes * 60000 + SNOOZE_MARGIN_MS)
    else if t.state == Snoozed && !stopAsked && now < t.snoozeEnd then t
    else Track(Idle, false, 0)
  }

  /** What a successful poll does for alarm `n`; the snooze setting is asked for only to presume a snooze. */
  function FollowAlarm(s: State, n: int, sunrise: Byte, ringing: Byte, now: int, setting: Exchange<Byte>): State {
    var before, mine, rising := s.Alarm(n), ringing as int == n, sunrise as int == n;
    var asked := if PresumesSnooze(before, mine, rising, s.stopAsked) then NoteAll(s, setting.arrived) else s;
    var after := NextTrack(before, mine, rising, s.stopAsked, now, SnoozeMinutes(setting.reply));
    asked.WithAlarm(n, after).(changed := asked.changed || after.state != before.state)
  }

  predicate BothIdle(s: State) {
    s.first.state == Idle && s.second.state == Idle
  }

  predicate PollIsDue(s: State, now: int) {
    s.watching && now >= s.nextRead
  }

  /** suivre_reveil */
  function Follow(s: State, input: TickInput): State {
    if !PollIsDue(s, input.now) then s
    else
      var asked := NoteAll(s.(nextRead := input.now + WATCH_MS), input.status.arrived);
      match input.status.reply
      case None => asked
      case Some((sunrise, ringing)) =>
        var one := FollowAlarm(asked, 1, sunrise, ringing, input.now, input.SnoozeOf(1));
        var two := FollowAlarm(one, 2, sunrise, ringing, input.now, input.SnoozeOf(2));
        Publish(if BothIdle(two) then two.(watching := false, stopAsked := false) else two)
  }

  /** A connection that is not the last one seen makes the state worth reading again. */
  function NoticeConnection(s: State, input: TickInput): State {
    if input.connectCount != s.connections then WatchSoon(s.(connections := input.connectCount)) else s
  }

  /** The state in which a tick decides whether to poll. */
  function BeforePoll(s: State, input: TickInput): State {
    ProcessQueue(NoticeConnection(s, input), input.now, input.light)
  }

  /** handlers_tick */
  function Tick(s: State, input: TickInput): State {
    if !input.connected then s
    else NoteAll(Follow(BeforePoll(s, input), input), input.clock)
  }

  /** agir_sur_alarme */
  function Act(s: State, stop: bool, exchange: Exchange<()>): State {
    var asked := WatchSoon(NoteAll(s, exchange.arrived));
    if stop && exchange.reply.Some? then asked.(stopAsked := true) else asked
  }

  datatype Step =
    | Arrives(message: Notice)
    | Ticks(input: TickInput)
    | Acts(stop: bool, exchange: Exchange<()>)

  function Apply(s: State, step: Step): State {
    match step
    case Arrives(message) => Note(s, message)
    case Ticks(input) => Tick(s, input)
    case Acts(stop, exchange) => Act(s, stop, exchange)
  }

  function Run(s: State, steps: seq<Step>): State
    decreases |steps|
  {
    if steps == [] then s else Apply(Run(s, steps[..|steps| - 1]), steps[|steps| - 1])
  }
}

/** The tracker of src/app/handlers.c as the program keeps it: fixed arrays and flags updated in place. */
module Tracker {
  import opened Common
  import opened Protocol
  import opened TrackerState

  class AlarmTracker {
    const queue: array<Event>
    var size: nat
    var lightChanged: bool
    const alarms: array<Track>
    var changed: bool
    var watching: bool
    var nextRead: int
    var stopAsked: bool
    var connections: nat
    var sent: seq<Message>      // everything handed to the broadcast function, oldest first

    ghost predicate Valid()
      reads this
    {
      queue.Length == QUEUE_SIZE && size <= QUEUE_SIZE && alarms.Length == 2
    }

    ghost function View(): State
      requires Valid()
      reads this, queue, alarms
    {
      State(queue[..size], lightChanged, alarms[0], alarms[1], changed, watching, nextRead, stopAsked,
            connections, sent)
    }

    /** handlers_attach: starts from a blank state. */
    constructor ()
      ensures Valid() && fresh(queue) && fresh(alarms) && View() == INITIAL
    {
      queue := new Event[QUEUE_SIZE](_ => Event(0, 0));
      alarms := new Track[2](_ => Track(Idle, false, 0));
      size, lightChanged, changed, watching, nextRead, stopAsked, connections := 0, false, false, false, 0, false, 0;
      sent := [];
    }

    /** handlers_on_event */
    method OnEvent(code: Byte, data: seq<Byte>)
      requires Valid()
      modifies this, queue
      ensures Valid() && View() == Note(old(View()), Notice(code, data))
    {
      if code == EVT_LIGHT_REFRESH {
        lightChanged := true;
        return;
      }
      if size < QUEUE_SIZE {
        queue[size] := Event(code, if |data| > 0 then data[0] else 0);
        size := size + 1;
      }
    }

    /** The messages that come in while an exchange is under way. */
    method OnEvents(arrived: seq<Notice>)
      requires Valid()
      modifies this, queue
      ensures Valid() && View() == NoteAll(old(View()), arrived)
    {
      var i := 0;
      while i < |arrived|
        invariant 0 <= i <= |arrived| && Valid()
        invariant View() == NoteAll(old(View()), arrived[..i])
      {
        OnEvent(arrived[i].code, arrived[i].data);
        assert arrived[..i + 1][..i] == arrived[..i];
        i := i + 1;
      }
      assert arrived[..i] == arrived;
    }

    /** changer_alarme */
    method SetState(n: int, state: AlarmState)
      requires Valid()
      modifies this`changed, alarms
      ensures Valid()
      ensures n < 1 || n > 2 ==> alarms[..] == old(alarms[..]) && changed == old(changed)
      ensures 1 <= n <= 2 ==> alarms[n - 1] == old(alarms[n - 1]).(state := state) && alarms[2 - n] == old(alarms[2 - n])
                              && changed == (old(changed) || old(alarms[n - 1]).state != state)
    {
      if n < 1 || n > 2 || alarms[n - 1].state == state {
        return;
      }
      alarms[n - 1] := alarms[n - 1].(state := state);
      changed := true;
    }

    /** The loop of reveil_json that chooses the alarm of the summary. */
    method ChooseMain() returns (main: int)
      requires Valid()
      ensures main == MainAlarm(alarms[0].state, alarms[1].state)
    {
      main := 0;
      var n := 1;
      while n <= 2
        invariant 1 <= n <= 3
        invariant n == 1 ==> main == 0
        invariant n == 2 ==> main == if alarms[0].state != Idle then 1 else 0
        invariant n == 3 ==> main == MainAlarm(alarms[0].state, alarms[1].state)
      {
        var state := alarms[n - 1].state;
        if state != Idle && (main == 0 || Priority(state) > Priority(alarms[main - 1].state)) {
          main := n;
        }
        n := n + 1;
      }
    }

    /** diffuser_reveil */
    method PublishStates()
      requires Valid()
      modifies this`changed, this`sent
      ensures Valid() && View() == Publish(old(View()))
    {
      if changed {
        changed := false;
        var main := ChooseMain();
        sent := sent + [AlarmStates(alarms[0].state, alarms[1].state, main)];
      }
    }

    /** presumer_snooze */
    method Presume(n: int, now: int, setting: Exchange<Byte>)
      requires Valid() && 1 <= n <= 2
      modifies this, queue, alarms
      ensures Valid()
      ensures var asked := NoteAll(old(View()), setting.arrived);
              var end := now + SnoozeMinutes(setting.reply) * 60000 + SNOOZE_MARGIN_MS;
              View() == asked.WithAlarm(n, old(alarms[n - 1]).(state := Snoozed, snoozeEnd := end))
                             .(changed := asked.changed || old(alarms[n - 1]).state != Snoozed)
      ensures alarms[2 - n] == old(alarms[2 - n])
    {
      hide NoteAll;
      OnEvents(setting.arrived);
      var minutes := 30;
      if setting.reply.Some? && setting.reply.value as int < |SNOOZE_MINUTES| {
        minutes := SNOOZE_MINUTES[setting.reply.value];
      }
      alarms[n - 1] := alarms[n - 1].(snoozeEnd := now + minutes * 60000 + SNOOZE_MARGIN_MS);
      SetState(n, Snoozed);
    }

    /** One turn of the loop of suivre_reveil. */
    method FollowOne(n: int, sunrise: Byte, ringing: Byte, now: int, setting: Exchange<Byte>)
      requires Valid() && 1 <= n <= 2
      modifies this, queue, alarms
      ensures Valid() && View() == FollowAlarm(old(View()), n, sunrise, ringing, now, setting)
      ensures alarms[2 - n] == old(alarms[2 - n])
    {
      hide NoteAll, SnoozeMinutes, FollowAlarm;
      FollowFields(View(), n, sunrise, ringing, now, setting);
      if ringing as int == n {
        Mark(n, true);
        SetState(n, Ringing);
      } else if sunrise as int == n && !stopAsked {
        SetState(n, if alarms[n - 1].hasRung then Snoozed else Sunrise);
      } else if alarms[n - 1].state == Ringing && !stopAsked {
        Presume(n, now, setting);
      } else if alarms[n - 1].state == Snoozed && !stopAsked && now < alarms[n - 1].snoozeEnd {
        // A presumed snooze under way: wait for it to ring again, or not.
      } else {
        alarms[n - 1] := alarms[n - 1].(hasRung := false, snoozeEnd := 0);
        SetState(n, Idle);
      }
    }

    /** suivre_reveil */
    method FollowAlarms(input: TickInput)
      requires Valid()
      modifies this, queue, alarms
      ensures Valid() && View() == Follow(old(View()), input)
    {
      hide FollowAlarm, NoteAll, Publish, TickInput.SnoozeOf;
      if !watching || input.now < nextRead {
        return;
      }
      nextRead := input.now + WATCH_MS;
      OnEvents(input.status.arrived);
      if input.status.reply.None? {
        return;
      }
      var (sunrise, ringing) := input.status.reply.value;
      ghost var asked := View();
      var underWay := false;
      var n := 1;
      while n <= 2
        invariant 1 <= n <= 3 && Valid()
        invariant n == 1 ==> View() == asked && !underWay
        invariant n == 2 ==> View() == FollowAlarm(asked, 1, sunrise, ringing, input.now, input.SnoozeOf(1))
                             && underWay == (alarms[0].state != Idle)
        invariant n == 3 ==> View() == FollowAlarm(FollowAlarm(asked, 1, sunrise, ringing, input.now, input.SnoozeOf(1)),
                                                   2, sunrise, ringing, input.now, input.SnoozeOf(2))
                             && underWay == !BothIdle(View())
      {
        FollowOne(n, sunrise, ringing, input.now, input.SnoozeOf(n));
        if alarms[n - 1].state != Idle {
          underWay := true;
        }
        n := n + 1;
      }
      if !underWay {
        watching := false;
        stopAsked := false;
      }
      PublishStates();
    }

    /** Whether an alarm has rung; if it rings, no snooze is presumed any more. */
    method Mark(n: int, ring: bool)
      requires Valid() && 1 <= n <= 2
      modifies alarms
      ensures Valid()
      ensures var t := old(alarms[n - 1]);
              alarms[n - 1] == if ring then t.(hasRung := true, snoozeEnd := 0) else t.(hasRung := false)
      ensures alarms[2 - n] == old(alarms[2 - n])
    {
      if ring {
        alarms[n - 1] := alarms[n - 1].(hasRung := true, snoozeEnd := 0);
      } else {
        alarms[n - 1] := alarms[n - 1].(hasRung := false);
      }
    }

    /** The two cases of traiter_evenements about alarms. */
    method AnnounceOne(value: Byte, ring: bool, now: int)
      requires Valid()
      modifies this`changed, this`stopAsked, this`watching, this`nextRead, alarms
      ensures Valid() && View() == Announce(old(View()), value, ring, now)
    {
      hide Announce, Priority;
      AnnounceFields(View(), value, ring, now);
      var n := value as int;
      if 1 <= n <= 2 {
        Mark(n, ring);
        SetState(n, if ring then Ringing else Sunrise);
      }
      stopAsked, watching, nextRead := false, true, now + WATCH_MS;
    }

    /** One message of the queue. */
    method HandleOne(e: Event, now: int)
      requires Valid()
      modifies this, alarms
      ensures Valid() && View() == Handle(old(View()), e, now)
      ensures size == old(size)
    {
      hide Announce;
      if e.code == EVT_SUNRISE_START {
        AnnounceOne(e.value, false, now);
      } else if e.code == EVT_ALARM_RING {
        AnnounceOne(e.value, true, now);
      } else if e.code == EVT_LIGHT_TIMER_END {
        lightChanged, sent := true, sent + [TimerEnded(Light)];
      } else if e.code == EVT_MOOD_TIMER_END {
        lightChanged, sent := true, sent + [TimerEnded(Mood)];
      } else if e.code == EVT_RADIO_TIMER_END {
        sent := sent + [TimerEnded(Radio)];
      } else if e.code == EVT_MUSIC_TIMER_END {
        sent := sent + [TimerEnded(Music)];
      }
    }

    /** traiter_evenements */
    method ProcessEvents(now: int, light: Exchange<()>)
      requires Valid()
      modifies this, queue, alarms
      ensures Valid() && View() == ProcessQueue(old(View()), now, light)
    {
      hide Handle, Publish, NoteAll;
      ghost var start := View();
      var i := 0;
      while i < size
        invariant 0 <= i <= size == old(size) && Valid()
        invariant queue[..size] == start.queue
        invariant View() == HandleAll(start, start.queue[..i], now)
      {
        HandleOne(queue[i], now);
        assert start.queue[..i + 1][..i] == start.queue[..i];
        i := i + 1;
      }
      assert start.queue[..i] == start.queue;
      size := 0;
      PublishStates();
      if lightChanged {
        lightChanged := false;
        OnEvents(light.arrived);
        if light.reply.Some? {
          sent := sent + [LightChanged];
        }
      }
    }

    /** agir_sur_alarme: Alarm/Stop or Alarm/Snooze has been sent. */
    method ActOnAlarm(stop: bool, exchange: Exchange<()>)
      requires Valid()
      modifies this, queue
      ensures Valid() && View() == Act(old(View()), stop, exchange)
    {
      OnEvents(exchange.arrived);
      watching, nextRead := true, 0;
      if stop && exchange.reply.Some? {
        stopAsked := true;
      }
    }

    /** handlers_tick */
    method OnTick(input: TickInput)
      requires Valid()
      modifies this, queue, alarms
      ensures Valid() && View() == Tick(old(View()), input)
    {
      hide NoteAll, ProcessQueue, Follow;
      if !input.connected {
        return;
      }
      if input.connectCount != connections {
        connections := input.connectCount;
        watching, nextRead := true, 0;
      }
      ProcessEvents(input.now, input.light);
      FollowAlarms(input);
      OnEvents(input.clock);
    }

    /** Any of the three ways the tracker is used. */
    method Perform(step: Step)
      requires Valid()
      modifies this, queue, alarms
      ensures Valid() && View() == Apply(old(View()), step)
    {
      match step
      case Arrives(message) => OnEvent(message.code, message.data);
      case Ticks(input) => OnTick(input);
      case Acts(stop, exchange) => ActOnAlarm(stop, exchange);
    }

    /** Any life of the service: what is proved of `Run` holds of this object. */
    method PerformAll(steps: seq<Step>)
      requires Valid()
      modifies this, queue, alarms
      ensures Valid() && View() == Run(old(View()), steps)
    {
      hide Apply;
      var i := 0;
      while i < |steps|
        invariant 0 <= i <= |steps| && Valid()
        invariant View() == Run(old(View()), steps[..i])
      {
        Perform(steps[i]);
        assert steps[..i + 1][..i] == steps[..i];
        i := i + 1;
      }
      assert steps[..i] == steps;
    }
  }

  lemma FollowFields(s: State, n: int, sunrise: Byte, ringing: Byte, now: int, setting: Exchange<Byte>)
    requires 1 <= n <= 2
    ensures var t, mine, rising := if n == 1 then s.first else s.second, ringing as int == n, sunrise as int == n;
            var asked := if PresumesSnooze(t, mine, rising, s.stopAsked) then NoteAll(s, setting.arrived) else s;
            var after := NextTrack(t, mine, rising, s.stopAsked, now, SnoozeMinutes(setting.reply));
            FollowAlarm(s, n, sunrise, ringing, now, setting) ==
              asked.(first := if n == 1 then after else asked.first, second := if n == 1 then asked.second else after,
                     changed := asked.changed || after.state != t.state)
  {
    hide NoteAll, SnoozeMinutes, NextTrack;
  }

  /** What an announcement leaves of one alarm. */
  function AfterAnnouncement(t: Track, ring: bool): Track {
    if ring then Track(Ringing, true, 0) else t.(state := Sunrise, hasRung := false)
  }

  lemma AnnounceFields(s: State, n: Byte, ring: bool, now: int)
    ensures var first := if n == 1 then AfterAnnouncement(s.first, ring) else s.first;
            var second := if n == 2 then AfterAnnouncement(s.second, ring) else s.second;
            Announce(s, n, ring, now) ==
              s.(first := first, second := second,
                 changed := s.changed || first.state != s.first.state || second.state != s.second.state,
                 stopAsked := false, watching := true, nextRead := now + WATCH_MS)
  {
  }
}

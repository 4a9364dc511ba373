/**
 * The next trigger of an alarm (src/app/handlers.c, prochaine_alarme), with local time as plain seconds:
 * 86400 in every day, day 0 a Thursday. Time zones and changes of the clock are not part of this model.
 */
module NextAlarm {
  import opened Common

  const DAY := 86400
  const WEEK := 604800

  /** 0 is Sunday, as in tm_wday. */
  function Weekday(t: int): (d: int)
    ensures 0 <= d < 7
  {
    (t / DAY + 4) % 7
  }

  /** Day 3, 4 January 1970, is a Sunday; the weekday is the same all day long, and the next one a day later. */
  lemma WeekdaysFollow(t: int)
    ensures 3 * DAY <= t < 4 * DAY ==> Weekday(t) == 0
    ensures Weekday(t + DAY) == (Weekday(t) + 1) % 7
    ensures Weekday(t) == Weekday(t / DAY * DAY)
  {
    WholeDays(t, 1);
  }

  datatype Schedule = Schedule(enable: bool, hour: Byte, minute: Byte, days: Byte)

  /** The days the alarm rings on: those checked, or any day if none is. */
  predicate RingsOn(s: Schedule, weekday: nat) {
    s.days % 128 == 0 || Bit(s.days, weekday)
  }

  /** Bit 0 is Sunday and bit 6 Saturday: a mask with one bit rings on that day only. */
  lemma OneDay(s: Schedule, bit: nat, weekday: nat)
    requires bit < 7 && weekday < 7 && s.days == Power2(bit)
    ensures RingsOn(s, weekday) <==> weekday == bit
  {
    assert Power2(0) == 1 && Power2(1) == 2 && Power2(2) == 4 && Power2(3) == 8;
    assert Power2(4) == 16 && Power2(5) == 32 && Power2(6) == 64;
    BitOfPower(bit, weekday);
  }

  lemma {:induction false} BitOfPower(k: nat, bit: nat)
    ensures Bit(Power2(k), bit) <==> bit == k
    decreases k + bit
  {
    if k > 0 && bit > 0 {
      BitOfPower(k - 1, bit - 1);
    } else if bit > 0 {
      ZeroHasNoBit(bit - 1);
    }
  }

  function SecondOfDay(s: Schedule): nat {
    s.hour * 3600 + s.minute * 60
  }

  /** The alarm rings at instant `t`: its time, on one of its days. */
  predicate Triggers(s: Schedule, t: int) {
    t % DAY == SecondOfDay(s) && RingsOn(s, Weekday(t))
  }

  /** The time of day a clock shows at a trigger. */
  lemma TriggerShowsTime(s: Schedule, t: int)
    requires Triggers(s, t) && s.minute < 60
    ensures t % DAY / 3600 == s.hour && t % DAY % 3600 / 60 == s.minute && t % DAY % 60 == 0
  {
    hide RingsOn;
    assert t % DAY == s.hour * 3600 + s.minute * 60;
  }

  /** What SweetDawn knows of the device clock: it set it, and the device is in automatic mode. */
  datatype ClockInfo = ClockInfo(set_: bool, stateKnown: bool, timeMode: Byte, systemNow: int, offset: int)

  /** horloge_aml */
  function DeviceTime(c: ClockInfo): Option<int> {
    if !c.set_ || !c.stateKnown || c.timeMode != 0 then None else Some(c.systemNow + c.offset)
  }

  /** The clock of the device has just been set to `target`: what is kept of it. */
  function ClockSet(c: ClockInfo, target: int): ClockInfo {
    var offset := target - c.systemNow;
    c.(set_ := true, offset := if -1 <= offset <= 1 then 0 else offset)
  }

  /** The device clock then goes on from there, to a second; it is known as long as the device stays in automatic mode. */
  lemma DeviceTimeRuns(c: ClockInfo, target: int, elapsed: int)
    requires c.stateKnown && c.timeMode == 0
    ensures var later := ClockSet(c, target).(systemNow := c.systemNow + elapsed);
            && DeviceTime(later).Some?
            && target + elapsed - 1 <= DeviceTime(later).value <= target + elapsed + 1
            && (!(-1 <= target - c.systemNow <= 1) ==> DeviceTime(later).value == target + elapsed)
  {
  }

  /** It is not known before it has been set, nor in another mode. */
  lemma DeviceTimeUnknown(c: ClockInfo)
    ensures DeviceTime(c).None? <==> !c.set_ || !c.stateKnown || c.timeMode != 0
  {
  }

  /** The candidate of day `k` from `now` on, as mktime normalises it. */
  function Candidate(s: Schedule, now: int, k: int): int {
    (now / DAY + k) * DAY + s.hour * 3600 + s.minute * 60
  }

  predicate Accepted(s: Schedule, now: int, k: int) {
    Candidate(s, now, k) > now && RingsOn(s, Weekday(Candidate(s, now, k)))
  }

  /** Some day is checked, or any will do. */
  lemma SomeDayRings(s: Schedule)
    ensures exists d :: 0 <= d < 7 && RingsOn(s, d)
  {
    if s.days % 128 == 0 {
      assert RingsOn(s, 0);
    } else {
      assert Power2(3) == 8 && Power2(5) == 32 && Power2(7) == 128;
      SomeBit(s.days, 128, 7);
      var d :| 0 <= d < 7 && Bit(s.days, d);
      assert RingsOn(s, d);
    }
  }

  /** A number that is not a multiple of `m`, a power of two, has a bit set below that of `m`. */
  lemma {:induction false} SomeBit(n: nat, m: nat, bits: nat)
    requires m in {1, 2, 4, 8, 16, 32, 64, 128} && m == Power2(bits) && n % m != 0
    ensures exists bit :: 0 <= bit < bits && Bit(n, bit)
    decreases bits
  {
    if n % 2 == 1 {
      assert Bit(n, 0);
    } else {
      HalfIsNoMultiple(n, m / 2);
      SomeBit(n / 2, m / 2, bits - 1);
      var bit :| 0 <= bit < bits - 1 && Bit(n / 2, bit);
      assert Bit(n, bit + 1);
    }
  }

  lemma HalfIsNoMultiple(n: nat, m: nat)
    requires m in {1, 2, 4, 8, 16, 32, 64} && n % 2 == 0 && n % (2 * m) != 0
    ensures n / 2 % m != 0
  {
    if m == 1 {} else if m == 2 {} else if m == 4 {} else if m == 8 {} else if m == 16 {} else if m == 32 {} else {}
  }

  lemma WholeDays(t: int, k: int)
    ensures (t + k * DAY) / DAY == t / DAY + k
  {
  }

  lemma CandidateDay(s: Schedule, now: int, k: int)
    ensures Candidate(s, now, k) == Candidate(s, now, 0) + k * DAY
    ensures Weekday(Candidate(s, now, k)) == (Weekday(Candidate(s, now, 0)) + k) % 7
  {
    var t := Candidate(s, now, 0);
    assert Candidate(s, now, k) == t + k * DAY;
    WholeDays(t, k);
  }

  /** One of the seven days after today will do, so the search never fails. */
  lemma SomeCandidateIsAccepted(s: Schedule, now: int)
    ensures exists k :: 0 <= k <= 7 && Accepted(s, now, k)
  {
    SomeDayRings(s);
    var d :| 0 <= d < 7 && RingsOn(s, d);
    var today := Weekday(Candidate(s, now, 0));
    var k := if d > today then d - today else d - today + 7;
    CandidateDay(s, now, k);
    assert Weekday(Candidate(s, now, k)) == d;
    assert Accepted(s, now, k);
  }

  /** For a time of day, the accepted candidates are exactly the future triggers of the next days. */
  lemma CandidateTriggers(s: Schedule, now: int, k: int)
    requires SecondOfDay(s) < DAY
    ensures Candidate(s, now, k) / DAY == now / DAY + k && Candidate(s, now, k) % DAY == SecondOfDay(s)
    ensures Accepted(s, now, k) <==> Candidate(s, now, k) > now && Triggers(s, Candidate(s, now, k))
  {
    WholeDays(SecondOfDay(s), now / DAY + k);
  }

  lemma TriggerIsCandidate(s: Schedule, now: int, u: int)
    requires SecondOfDay(s) < DAY && u > now && Triggers(s, u)
    ensures var k := u / DAY - now / DAY; k >= 0 && u == Candidate(s, now, k) && Accepted(s, now, k)
  {
    var k := u / DAY - now / DAY;
    assert u == (u / DAY) * DAY + u % DAY;
    assert Candidate(s, now, k) == u;
  }

  lemma NoSuchTime(s: Schedule, t: int)
    requires SecondOfDay(s) >= DAY
    ensures !Triggers(s, t)
  {
  }

  /** The first candidate accepted is within a week, and no earlier instant triggers the alarm. */
  lemma FirstIsNext(s: Schedule, now: int, k: nat)
    requires SecondOfDay(s) < DAY
    requires k <= 7 && Accepted(s, now, k) && forall j :: 0 <= j < k ==> !Accepted(s, now, j)
    ensures var t := Candidate(s, now, k);
            && 0 < t - now <= WEEK && Triggers(s, t)
            && forall u :: now < u < t ==> !Triggers(s, u)
  {
    hide RingsOn, Triggers;
    var t := Candidate(s, now, k);
    CandidateTriggers(s, now, k);
    CandidateDay(s, now, k);
    if k == 7 {
      CandidateDay(s, now, 0);
      assert !Accepted(s, now, 0);
      assert Weekday(t) == Weekday(Candidate(s, now, 0));
    }
    forall u | now < u < t
      ensures !Triggers(s, u)
    {
      if Triggers(s, u) {
        TriggerIsCandidate(s, now, u);
      }
    }
  }

  /**
   * prochaine_alarme: today if the time is not past, then each of the seven following days. It fails only
   * for a disabled alarm or an unknown clock. The delay leads to the first trigger after now, unless the
   * hour and minute, which come from the device unchecked, are past the end of a day: then nothing triggers.
   */
  method FindNext(s: Schedule, clock: ClockInfo) returns (delay: Option<int>)
    ensures delay.Some? <==> s.enable && DeviceTime(clock).Some?
    ensures delay.Some? ==> delay.value > 0 && RingsOn(s, Weekday(DeviceTime(clock).value + delay.value))
    ensures delay.Some? ==> (Triggers(s, DeviceTime(clock).value + delay.value) <==> SecondOfDay(s) < DAY)
    ensures delay.Some? && SecondOfDay(s) < DAY ==>
              var now := DeviceTime(clock).value;
              && 0 < delay.value <= WEEK
              && forall u :: now < u < now + delay.value ==> !Triggers(s, u)
  {
    hide RingsOn, Triggers, Weekday;
    var deviceNow := DeviceTime(clock);
    if !s.enable || deviceNow.None? {
      return None;
    }
    var now := deviceNow.value;
    var k := 0;
    while k <= 7
      invariant 0 <= k <= 8
      invariant forall j :: 0 <= j < k ==> !Accepted(s, now, j)
    {
      var t := Candidate(s, now, k);
      if t > now && RingsOn(s, Weekday(t)) {
        if SecondOfDay(s) < DAY {
          FirstIsNext(s, now, k);
        } else {
          NoSuchTime(s, t);
        }
        return Some(t - now);
      }
      k := k + 1;
    }
    SomeCandidateIsAccepted(s, now);
    assert false;
  }
}

/**
 * Alarm records (src/core/control.c) and the update of one setting by reading, editing and writing a whole
 * record (src/app/handlers.c, ecrire_alarme), against a device that keeps two records.
 */
module AlarmRecords {
  import opened Common
  import opened Transport

  const INDEX_1: Byte := 0x01
  const INDEX_2: Byte := 0x07
  const READ_FLAG := 0x80
  const RECORD_SIZE := 11

  /** A value refused before the device is asked anything. */
  const INVALID_VALUE := -100

  /** index_alarme */
  function AlarmIndex(number: int): Byte {
    if number == 1 then INDEX_1 else if number == 2 then INDEX_2 else 0
  }

  datatype ControlAlarm = ControlAlarm(
    enable: bool,
    hour: Byte,
    minute: Byte,
    days: Byte,
    tone: Byte,
    volume: Byte,
    snooze: Byte,
    sunrise: bool,
    sunriseMinutes: Byte,
    sunriseBrightness: Byte)

  function Flag(b: bool): Byte {
    if b then 1 else 0
  }

  /** The fields of a reply, in the order of the protocol: the minute comes before the hour. */
  function Decode(d: seq<Byte>): ControlAlarm
    requires |d| >= RECORD_SIZE
  {
    ControlAlarm(d[1] == 1, d[3], d[2], d[4] % 128, d[5], d[6], d[7], d[8] == 1, d[9], d[10])
  }

  /** Writing and reading back loses nothing but an eighth bit of the days. */
  function Encode(index: Byte, a: ControlAlarm): (d: seq<Byte>)
    ensures |d| == RECORD_SIZE && d[0] == index
    ensures Decode(d) == a.(days := a.days % 128)
    ensures Decode(d) == a <==> a.days < 128
  {
    [index, Flag(a.enable), a.minute, a.hour, a.days % 128, a.tone, a.volume, a.snooze,
     Flag(a.sunrise), a.sunriseMinutes, a.sunriseBrightness]
  }

  /** A record the device keeps for an alarm: flags that are 0 or 1, a time of day, seven days. */
  predicate WellFormed(d: seq<Byte>, index: Byte) {
    && |d| == RECORD_SIZE && d[0] == index
    && d[1] <= 1 && d[2] <= 59 && d[3] <= 23 && d[4] < 128 && d[8] <= 1
  }

  lemma EncodeDecode(d: seq<Byte>, index: Byte)
    requires WellFormed(d, index)
    ensures Encode(index, Decode(d)) == d
  {
  }

  // ---------------------------------------------------------------------
  // One setting
  // ---------------------------------------------------------------------

  /** Alarm/n/<setting> and its value. */
  datatype Setting =
    | Enable(on: bool)
    | Time(hour: Byte, minute: Byte)
    | Days(days: Byte)
    | Snooze(choice: Byte)
    | Tone(choice: Byte)
    | ToneVolume(value: Byte)
    | Sunrise(on: bool)
    | SunriseDuration(value: Byte)
    | SunriseBrightness(value: Byte)

  function Edit(a: ControlAlarm, s: Setting): ControlAlarm {
    match s
    case Enable(on) => a.(enable := on)
    case Time(h, m) => a.(hour := h, minute := m)
    case Days(d) => a.(days := d)
    case Snooze(c) => a.(snooze := c)
    case Tone(c) => a.(tone := c)
    case ToneVolume(v) => a.(volume := v)
    case Sunrise(on) => a.(sunrise := on)
    case SunriseDuration(v) => a.(sunriseMinutes := v)
    case SunriseBrightness(v) => a.(sunriseBrightness := v)
  }

  /** The bytes of a record that hold a setting. */
  function Positions(s: Setting): set<nat> {
    match s
    case Enable(_) => {1}
    case Time(_, _) => {2, 3}
    case Days(_) => {4}
    case Tone(_) => {5}
    case ToneVolume(_) => {6}
    case Snooze(_) => {7}
    case Sunrise(_) => {8}
    case SunriseDuration(_) => {9}
    case SunriseBrightness(_) => {10}
  }

  /** A record holds a setting: the bytes of the protocol have the value asked for, the days without their eighth bit. */
  predicate HoldsSetting(d: seq<Byte>, s: Setting) {
    && |d| == RECORD_SIZE
    && match s
       case Enable(on) => d[1] == if on then 1 else 0
       case Time(hour, minute) => d[2] == minute && d[3] == hour
       case Days(days) => d[4] == days % 128
       case Tone(choice) => d[5] == choice
       case ToneVolume(value) => d[6] == value
       case Snooze(choice) => d[7] == choice
       case Sunrise(on) => d[8] == if on then 1 else 0
       case SunriseDuration(value) => d[9] == value
       case SunriseBrightness(value) => d[10] == value
  }

  /** A record that is edited and encoded holds the setting, under the index of its alarm. */
  lemma EditedHolds(a: ControlAlarm, s: Setting, index: Byte)
    ensures HoldsSetting(Encode(index, Edit(a, s)), s) && Encode(index, Edit(a, s))[0] == index
  {
  }

  predicate ValidTime(hour: int, minute: int) {
    hour <= 23 && minute <= 59
  }

  // ---------------------------------------------------------------------
  // The device and the link to it
  // ---------------------------------------------------------------------

  /**
   * What becomes of an exchange on the link. A late frame of an earlier exchange may be taken for the reply; the
   * request itself may then be served all the same, or be lost.
   */
  datatype Delivery = Delivered | RequestLost | ReplyLost | Misanswered(late: seq<Byte>, served: bool)
  {
    /** The device serves the request. */
    predicate Served() {
      Delivered? || ReplyLost? || (Misanswered? && served)
    }

    /** A reply is accepted. */
    predicate Answered() {
      Delivered? || Misanswered?
    }
  }

  /** A device that keeps two alarm records and answers the alarm command. */
  class AlarmDevice {
    var first: seq<Byte>
    var second: seq<Byte>

    ghost predicate Valid()
      reads this
    {
      |first| == RECORD_SIZE && |second| == RECORD_SIZE && first[0] == INDEX_1 && second[0] == INDEX_2
    }

    function Record(number: int): seq<Byte>
      reads this
    {
      if number == 2 then second else first
    }

    constructor (first: seq<Byte>, second: seq<Byte>)
      requires |first| == RECORD_SIZE && |second| == RECORD_SIZE && first[0] == INDEX_1 && second[0] == INDEX_2
      ensures Valid() && this.first == first && this.second == second
    {
      this.first, this.second := first, second;
    }

    /** Reads a record when the index carries the read flag, stores one otherwise; the reply repeats the index. */
    method Serve(arguments: seq<Byte>) returns (reply: seq<Byte>)
      requires Valid() && |arguments| >= 1
      modifies this
      ensures Valid()
      ensures forall n :: 1 <= n <= 2 && arguments == [AlarmIndex(n) + READ_FLAG, 2] ==>
                reply == [AlarmIndex(n) + READ_FLAG] + Record(n)[1..] && first == old(first) && second == old(second)
      ensures forall n :: 1 <= n <= 2 && |arguments| == RECORD_SIZE && arguments[0] == AlarmIndex(n) ==>
                Record(n) == arguments && Record(3 - n) == old(Record(3 - n))
    {
      if arguments[0] == INDEX_1 + READ_FLAG {
        return [arguments[0]] + first[1..];
      } else if arguments[0] == INDEX_2 + READ_FLAG {
        return [arguments[0]] + second[1..];
      } else if |arguments| == RECORD_SIZE && arguments[0] == INDEX_1 {
        first := arguments;
      } else if |arguments| == RECORD_SIZE && arguments[0] == INDEX_2 {
        second := arguments;
      }
      return [arguments[0]];
    }
  }

  /** demander, for the alarm command: no reply is a timeout, a short reply a protocol error. */
  method Ask(device: AlarmDevice, arguments: seq<Byte>, minData: nat, delivery: Delivery)
    returns (code: int, data: seq<Byte>)
    requires device.Valid() && |arguments| >= 1
    modifies device
    ensures device.Valid()
    ensures !delivery.Served() ==> device.first == old(device.first) && device.second == old(device.second)
    ensures code == if !delivery.Answered() then ERR_TIMEOUT else if |data| < minData then ERR_PROTOCOL else 0
    ensures delivery.Misanswered? ==> data == delivery.late
    ensures forall n :: 1 <= n <= 2 && arguments == [AlarmIndex(n) + READ_FLAG, 2] ==>
              && device.first == old(device.first) && device.second == old(device.second)
              && (delivery == Delivered ==> data == [AlarmIndex(n) + READ_FLAG] + device.Record(n)[1..])
    ensures forall n :: 1 <= n <= 2 && |arguments| == RECORD_SIZE && arguments[0] == AlarmIndex(n) && delivery.Served() ==>
              device.Record(n) == arguments && device.Record(3 - n) == old(device.Record(3 - n))
  {
    data := [];
    if delivery.Served() {
      data := device.Serve(arguments);
    }
    if !delivery.Answered() {
      return ERR_TIMEOUT, data;
    }
    if delivery.Misanswered? {
      data := delivery.late;
    }
    if |data| < minData {
      return ERR_PROTOCOL, data;
    }
    return 0, data;
  }

  /** The data a query of that record is answered with, if they are accepted. */
  function QueryData(delivery: Delivery, record: seq<Byte>, index: Byte): Option<seq<Byte>> {
    match delivery
    case Delivered => Some(record)
    case Misanswered(late, _) => if |late| >= RECORD_SIZE && late[0] % 128 == index then Some(late) else None
    case _ => None
  }

  /** control_alarm_query */
  method QueryAlarm(device: AlarmDevice, number: int, delivery: Delivery) returns (code: int, alarm: Option<ControlAlarm>)
    requires device.Valid()
    modifies device
    ensures device.Valid() && device.first == old(device.first) && device.second == old(device.second)
    ensures code == if number < 1 || number > 2 then ERR_GENERIC
                    else if !delivery.Answered() then ERR_TIMEOUT
                    else if QueryData(delivery, device.Record(number), AlarmIndex(number)).Some? then 0 else ERR_PROTOCOL
    ensures alarm.Some? <==> code == 0
    ensures code == 0 ==> var data := QueryData(delivery, device.Record(number), AlarmIndex(number)).value;
                          |data| >= RECORD_SIZE && alarm.value == Decode(data)
  {
    var index := AlarmIndex(number);
    if index == 0 {
      return ERR_GENERIC, None;
    }
    var data;
    code, data := Ask(device, [(index as int + READ_FLAG) as Byte, 2], RECORD_SIZE, delivery);
    if code != 0 {
      return code, None;
    }
    if data[0] % 128 != index {
      return ERR_PROTOCOL, None;
    }
    return 0, Some(Decode(data));
  }

  /** control_alarm_write */
  method WriteAlarm(device: AlarmDevice, number: int, alarm: ControlAlarm, delivery: Delivery) returns (code: int)
    requires device.Valid()
    modifies device
    ensures device.Valid()
    ensures code == if number < 1 || number > 2 || !ValidTime(alarm.hour, alarm.minute) then ERR_GENERIC
                    else if delivery.Answered() then 0 else ERR_TIMEOUT
    ensures if 1 <= number <= 2 && ValidTime(alarm.hour, alarm.minute) && delivery.Served() then
              device.Record(number) == Encode(AlarmIndex(number), alarm)
              && device.Record(3 - number) == old(device.Record(3 - number))
            else device.first == old(device.first) && device.second == old(device.second)
  {
    var index := AlarmIndex(number);
    if index == 0 || alarm.hour > 23 || alarm.minute > 59 {
      return ERR_GENERIC;
    }
    var data;
    code, data := Ask(device, Encode(index, alarm), 0, delivery);
  }

  /** The record after an edit differs at the bytes of the setting only, for a well-formed record and seven days. */
  predicate DiffersOnlyAt(before: seq<Byte>, after: seq<Byte>, positions: set<nat>) {
    && |before| == |after|
    && forall i :: 0 <= i < |before| && i !in positions ==> after[i] == before[i]
  }

  lemma EditedRecord(d: seq<Byte>, index: Byte, s: Setting)
    requires WellFormed(d, index)
    ensures DiffersOnlyAt(d, Encode(index, Edit(Decode(d), s)), Positions(s))
  {
    EncodeDecode(d, index);
  }

  /** A time that is not one is refused whatever the record read. */
  lemma TimeEdited(setting: Setting)
    ensures setting.Time? ==> forall a: ControlAlarm ::
              Edit(a, setting).hour == setting.hour && Edit(a, setting).minute == setting.minute
  {
  }

  /** The record of an alarm once `setting` is changed in what a query gave. */
  function Changed(data: seq<Byte>, index: Byte, setting: Setting): seq<Byte>
    requires |data| >= RECORD_SIZE
  {
    Encode(index, Edit(Decode(data), setting))
  }

  /**
   * ecrire_alarme. It succeeds exactly when both exchanges are answered, the query with a record of that alarm, and
   * the time to write is one. The record is then the one read with the setting changed if the device serves the
   * write, and as it was otherwise: a success means a change only if the write is served, which is of that setting
   * alone if the record read is the present one. No outcome touches the other alarm.
   */
  method ChangeSetting(device: AlarmDevice, number: int, setting: Setting, query: Delivery, write: Delivery)
    returns (code: int)
    requires device.Valid() && 1 <= number <= 2
    modifies device
    ensures device.Valid()
    ensures device.Record(3 - number) == old(device.Record(3 - number))
    ensures var before, index := old(device.Record(number)), AlarmIndex(number);
            var read := QueryData(query, before, index);
            if read.Some? && |read.value| >= RECORD_SIZE
               && ValidTime(Edit(Decode(read.value), setting).hour, Edit(Decode(read.value), setting).minute) then
              && (code == 0 <==> write.Answered())
              && device.Record(number) == (if write.Served() then Changed(read.value, index, setting) else before)
              // The record of that alarm then holds what was asked for.
              && (write.Served() ==> HoldsSetting(device.Record(number), setting) && device.Record(number)[0] == index)
            else
              code != 0 && device.Record(number) == before
    // With the present record read, as it is when the query is answered by its own reply: only that setting changes.
    ensures WellFormed(old(device.Record(number)), AlarmIndex(number))
            && (query.Misanswered? && |query.late| >= RECORD_SIZE ==> Decode(query.late) == Decode(old(device.Record(number)))) ==>
              DiffersOnlyAt(old(device.Record(number)), device.Record(number), Positions(setting))
    // With both exchanges answered by their own replies.
    ensures var edited := old(Edit(Decode(device.Record(number)), setting));
            query == Delivered && write == Delivered && ValidTime(edited.hour, edited.minute) ==>
              code == 0 && Decode(device.Record(number)) == edited.(days := edited.days % 128)
  {
    hide Encode, Decode, Edit, WellFormed, HoldsSetting;
    TimeEdited(setting);
    if setting.Time? && (setting.hour > 23 || setting.minute > 59) {
      return INVALID_VALUE;
    }
    ghost var record := device.Record(number);
    var alarm;
    code, alarm := QueryAlarm(device, number, query);
    if code != 0 {
      return;
    }
    var edited := Edit(alarm.value, setting);
    EditedHolds(alarm.value, setting, AlarmIndex(number));
    if WellFormed(record, AlarmIndex(number)) {
      EditedRecord(record, AlarmIndex(number), setting);
    }
    code := WriteAlarm(device, number, edited, write);
  }
}

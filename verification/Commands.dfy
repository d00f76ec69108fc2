/** Commands, their handlers and the responses the firmware sends back. */
module Commands {
  import opened Base
  import opened Packets
  import opened Imu

  const COMMAND: byte := 0x10
  const COMMAND_RESPONSE: byte := 0x11
  const IMU_01: byte := 0x01

  const CALIBRATION_START: byte := 0x01
  const CALIBRATION_SAVE: byte := 0x02
  const CALIBRATION_STOP: byte := 0x03

  const OK: byte := 0x00
  const UNKNOWN_COMMAND: byte := 0x01
  const SENSOR_ERROR: byte := 0x02
  const INVALID_STATE: byte := 0x03

  /** The functions the firmware can register as command handlers. */
  datatype Handler = StartCalibration | SaveCalibration | StopCalibration

  /** What a handler does to the calibration mask, and the result code it returns. */
  function Run(h: Handler, mask: byte, o: Outcome): (byte, byte) {
    match h
    case StartCalibration =>
      if Calibrating(mask) then (mask, OK)
      else (MaskAfter(mask, CAL_MASK_CALIBRATING, o), if o.reportOk && o.configOk then OK else SENSOR_ERROR)
    case SaveCalibration =>
      if !Calibrating(mask) then (mask, INVALID_STATE)
      else (mask, if o.saveOk then OK else SENSOR_ERROR)
    case StopCalibration =>
      if !Calibrating(mask) then (mask, OK)
      else (MaskAfter(mask, CAL_MASK_DEFAULT, o), if o.reportOk && o.configOk then OK else SENSOR_ERROR)
  }

  /** An OK answer says which state the IMU is in afterwards; any other answer says nothing changed. */
  lemma RunMeaning(h: Handler, mask: byte, o: Outcome)
    ensures var (mask', result) := Run(h, mask, o);
      && result in {OK, SENSOR_ERROR, INVALID_STATE}
      && (result == OK && h == StartCalibration ==> Calibrating(mask'))
      && (result == OK && h == StopCalibration ==> !Calibrating(mask'))
      && (result != OK || h == SaveCalibration ==> mask' == mask)
      && (result == INVALID_STATE <==> h == SaveCalibration && !Calibrating(mask))
  {
  }

  /** Whether a handler gets the calibration configuration of the sensor changed. */
  predicate Reconfigures(h: Handler, mask: byte, o: Outcome) {
    && o.reportOk && o.configOk
    && match h
       case StartCalibration => !Calibrating(mask)
       case SaveCalibration => false
       case StopCalibration => Calibrating(mask)
  }

  /** Exactly when a handler answers OK, and which calibration is in force afterwards. */
  lemma HandlerAnswers(h: Handler, mask: byte, o: Outcome)
    ensures Run(h, mask, o).1 == OK <==>
      match h
      case StartCalibration => mask & 4 != 0 || (o.reportOk && o.configOk)
      case SaveCalibration => mask & 4 != 0 && o.saveOk
      case StopCalibration => mask & 4 == 0 || (o.reportOk && o.configOk)
    ensures Run(h, mask, o).0 ==
      if h == StartCalibration && mask & 4 == 0 && o.reportOk && o.configOk then 7
      else if h == StopCalibration && mask & 4 != 0 && o.reportOk && o.configOk then 2
      else mask
    ensures Reconfigures(h, mask, o) <==>
      && o.reportOk && o.configOk
      && ((h == StartCalibration && mask & 4 == 0) || (h == StopCalibration && mask & 4 != 0))
  {
  }

  const MAX_COMMAND_HANDLERS: nat := 3
  const SIZE_T_WRAP: nat := 0x1_0000_0000

  type Table = seq<Option<Handler>>

  /** `static_cast<size_t>(command_id) - 1`, which wraps for id 0. */
  function HandlerIndex(id: byte): nat {
    (ToNat(id) + SIZE_T_WRAP - 1) % SIZE_T_WRAP
  }

  function Lookup(table: Table, id: byte): Option<Handler> {
    if HandlerIndex(id) < |table| then table[HandlerIndex(id)] else None
  }

  /** Only ids 1 to 3 can have a handler; id 0 wraps out of the table. */
  lemma LookupIds(table: Table, id: byte)
    requires |table| == MAX_COMMAND_HANDLERS
    ensures Lookup(table, id).Some? ==> 1 <= ToNat(id) <= 3 && Lookup(table, id) == table[ToNat(id) - 1]
    ensures 1 <= ToNat(id) <= 3 ==> Lookup(table, id) == table[ToNat(id) - 1]
  {
    ToNatRange(id);
  }

  /** The table after the firmware's setup. */
  const FULL_TABLE: Table := [Some(StartCalibration), Some(SaveCalibration), Some(StopCalibration)]

  lemma FullTable(id: byte)
    ensures Lookup(FULL_TABLE, CALIBRATION_START) == Some(StartCalibration)
    ensures Lookup(FULL_TABLE, CALIBRATION_SAVE) == Some(SaveCalibration)
    ensures Lookup(FULL_TABLE, CALIBRATION_STOP) == Some(StopCalibration)
    ensures id !in {CALIBRATION_START, CALIBRATION_SAVE, CALIBRATION_STOP} ==> Lookup(FULL_TABLE, id) == None
  {
    Increment(0);
    Increment(1);
    Increment(2);
    ToNatRange(id);
    SameNumber(id, 1);
    SameNumber(id, 2);
    SameNumber(id, 3);
  }

  predicate IsCommand(p: Packet) {
    p.packetId == COMMAND && |p.payload| == 3
  }

  function Response(p: Packet, result: byte): Packet
    requires IsCommand(p)
  {
    Packet(COMMAND_RESPONSE, p.deviceId, [p.payload[0], p.payload[1], result])
  }

  /** `dispatch_command`: the mask afterwards, and the response sent, if any. */
  function Dispatch(table: Table, p: Packet, mask: byte, o: Outcome): (byte, Option<Packet>) {
    if !IsCommand(p) then (mask, None)
    else
      match Lookup(table, p.payload[0])
      case None => (mask, Some(Response(p, UNKNOWN_COMMAND)))
      case Some(h) => (Run(h, mask, o).0, Some(Response(p, Run(h, mask, o).1)))
  }

  /** Whether dispatching the packet gets the calibration configuration changed. */
  predicate DispatchReconfigures(table: Table, p: Packet, mask: byte, o: Outcome) {
    IsCommand(p) && Lookup(table, p.payload[0]).Some? && Reconfigures(Lookup(table, p.payload[0]).value, mask, o)
  }

  // ----- responses match commands one to one -----

  /** `r` answers command `c`: same id and sequence byte, and an unknown command is reported
      exactly when there is no handler. */
  predicate Answers(table: Table, c: Packet, r: Packet) {
    && IsCommand(c)
    && r.packetId == COMMAND_RESPONSE && r.deviceId == c.deviceId
    && |r.payload| == 3 && r.payload[..2] == c.payload[..2]
    && (r.payload[2] == UNKNOWN_COMMAND <==> Lookup(table, c.payload[0]) == None)
  }

  function CommandsOf(ps: seq<Packet>): seq<Packet> {
    if ps == [] then []
    else (if IsCommand(ps[0]) then [ps[0]] else []) + CommandsOf(ps[1..])
  }

  ghost predicate AnswersAll(table: Table, cs: seq<Packet>, rs: seq<Packet>) {
    |cs| == |rs| && forall i :: 0 <= i < |cs| ==> Answers(table, cs[i], rs[i])
  }

  /** What is answered, and what the answer says, in terms of the packet alone. */
  lemma DispatchMeaning(p: Packet, mask: byte, o: Outcome)
    ensures var (mask', response) := Dispatch(FULL_TABLE, p, mask, o);
      && (response.Some? <==> p.packetId == 0x10 && |p.payload| == 3)
      && (response == None ==> mask' == mask)
      && (response.Some? ==>
           var r, id := response.value, p.payload[0];
           && r.packetId == 0x11 && r.deviceId == p.deviceId && |r.payload| == 3
           && r.payload[0] == id && r.payload[1] == p.payload[1]
           && (r.payload[2] == 1 <==> id !in {1, 2, 3}) && r.payload[2] in {0, 1, 2, 3}
           && (r.payload[2] == 0 <==>
                || (id == 1 && (mask & 4 != 0 || (o.reportOk && o.configOk)))
                || (id == 2 && mask & 4 != 0 && o.saveOk)
                || (id == 3 && (mask & 4 == 0 || (o.reportOk && o.configOk))))
           && (r.payload[2] == 3 <==> id == 2 && mask & 4 == 0)
           && mask' == if id == 1 && mask & 4 == 0 && o.reportOk && o.configOk then 7
                       else if id == 3 && mask & 4 != 0 && o.reportOk && o.configOk then 2
                       else mask)
  {
    hide Run, Reconfigures, Lookup;
    if IsCommand(p) {
      FullTable(p.payload[0]);
    }
    HandlerAnswers(StartCalibration, mask, o);
    HandlerAnswers(SaveCalibration, mask, o);
    HandlerAnswers(StopCalibration, mask, o);
    RunMeaning(StartCalibration, mask, o);
    RunMeaning(SaveCalibration, mask, o);
    RunMeaning(StopCalibration, mask, o);
  }

  lemma DispatchAnswers(table: Table, p: Packet, mask: byte, o: Outcome)
    ensures AnswersAll(table, CommandsOf([p]), match Dispatch(table, p, mask, o).1 case None => [] case Some(r) => [r])
  {
    var ps := [p];
    assert ps[1..] == [] && CommandsOf([]) == [];
    if IsCommand(p) && Lookup(table, p.payload[0]).Some? {
      RunMeaning(Lookup(table, p.payload[0]).value, mask, o);
    }
  }

  lemma {:induction false} CommandsAppend(a: seq<Packet>, b: seq<Packet>)
    ensures CommandsOf(a + b) == CommandsOf(a) + CommandsOf(b)
    decreases |a|
  {
    if a == [] {
      Empty(b);
      Empty(CommandsOf(b));
    } else {
      assert (a + b)[1..] == a[1..] + b;
      CommandsAppend(a[1..], b);
      Assoc(if IsCommand(a[0]) then [a[0]] else [], CommandsOf(a[1..]), CommandsOf(b));
    }
  }

  lemma AnswersAppend(table: Table, cs: seq<Packet>, rs: seq<Packet>, cs': seq<Packet>, rs': seq<Packet>)
    requires AnswersAll(table, cs, rs) && AnswersAll(table, cs', rs')
    ensures AnswersAll(table, cs + cs', rs + rs')
  {
  }
}

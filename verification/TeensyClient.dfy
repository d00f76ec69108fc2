/** The firmware's serial buffer, command client and command handlers. */
module TeensyClient {
  import opened Base
  import opened Packets
  import opened Commands
  import opened Imu
  import opened TeensyStream
  import TeensyPacket

  /** Accumulates the bytes of one COBS-encoded frame. */
  class SerialBuffer {
    const buffer: array<byte>
    var len: nat
    var overflowed: bool

    /** The buffer is in the state that the bytes `t` since the last delimiter put it in: it holds
        them all, or as many as fit and the overflow flag. */
    ghost predicate Holds(t: seq<byte>)
      reads this, buffer
    {
      && buffer.Length == MAX_ENCODED_SIZE
      && len == (if |t| <= MAX_ENCODED_SIZE then |t| else MAX_ENCODED_SIZE)
      && buffer[..len] == t[..len]
      && (overflowed <==> |t| > MAX_ENCODED_SIZE)
    }

    constructor ()
      ensures Holds([]) && fresh(buffer)
    {
      buffer := new byte[MAX_ENCODED_SIZE](_ => 0);
      len := 0;
      overflowed := false;
    }

    /** `reset`. */
    method Reset()
      requires buffer.Length == MAX_ENCODED_SIZE
      modifies this
      ensures Holds([])
    {
      len := 0;
      overflowed := false;
    }

    /** `push`: true once the delimiter of a frame that fits has been read. */
    method Push(b: byte, ghost t: seq<byte>) returns (complete: bool)
      requires Holds(t)
      modifies this, buffer
      ensures complete <==> b == 0 && 0 < |t| <= MAX_ENCODED_SIZE
      ensures Holds(if complete then t else if b == 0 then [] else t + [b])
    {
      if b == 0 {
        var haveFrame := len > 0 && !overflowed;
        if !haveFrame {
          Reset();
        }
        return haveFrame;
      }
      if len >= buffer.Length {
        overflowed := true;
        assert (t + [b])[..len] == t[..len];
        return false;
      }
      buffer[len] := b;
      len := len + 1;
      assert (t + [b])[..len] == t[..len - 1] + [b];
      assert buffer[..len] == buffer[..len - 1] + [b];
      return false;
    }
  }

  /** Reconfiguring calibration resets the reported magnetometer accuracy. */
  function Refreshed(a: Accuracy, reconfigured: bool): Accuracy {
    if reconfigured then a.(mag := 0) else a
  }

  /** `start_calibration_command` and its two siblings. */
  method RunHandler(h: Handler, imu: BNO085, o: Outcome) returns (result: byte)
    modifies imu`calMask, imu`accuracy
    ensures (imu.calMask, result) == Run(h, old(imu.calMask), o)
    ensures imu.accuracy == Refreshed(old(imu.accuracy), Reconfigures(h, old(imu.calMask), o))
  {
    match h {
      case StartCalibration =>
        if imu.calMask & CAL_MAG != 0 {
          return OK;
        }
        var ok := imu.Calibrate(CAL_MASK_CALIBRATING, o);
        return if ok then OK else SENSOR_ERROR;
      case SaveCalibration =>
        if imu.calMask & CAL_MAG == 0 {
          return INVALID_STATE;
        }
        return if o.saveOk then OK else SENSOR_ERROR;
      case StopCalibration =>
        if imu.calMask & CAL_MAG == 0 {
          return OK;
        }
        var ok := imu.Calibrate(CAL_MASK_DEFAULT, o);
        return if ok then OK else SENSOR_ERROR;
    }
  }

  /** Encodes and sends packets, and dispatches incoming commands. */
  class Client {
    const buffer: SerialBuffer
    const handlers: array<Option<Handler>>
    const imu: BNO085
    /** The serial port: bytes waiting to be read, and everything written so far. */
    var incoming: seq<byte>
    var outgoing: seq<byte>
    /** The bytes read since the last delimiter. */
    ghost var partial: seq<byte>

    ghost predicate Valid()
      reads this, buffer, buffer.buffer, handlers
    {
      && buffer.Holds(partial) && ZeroFree(partial)
      && handlers.Length == MAX_COMMAND_HANDLERS
    }

    constructor (imu: BNO085)
      ensures Valid() && partial == [] && incoming == [] && outgoing == [] && this.imu == imu
      ensures handlers[..] == [None, None, None]
      ensures fresh(buffer) && fresh(buffer.buffer) && fresh(handlers)
    {
      buffer := new SerialBuffer();
      handlers := new Option<Handler>[MAX_COMMAND_HANDLERS](_ => None);
      this.imu := imu;
      incoming, outgoing, partial := [], [], [];
    }

    /** `register_handler`: ids without a slot are ignored. */
    method RegisterHandler(id: byte, handler: Handler)
      requires Valid()
      modifies handlers
      ensures Valid()
      ensures forall i :: 0 <= i < MAX_COMMAND_HANDLERS ==>
        handlers[i] == if i == HandlerIndex(id) then Some(handler) else old(handlers[i])
    {
      var index := HandlerIndex(id);
      if index < handlers.Length {
        handlers[index] := Some(handler);
      }
    }

    /** `find_handler`. */
    method FindHandler(id: byte) returns (h: Option<Handler>)
      requires Valid()
      ensures h == Lookup(handlers[..], id)
    {
      var index := HandlerIndex(id);
      if index < handlers.Length {
        return handlers[index];
      }
      return None;
    }

    /** `send_bytes`, which succeeds for every payload that fits. */
    method SendBytes(packetId: byte, deviceId: byte, data: seq<byte>) returns (ok: bool)
      requires |data| <= MAX_PAYLOAD_SIZE
      modifies this`outgoing
      ensures ok && outgoing == old(outgoing) + Wire(Packet(packetId, deviceId, data))
    {
      var payload := data + seq(MAX_PAYLOAD_SIZE - |data|, _ => 0);
      var packet := TeensyPacket.RawPacket(packetId, deviceId, payload, |data|);
      assert payload[..|data|] == data;
      var out := new byte[MAX_ENCODED_SIZE](_ => 0);
      var n := TeensyPacket.Encode(packet, out, out.Length);
      if n < 0 {
        return false;
      }
      outgoing := outgoing + out[..n];
      return true;
    }

    /** `dispatch_command`. */
    method DispatchCommand(packet: Packet, o: Outcome)
      requires Valid()
      modifies this`outgoing, imu`calMask, imu`accuracy
      ensures var (mask, response) := Dispatch(handlers[..], packet, old(imu.calMask), o);
        && imu.calMask == mask
        && outgoing == old(outgoing) + match response case None => [] case Some(r) => Wire(r)
      ensures imu.accuracy ==
        Refreshed(old(imu.accuracy), DispatchReconfigures(handlers[..], packet, old(imu.calMask), o))
    {
      hide Wire;
      if packet.packetId != COMMAND || |packet.payload| != 3 {
        return;
      }
      var handler := FindHandler(packet.payload[0]);
      var result := UNKNOWN_COMMAND;
      if handler.Some? {
        result := RunHandler(handler.value, imu, o);
      }
      var _ := SendBytes(COMMAND_RESPONSE, packet.deviceId, [packet.payload[0], packet.payload[1], result]);
    }

    /** `poll_command`: the frame taken, the packet in it and the response to it are those of the
        stream model. */
    method PollCommand(o: Outcome)
      requires Valid()
      modifies this, buffer, buffer.buffer, imu`calMask, imu`accuracy
      ensures Valid() && handlers[..] == old(handlers[..])
      ensures var (link, frame) := Poll(Link(old(partial), old(incoming)));
        && Link(partial, incoming) == link
        && match frame
           case None =>
             imu.calMask == old(imu.calMask) && imu.accuracy == old(imu.accuracy) && outgoing == old(outgoing)
           case Some(f) =>
             match FromSegmentBounded(f)
             case None =>
               imu.calMask == old(imu.calMask) && imu.accuracy == old(imu.accuracy) && outgoing == old(outgoing)
             case Some(p) =>
               var (mask, response) := Dispatch(handlers[..], p, old(imu.calMask), o);
               && imu.calMask == mask
               && imu.accuracy ==
                  Refreshed(old(imu.accuracy), DispatchReconfigures(handlers[..], p, old(imu.calMask), o))
               && outgoing == old(outgoing) + match response case None => [] case Some(r) => Wire(r)
    {
      hide Dispatch, DispatchReconfigures, FromSegmentBounded, Wire;
      while |incoming| > 0
        invariant Valid()
        invariant Poll(Link(partial, incoming)) == Poll(Link(old(partial), old(incoming)))
        invariant imu.calMask == old(imu.calMask) && imu.accuracy == old(imu.accuracy)
        invariant outgoing == old(outgoing) && handlers[..] == old(handlers[..])
        decreases |incoming|
      {
        var b := incoming[0];
        incoming := incoming[1..];
        var complete := buffer.Push(b, partial);
        if complete {
          var packet := TeensyPacket.Decode(buffer.buffer, buffer.len);
          assert buffer.buffer[..buffer.len] == partial;
          buffer.Reset();
          partial := [];
          if packet.Some? {
            DispatchCommand(TeensyPacket.View(packet.value), o);
          }
          return;
        }
        partial := if b == 0 then [] else partial + [b];
      }
    }
  }
}

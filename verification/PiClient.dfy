/** The driver's reading thread: accumulate what the serial port delivers, decode, dispatch. */
module PiClient {
  import opened Base
  import opened Packets
  import Framing
  import PiPacket

  /** One call to `read_from_socket`: an I/O error, or the bytes read (none after a timeout). */
  datatype Read = Failure | Data(bytes: seq<byte>)

  type CallbackId = nat

  /** One invocation of a registered callback. */
  datatype Call = Call(callback: CallbackId, packet: Packet)

  type Callbacks = map<byte, seq<CallbackId>>

  /** The bytes read before the first failure. */
  function Received(inputs: seq<Read>): seq<byte> {
    if inputs == [] || inputs[0].Failure? then [] else inputs[0].bytes + Received(inputs[1..])
  }

  predicate Fails(inputs: seq<Read>) {
    inputs != [] && (inputs[0].Failure? || Fails(inputs[1..]))
  }

  /** `inputs` deliver the stream `s` cut at the offsets `cuts`, without a failure. */
  ghost predicate IsCut(s: seq<byte>, cuts: seq<nat>, inputs: seq<Read>) {
    && |cuts| == |inputs| + 1 && cuts[0] == 0 && cuts[|inputs|] == |s|
    && forall i :: 0 <= i < |inputs| ==> IsPiece(s, cuts, i, inputs[i])
  }

  predicate IsPiece(s: seq<byte>, cuts: seq<nat>, i: nat, r: Read) {
    i + 1 < |cuts| && cuts[i] <= cuts[i + 1] <= |s| && r == Data(s[cuts[i]..cuts[i + 1]])
  }

  lemma FromOffset(s: seq<byte>, i: nat, j: nat)
    requires i <= j <= |s|
    ensures s[i..j] + s[j..] == s[i..]
  {
  }

  lemma {:induction false} ReceivedFrom(s: seq<byte>, cuts: seq<nat>, inputs: seq<Read>, k: nat)
    requires IsCut(s, cuts, inputs) && k <= |inputs|
    ensures cuts[k] <= |s| && Received(inputs[k..]) == s[cuts[k]..] && !Fails(inputs[k..])
    decreases |inputs| - k
  {
    if k == |inputs| {
      assert s[|s|..] == [];
    } else {
      assert IsPiece(s, cuts, k, inputs[k]);
      ReceivedFrom(s, cuts, inputs, k + 1);
      assert inputs[k..][1..] == inputs[k + 1..];
      FromOffset(s, cuts[k], cuts[k + 1]);
    }
  }

  /** What was received is the stream, however it was cut into reads. */
  lemma ReceivedCut(s: seq<byte>, cuts: seq<nat>, inputs: seq<Read>)
    requires IsCut(s, cuts, inputs)
    ensures Received(inputs) == s && !Fails(inputs)
  {
    ReceivedFrom(s, cuts, inputs, 0);
    assert inputs[0..] == inputs && s[0..] == s;
  }

  lemma AnyCut(inputs: seq<Read>)
    ensures forall s, cuts :: IsCut(s, cuts, inputs) ==> Received(inputs) == s && !Fails(inputs)
  {
    forall s, cuts | IsCut(s, cuts, inputs)
      ensures Received(inputs) == s && !Fails(inputs)
    {
      ReceivedCut(s, cuts, inputs);
    }
  }

  /** Everything before a failure counts, and nothing behind it. */
  lemma {:induction false} ReceivedUntilFailure(before: seq<Read>, behind: seq<Read>)
    requires forall i :: 0 <= i < |before| ==> before[i].Data?
    ensures Received(before + [Failure] + behind) == Received(before)
    ensures Fails(before + [Failure] + behind) && !Fails(before)
    decreases |before|
  {
    var all := before + [Failure] + behind;
    if before == [] {
      assert all[0] == Failure;
    } else {
      assert all[1..] == before[1..] + [Failure] + behind;
      ReceivedUntilFailure(before[1..], behind);
    }
  }

  function CallsFor(ids: seq<CallbackId>, packet: Packet): (calls: seq<Call>)
    ensures |calls| == |ids|
  {
    seq(|ids|, i requires 0 <= i < |ids| => Call(ids[i], packet))
  }

  /** The calls a list of packets causes, packet by packet and in order of registration. */
  function Calls(callbacks: Callbacks, packets: seq<Packet>): seq<Call> {
    if packets == [] then []
    else Registered(callbacks, packets[0]) + Calls(callbacks, packets[1..])
  }

  function Registered(callbacks: Callbacks, packet: Packet): seq<Call> {
    if packet.packetId in callbacks then CallsFor(callbacks[packet.packetId], packet) else []
  }

  lemma {:induction false} CallsAppend(callbacks: Callbacks, a: seq<Packet>, b: seq<Packet>)
    ensures Calls(callbacks, a + b) == Calls(callbacks, a) + Calls(callbacks, b)
    decreases |a|
  {
    if a == [] {
      Empty(b);
      Empty(Calls(callbacks, b));
    } else {
      assert (a + b)[1..] == a[1..] + b;
      CallsAppend(callbacks, a[1..], b);
      Assoc(Registered(callbacks, a[0]), Calls(callbacks, a[1..]), Calls(callbacks, b));
    }
  }

  lemma NoCalls(callbacks: Callbacks)
    ensures Calls(callbacks, []) == []
  {
  }

  lemma CallsSnoc(callbacks: Callbacks, packets: seq<Packet>, k: nat)
    requires k < |packets|
    ensures Calls(callbacks, packets[..k + 1]) == Calls(callbacks, packets[..k]) + Registered(callbacks, packets[k])
  {
    assert packets[..k + 1] == packets[..k] + [packets[k]];
    CallsAppend(callbacks, packets[..k], [packets[k]]);
    assert [packets[k]][1..] == [];
    assert Calls(callbacks, [packets[k]]) == Registered(callbacks, packets[k]) + Calls(callbacks, []);
  }

  // ----- what one callback sees -----

  /** The packets given to callback `c`, in order. */
  function Given(calls: seq<Call>, c: CallbackId): seq<Packet> {
    if calls == [] then []
    else (if calls[0].callback == c then [calls[0].packet] else []) + Given(calls[1..], c)
  }

  /** Callback `c` is registered once, and for `id` only. */
  ghost predicate OnlyFor(callbacks: Callbacks, c: CallbackId, id: byte) {
    && id in callbacks && multiset(callbacks[id])[c] == 1
    && forall other :: other in callbacks && other != id ==> c !in callbacks[other]
  }

  lemma {:induction false} GivenAppend(a: seq<Call>, b: seq<Call>, c: CallbackId)
    ensures Given(a + b, c) == Given(a, c) + Given(b, c)
    decreases |a|
  {
    if a == [] {
      Empty(b);
      Empty(Given(b, c));
    } else {
      assert (a + b)[1..] == a[1..] + b;
      GivenAppend(a[1..], b, c);
      Assoc(if a[0].callback == c then [a[0].packet] else [], Given(a[1..], c), Given(b, c));
    }
  }

  lemma {:induction false} GivenFor(ids: seq<CallbackId>, packet: Packet, c: CallbackId)
    ensures multiset(ids)[c] == 0 ==> Given(CallsFor(ids, packet), c) == []
    ensures multiset(ids)[c] == 1 ==> Given(CallsFor(ids, packet), c) == [packet]
    decreases |ids|
  {
    if ids == [] {
    } else {
      assert ids == [ids[0]] + ids[1..];
      assert CallsFor(ids, packet)[1..] == CallsFor(ids[1..], packet);
      GivenFor(ids[1..], packet, c);
    }
  }

  /** A callback registered once, for one id, is called with exactly the packets of that id. */
  lemma {:induction false} GivenWithId(callbacks: Callbacks, packets: seq<Packet>, c: CallbackId, id: byte)
    requires OnlyFor(callbacks, c, id)
    ensures Given(Calls(callbacks, packets), c) == WithId(packets, id)
    decreases |packets|
  {
    if packets == [] {
    } else {
      var p := packets[0];
      GivenAppend(Registered(callbacks, p), Calls(callbacks, packets[1..]), c);
      GivenWithId(callbacks, packets[1..], c, id);
      if p.packetId in callbacks {
        GivenFor(callbacks[p.packetId], p, c);
      }
    }
  }

  lemma GivenSince(callbacks: Callbacks, before: seq<Call>, packets: seq<Packet>)
    ensures forall c, id :: OnlyFor(callbacks, c, id) ==>
      Given(before + Calls(callbacks, packets), c) == Given(before, c) + WithId(packets, id)
  {
    forall c, id | OnlyFor(callbacks, c, id)
      ensures Given(before + Calls(callbacks, packets), c) == Given(before, c) + WithId(packets, id)
    {
      GivenAppend(before, Calls(callbacks, packets), c);
      GivenWithId(callbacks, packets, c, id);
    }
  }

  class Client {
    var accumulated: seq<byte>
    var running: bool
    var connected: bool
    var callbacks: Callbacks
    /** Every callback invocation so far. */
    var calls: seq<Call>

    /** What is kept between reads never contains a delimiter. */
    ghost predicate Valid()
      reads this
    {
      ZeroFree(accumulated)
    }

    constructor ()
      ensures Valid() && accumulated == [] && running && connected && callbacks == map[] && calls == []
    {
      accumulated := [];
      running, connected := true, true;
      callbacks, calls := map[], [];
    }

    method RegisterCallback(packetId: byte, callback: CallbackId)
      modifies this`callbacks
      ensures callbacks == old(callbacks)[packetId :=
        (if packetId in old(callbacks) then old(callbacks)[packetId] else []) + [callback]]
    {
      var registered := if packetId in callbacks then callbacks[packetId] else [];
      callbacks := callbacks[packetId := registered + [callback]];
    }

    method Dispatch(packet: Packet)
      modifies this`calls
      ensures calls == old(calls) + Registered(callbacks, packet)
      ensures packet.packetId !in callbacks ==> calls == old(calls)
      ensures packet.packetId in callbacks ==>
        var ids := callbacks[packet.packetId]; var n := |old(calls)|;
        && |calls| == n + |ids| && calls[..n] == old(calls)
        && forall i :: 0 <= i < |ids| ==> calls[n + i] == Call(ids[i], packet)
    {
      if packet.packetId !in callbacks {
        return;
      }
      var toCall := callbacks[packet.packetId];
      for i := 0 to |toCall|
        invariant calls == old(calls) + CallsFor(toCall[..i], packet)
      {
        calls := calls + [Call(toCall[i], packet)];
        assert CallsFor(toCall[..i + 1], packet) == CallsFor(toCall[..i], packet) + [Call(toCall[i], packet)];
      }
      assert toCall[..|toCall|] == toCall;
    }

    /** `poll_connection`, fed with what its reads return until it is stopped. The calls made and
        the bytes kept depend on the stream alone, not on how it was cut into reads. */
    method PollConnection(inputs: seq<Read>)
      requires Valid()
      modifies this`accumulated, this`connected, this`calls
      ensures Valid()
      ensures var stream := old(accumulated) + Received(inputs);
        && accumulated == Framing.Tail(stream)
        && calls == old(calls) + Calls(callbacks, Framing.PiPackets(stream))
      ensures connected == (old(connected) && !Fails(inputs))
      ensures forall s, cuts :: IsCut(s, cuts, inputs) ==>
        && connected == old(connected)
        && accumulated == Framing.Tail(old(accumulated) + s)
        && calls == old(calls) + Calls(callbacks, Framing.PiPackets(old(accumulated) + s))
      ensures forall c, id :: OnlyFor(callbacks, c, id) ==>
        Given(calls, c) == Given(old(calls), c) + WithId(Framing.PiPackets(old(accumulated) + Received(inputs)), id)
    {
      hide Framing.PiPackets, Framing.Tail, IsCut, OnlyFor, Given, WithId, Calls, Registered;
      ghost var stream := accumulated;
      Framing.ZeroFreeStream(accumulated);
      Empty(accumulated);
      Empty(calls);
      NoCalls(callbacks);
      var i := 0;
      while i < |inputs|
        invariant i <= |inputs|
        invariant stream + Received(inputs[i..]) == old(accumulated) + Received(inputs)
        invariant Fails(inputs) <==> Fails(inputs[i..])
        invariant connected == old(connected)
        invariant accumulated == Framing.Tail(stream)
        invariant calls == old(calls) + Calls(callbacks, Framing.PiPackets(stream))
      {
        if inputs[i].Failure? {
          connected := false;
          assert Received(inputs[i..]) == [];
          break;
        }
        var data := inputs[i].bytes;
        ghost var rest := inputs[i..];
        assert rest[0] == inputs[i] && rest[1..] == inputs[i + 1..];
        assert Received(rest) == data + Received(inputs[i + 1..]);
        Assoc(stream, data, Received(inputs[i + 1..]));
        i := i + 1;
        if data == [] {
          Empty(stream);
          Empty(Received(inputs[i..]));
          continue;
        }
        Framing.PiPacketsAppend(stream, data);
        ghost var earlier := Framing.PiPackets(stream);
        stream := stream + data;
        accumulated := accumulated + data;
        var packets, stop := PiPacket.DecodePackets(accumulated);
        accumulated := accumulated[stop..];
        ghost var before := calls;
        Empty(before);
        assert packets[..0] == [];
        for k := 0 to |packets|
          modifies this`calls
          invariant calls == before + Calls(callbacks, packets[..k])
        {
          CallsSnoc(callbacks, packets, k);
          Assoc(before, Calls(callbacks, packets[..k]), Registered(callbacks, packets[k]));
          Dispatch(packets[k]);
        }
        assert packets[..|packets|] == packets;
        CallsAppend(callbacks, earlier, packets);
        Assoc(old(calls), Calls(callbacks, earlier), Calls(callbacks, packets));
      }
      Empty(stream);
      Framing.TailIsZeroFree(stream);
      AnyCut(inputs);
      GivenSince(callbacks, old(calls), Framing.PiPackets(old(accumulated) + Received(inputs)));
    }
  }
}

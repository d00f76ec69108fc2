/** Which samples the runs of the firmware's main loop send, IMU resets included. */
module ImuRuns {
  import opened Base
  import opened Commands
  import opened Imu
  import opened Firmware
  import opened FirmwareRuns
  import Packets
  import TeensyStream

  /** The sensor state that `read` starts from in pass number `i`. */
  function ImuAt(staleMs: nat, b: Board, run: Run, i: nat): State
    requires i < |run| && run[i].LoopPass?
  {
    AfterReset(AfterPoll(FULL_TABLE, BoardAt(staleMs, b, run, i), run[i].pass), run[i].pass).imu
  }

  /** The sample that pass number `i` sends, if it sends one. */
  function Emitted(staleMs: nat, b: Board, run: Run, i: nat): (sample: Option<Sample>)
    requires i < |run|
    ensures sample.Some? ==> run[i].LoopPass?
  {
    if run[i].LoopPass? then ReadStep(ImuAt(staleMs, b, run, i), run[i].pass.reading, staleMs).1 else None
  }

  /** The sample a pass emits goes out in an IMU_DATA packet. */
  lemma EmittedIsSent(staleMs: nat, b: Board, run: Run, i: nat)
    requires i < |run| && Emitted(staleMs, b, run, i).Some?
    ensures Packets.Packet(IMU_DATA, IMU_01, SampleBytes(Emitted(staleMs, b, run, i).value))
      in BoardAt(staleMs, b, run, i + 1).sent
  {
    hide ReadStep, StatusDue, Dispatch, TeensyStream.Poll, Packets.FromSegmentBounded, SampleBytes, StatusBytes;
  }

  lemma ImuAfter(staleMs: nat, b: Board, run: Run, i: nat)
    requires i < |run|
    ensures run[i].LoopPass? ==>
      && BoardAt(staleMs, b, run, i + 1).imu == ReadStep(ImuAt(staleMs, b, run, i), run[i].pass.reading, staleMs).0
      && ImuAt(staleMs, b, run, i).sample == BoardAt(staleMs, b, run, i).imu.sample
      && ImuAt(staleMs, b, run, i).lastGyroMs ==
         if run[i].pass.wasReset then 0 else BoardAt(staleMs, b, run, i).imu.lastGyroMs
    ensures run[i].Bytes? ==> BoardAt(staleMs, b, run, i + 1).imu == BoardAt(staleMs, b, run, i).imu
  {
    hide ReadStep, StatusDue, Dispatch, TeensyStream.Poll, Packets.FromSegmentBounded, SampleBytes, StatusBytes;
  }

  predicate IsReset(run: Run, i: nat) {
    i < |run| && run[i].LoopPass? && run[i].pass.wasReset
  }

  predicate IsAccel(run: Run, i: nat) {
    i < |run| && run[i].LoopPass? && run[i].pass.reading.event.Accelerometer?
  }

  predicate IsQuat(run: Run, i: nat) {
    i < |run| && run[i].LoopPass? && run[i].pass.reading.event.RotationVector?
  }

  /** What happening `i` does to the two flags. */
  lemma FlagsAfter(staleMs: nat, b: Board, run: Run, i: nat)
    requires i < |run|
    ensures var s := BoardAt(staleMs, b, run, i).imu; var t := BoardAt(staleMs, b, run, i + 1).imu;
      var accel := (!IsReset(run, i) && s.haveAccel) || IsAccel(run, i);
      var quat := (!IsReset(run, i) && s.haveQuat) || IsQuat(run, i);
      if run[i].Bytes? then Emitted(staleMs, b, run, i) == None && t == s
      else
        && (Emitted(staleMs, b, run, i).Some? <==> accel && quat)
        && t.haveAccel == (accel && !quat) && t.haveQuat == (quat && !accel)
  {
    hide StatusDue, Dispatch, TeensyStream.Poll, Packets.FromSegmentBounded, SampleBytes, StatusBytes, Stale;
  }

  // ----- when samples are sent -----

  /** How many samples the first `k` happenings send. */
  function Emissions(staleMs: nat, b: Board, run: Run, k: nat): nat
    requires k <= |run|
  {
    if k == 0 then 0
    else Emissions(staleMs, b, run, k - 1) + if Emitted(staleMs, b, run, k - 1).Some? then 1 else 0
  }

  /** The first happening that counts for the next sample: the one after the last emission before
      `k`, or the last reset, if that came later. */
  function Since(staleMs: nat, b: Board, run: Run, k: nat): (p: nat)
    requires k <= |run|
    ensures p <= k
  {
    if k == 0 then 0
    else if Emitted(staleMs, b, run, k - 1).Some? then k
    else if IsReset(run, k - 1) then k - 1
    else Since(staleMs, b, run, k - 1)
  }

  /** The same for the sample of pass `k` itself, which may find a reset first. */
  function Window(staleMs: nat, b: Board, run: Run, k: nat): (p: nat)
    requires k < |run|
    ensures p <= k
  {
    if IsReset(run, k) then k else Since(staleMs, b, run, k)
  }

  predicate HasAccel(run: Run, i: nat, j: nat) {
    exists a :: i <= a < j && IsAccel(run, a)
  }

  predicate HasQuat(run: Run, i: nat, j: nat) {
    exists a :: i <= a < j && IsQuat(run, a)
  }

  predicate Fresh(b: Board) {
    !b.imu.haveAccel && !b.imu.haveQuat
  }

  lemma HasStep(run: Run, p: nat, k: nat)
    requires p <= k
    ensures HasAccel(run, p, k + 1) <==> HasAccel(run, p, k) || IsAccel(run, k)
    ensures HasQuat(run, p, k + 1) <==> HasQuat(run, p, k) || IsQuat(run, k)
    ensures !HasAccel(run, k, k) && !HasQuat(run, k, k)
  {
    hide IsAccel, IsQuat;
  }

  /** The flags say which kinds of event arrived since the last emission or reset. */
  lemma {:induction false} Flags(staleMs: nat, b: Board, run: Run, k: nat)
    requires Fresh(b) && k <= |run|
    ensures var p := Since(staleMs, b, run, k); var s := BoardAt(staleMs, b, run, k).imu;
      && (s.haveAccel <==> HasAccel(run, p, k))
      && (s.haveQuat <==> HasQuat(run, p, k))
      && !(s.haveAccel && s.haveQuat)
    decreases k
  {
    hide HasAccel, HasQuat, Emitted, Happen;
    if k == 0 {
      HasStep(run, 0, 0);
    } else {
      Flags(staleMs, b, run, k - 1);
      FlagsAfter(staleMs, b, run, k - 1);
      HasStep(run, Since(staleMs, b, run, k - 1), k - 1);
      HasStep(run, k - 1, k - 1);
      HasStep(run, k, k);
    }
  }

  /** A pass emits exactly when both kinds of event arrived since the last emission or reset. */
  lemma EmitsIffBoth(staleMs: nat, b: Board, run: Run, k: nat)
    requires Fresh(b) && k < |run| && run[k].LoopPass?
    ensures var p := Window(staleMs, b, run, k);
      Emitted(staleMs, b, run, k).Some? <==> HasAccel(run, p, k + 1) && HasQuat(run, p, k + 1)
  {
    hide BoardAt, Since, HasAccel, HasQuat, Emitted;
    Flags(staleMs, b, run, k);
    FlagsAfter(staleMs, b, run, k);
    HasStep(run, Since(staleMs, b, run, k), k);
    HasStep(run, k, k);
  }

  // ----- what they contain -----

  /** `a` is the last pass before `k` that reads an accelerometer event. */
  predicate LatestAccel(run: Run, a: nat, k: nat) {
    a < k <= |run| && IsAccel(run, a) && forall j :: a < j < k ==> !IsAccel(run, j)
  }

  predicate LatestQuat(run: Run, a: nat, k: nat) {
    a < k <= |run| && IsQuat(run, a) && forall j :: a < j < k ==> !IsQuat(run, j)
  }

  /** What one read does to the accelerations and the rotation. */
  lemma ReadKeeps(s: State, r: Reading, staleMs: nat)
    ensures var (s', sample) := ReadStep(s, r, staleMs);
      && s'.sample.accel == (if r.event.Accelerometer? then r.event.accel else s.sample.accel)
      && s'.sample.quat == (if r.event.RotationVector? then r.event.quat else s.sample.quat)
      && (sample.Some? ==> sample.value == s'.sample)
  {
  }

  lemma {:induction false} AccelIsLatest(staleMs: nat, b: Board, run: Run, k: nat, a: nat)
    requires LatestAccel(run, a, k)
    ensures BoardAt(staleMs, b, run, k).imu.sample.accel == run[a].pass.reading.event.accel
    decreases k
  {
    hide BoardAt, ImuAt, ReadStep;
    var i := k - 1;
    ImuAfter(staleMs, b, run, i);
    if run[i].LoopPass? {
      ReadKeeps(ImuAt(staleMs, b, run, i), run[i].pass.reading, staleMs);
    }
    if a == i {
    } else {
      assert !IsAccel(run, i);
      AccelIsLatest(staleMs, b, run, i, a);
    }
  }

  lemma {:induction false} QuatIsLatest(staleMs: nat, b: Board, run: Run, k: nat, a: nat)
    requires LatestQuat(run, a, k)
    ensures BoardAt(staleMs, b, run, k).imu.sample.quat == run[a].pass.reading.event.quat
    decreases k
  {
    hide BoardAt, ImuAt, ReadStep;
    var i := k - 1;
    ImuAfter(staleMs, b, run, i);
    if run[i].LoopPass? {
      ReadKeeps(ImuAt(staleMs, b, run, i), run[i].pass.reading, staleMs);
    }
    if a == i {
    } else {
      assert !IsQuat(run, i);
      QuatIsLatest(staleMs, b, run, i, a);
    }
  }

  lemma {:induction false} LastAccelExists(run: Run, p: nat, k: nat) returns (a: nat)
    requires k <= |run| && HasAccel(run, p, k)
    ensures p <= a && LatestAccel(run, a, k)
    decreases k
  {
    hide IsAccel;
    if IsAccel(run, k - 1) {
      a := k - 1;
    } else {
      a := LastAccelExists(run, p, k - 1);
    }
  }

  lemma {:induction false} LastQuatExists(run: Run, p: nat, k: nat) returns (a: nat)
    requires k <= |run| && HasQuat(run, p, k)
    ensures p <= a && LatestQuat(run, a, k)
    decreases k
  {
    hide IsQuat;
    if IsQuat(run, k - 1) {
      a := k - 1;
    } else {
      a := LastQuatExists(run, p, k - 1);
    }
  }

  lemma EmittedIsState(staleMs: nat, b: Board, run: Run, k: nat)
    requires k < |run| && Emitted(staleMs, b, run, k).Some?
    ensures Emitted(staleMs, b, run, k).value == BoardAt(staleMs, b, run, k + 1).imu.sample
  {
    hide BoardAt, ImuAt, ReadStep;
    ImuAfter(staleMs, b, run, k);
    ReadKeeps(ImuAt(staleMs, b, run, k), run[k].pass.reading, staleMs);
  }

  /** The sample emitted carries the latest event of each kind, both newer than the previous
      emission and the last reset. */
  lemma SampleContents(staleMs: nat, b: Board, run: Run, k: nat) returns (a: nat, q: nat)
    requires Fresh(b) && k < |run| && Emitted(staleMs, b, run, k).Some?
    ensures var p := Window(staleMs, b, run, k); var sample := Emitted(staleMs, b, run, k).value;
      && p <= a && LatestAccel(run, a, k + 1) && sample.accel == run[a].pass.reading.event.accel
      && p <= q && LatestQuat(run, q, k + 1) && sample.quat == run[q].pass.reading.event.quat
  {
    hide BoardAt, Emitted, Window, HasAccel, HasQuat;
    EmitsIffBoth(staleMs, b, run, k);
    EmittedIsState(staleMs, b, run, k);
    var p := Window(staleMs, b, run, k);
    a := LastAccelExists(run, p, k + 1);
    q := LastQuatExists(run, p, k + 1);
    AccelIsLatest(staleMs, b, run, k + 1, a);
    QuatIsLatest(staleMs, b, run, k + 1, q);
  }

  // ----- pairing is greedy, and greedy is best -----

  /** A stretch of consecutive happenings. */
  datatype Stretch = Stretch(from: nat, to: nat)

  predicate NoReset(run: Run, i: nat, j: nat) {
    forall r :: i < r < j ==> !IsReset(run, r)
  }

  /** A stretch from which a sample could be made: it sees both kinds of event, and no reset
      separates its happenings. */
  predicate Complete(run: Run, w: Stretch) {
    && w.from <= w.to <= |run|
    && HasAccel(run, w.from, w.to) && HasQuat(run, w.from, w.to) && NoReset(run, w.from, w.to)
  }

  /** Disjoint complete stretches, in order, all within the first `k` happenings. */
  predicate Packing(run: Run, ws: seq<Stretch>, k: nat)
    decreases |ws|
  {
    if ws == [] then true
    else
      var w := ws[|ws| - 1];
      Complete(run, w) && w.to <= k && Packing(run, ws[..|ws| - 1], w.from)
  }

  lemma {:induction false} EmissionsGrow(staleMs: nat, b: Board, run: Run, i: nat, j: nat)
    requires i <= j <= |run|
    ensures Emissions(staleMs, b, run, i) <= Emissions(staleMs, b, run, j)
    decreases j
  {
    hide Emitted;
    if i == j {
    } else {
      EmissionsGrow(staleMs, b, run, i, j - 1);
    }
  }

  lemma {:induction false} QuietSince(staleMs: nat, b: Board, run: Run, i: nat, j: nat)
    requires i <= j <= |run| && NoReset(run, i, j)
    ensures Emissions(staleMs, b, run, i) == Emissions(staleMs, b, run, j) ==> Since(staleMs, b, run, j) <= i
    decreases j
  {
    hide Emitted, IsReset;
    if i == j {
    } else {
      EmissionsGrow(staleMs, b, run, i, j - 1);
      QuietSince(staleMs, b, run, i, j - 1);
    }
  }

  lemma {:induction false} NoResetSince(staleMs: nat, b: Board, run: Run, k: nat)
    requires k <= |run|
    ensures NoReset(run, Since(staleMs, b, run, k), k)
    decreases k
  {
    hide Emitted, IsReset;
    if k == 0 {
    } else {
      NoResetSince(staleMs, b, run, k - 1);
    }
  }

  lemma HasMore(run: Run, p: nat, i: nat, j: nat)
    ensures p <= i && HasAccel(run, i, j) ==> HasAccel(run, p, j)
    ensures p <= i && HasQuat(run, i, j) ==> HasQuat(run, p, j)
  {
  }

  /** No complete stretch passes without an emission. */
  lemma StretchEmits(staleMs: nat, b: Board, run: Run, w: Stretch)
    requires Fresh(b) && Complete(run, w)
    ensures Emissions(staleMs, b, run, w.from) < Emissions(staleMs, b, run, w.to)
  {
    hide BoardAt, Emitted, Emissions, Since, HasAccel, HasQuat, NoReset;
    EmissionsGrow(staleMs, b, run, w.from, w.to);
    QuietSince(staleMs, b, run, w.from, w.to);
    Flags(staleMs, b, run, w.to);
    HasMore(run, Since(staleMs, b, run, w.to), w.from, w.to);
  }

  /** No way of pairing events can do better than the firmware does. */
  lemma {:induction false} NoBetterPacking(staleMs: nat, b: Board, run: Run, ws: seq<Stretch>, k: nat)
    requires Fresh(b) && k <= |run| && Packing(run, ws, k)
    ensures |ws| <= Emissions(staleMs, b, run, k)
    decreases |ws|
  {
    if ws == [] {
    } else {
      var w := ws[|ws| - 1];
      NoBetterPacking(staleMs, b, run, ws[..|ws| - 1], w.from);
      StretchEmits(staleMs, b, run, w);
      EmissionsGrow(staleMs, b, run, w.to, k);
    }
  }

  /** The stretches between emissions form a packing of that size. */
  lemma {:induction false} EmissionsPack(staleMs: nat, b: Board, run: Run, k: nat) returns (ws: seq<Stretch>)
    requires Fresh(b) && k <= |run|
    ensures |ws| == Emissions(staleMs, b, run, k)
    ensures Packing(run, ws, Since(staleMs, b, run, k))
    decreases k
  {
    hide Emitted, HasAccel, HasQuat, NoReset, IsReset;
    if k == 0 {
      ws := [];
    } else {
      ws := EmissionsPack(staleMs, b, run, k - 1);
      if Emitted(staleMs, b, run, k - 1).Some? {
        var p := Window(staleMs, b, run, k - 1);
        EmitsIffBoth(staleMs, b, run, k - 1);
        NoResetWindow(staleMs, b, run, k - 1);
        assert (ws + [Stretch(p, k)])[..|ws|] == ws;
        ws := ws + [Stretch(p, k)];
      }
    }
  }

  lemma NoResetWindow(staleMs: nat, b: Board, run: Run, k: nat)
    requires k < |run|
    ensures NoReset(run, Window(staleMs, b, run, k), k + 1)
  {
    hide Since;
    NoResetSince(staleMs, b, run, k);
  }

  /** In every run, the number of samples sent is the largest number of disjoint stretches of the run
      that each contain both kinds of event with no reset in between. */
  lemma GreedyIsOptimal(staleMs: nat, b: Board, run: Run)
    requires Fresh(b)
    ensures exists ws :: Packing(run, ws, |run|) && |ws| == Emissions(staleMs, b, run, |run|)
    ensures forall ws :: Packing(run, ws, |run|) ==> |ws| <= Emissions(staleMs, b, run, |run|)
  {
    hide Emissions, Since;
    var ws := EmissionsPack(staleMs, b, run, |run|);
    assert Packing(run, ws, |run|);
    forall ws | Packing(run, ws, |run|)
      ensures |ws| <= Emissions(staleMs, b, run, |run|)
    {
      NoBetterPacking(staleMs, b, run, ws, |run|);
    }
  }
}

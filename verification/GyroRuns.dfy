/** How old the gyroscope readings are that runs of the firmware's main loop report. */
module GyroRuns {
  import opened Base
  import opened Commands
  import opened Imu
  import opened Firmware
  import opened FirmwareRuns
  import opened ImuRuns

  predicate IsGyro(run: Run, i: nat) {
    i < |run| && run[i].LoopPass? && run[i].pass.reading.event.Gyroscope?
  }

  /** `g` is the last pass before `k` that reads a gyroscope event. */
  predicate LatestGyro(run: Run, g: nat, k: nat) {
    g < k <= |run| && IsGyro(run, g) && forall j :: g < j < k ==> !IsGyro(run, j)
  }

  /** The IMU is found reset in a pass after `g`, up to pass `i`. */
  predicate ResetIn(run: Run, g: nat, i: nat) {
    exists j :: g < j <= i && IsReset(run, j)
  }

  /** The time stamp that pass `i` finds for the event of pass `g`; a reset sets it to zero. */
  function Shown(run: Run, g: nat, i: nat): nat
    requires IsGyro(run, g)
  {
    if ResetIn(run, g, i) then 0 else Millis(run[g].pass.reading.stamp)
  }

  /** Pass `i` emits a sample and finds the event of pass `g` stale. */
  predicate Zeroes(staleMs: nat, b: Board, run: Run, g: nat, i: nat) {
    && IsGyro(run, g) && g <= i < |run| && run[i].LoopPass? && Emitted(staleMs, b, run, i).Some?
    && Sub32(Millis(run[i].pass.reading.now), Shown(run, g, i)) > staleMs
  }

  predicate ZeroedBefore(staleMs: nat, b: Board, run: Run, g: nat, k: nat) {
    exists i :: g <= i < k && Zeroes(staleMs, b, run, g, i)
  }

  /** What one read does to the gyroscope fields. */
  lemma GyroStep(s: State, r: Reading, staleMs: nat)
    ensures var (s', sample) := ReadStep(s, r, staleMs);
      var stamp := if r.event.Gyroscope? then Millis(r.stamp) else s.lastGyroMs;
      var gyro := if r.event.Gyroscope? then r.event.gyro else s.sample.gyro;
      && s'.lastGyroMs == stamp
      && s'.sample.gyro == (if sample.Some? && Sub32(Millis(r.now), stamp) > staleMs then ZERO3 else gyro)
      && (sample.Some? ==> sample.value == s'.sample)
  {
  }

  lemma ResetStep(run: Run, g: nat, i: nat)
    requires g < i < |run|
    ensures ResetIn(run, g, i) <==> ResetIn(run, g, i - 1) || IsReset(run, i)
    ensures !ResetIn(run, g, g)
  {
  }

  lemma ZeroedStep(staleMs: nat, b: Board, run: Run, g: nat, k: nat)
    requires g < k
    ensures ZeroedBefore(staleMs, b, run, g, k) <==>
      ZeroedBefore(staleMs, b, run, g, k - 1) || Zeroes(staleMs, b, run, g, k - 1)
  {
    hide Zeroes;
  }

  /** In every run, with IMU resets and all, the latest gyroscope reading stands until an emission
      finds it stale by the stamp it then has; from then on zeros are reported until the next
      gyroscope event, however the clock wraps. */
  lemma {:induction false} GyroReported(staleMs: nat, b: Board, run: Run, k: nat, g: nat)
    requires LatestGyro(run, g, k)
    ensures BoardAt(staleMs, b, run, k).imu.lastGyroMs == Shown(run, g, k - 1)
    ensures BoardAt(staleMs, b, run, k).imu.sample.gyro ==
      if ZeroedBefore(staleMs, b, run, g, k) then ZERO3 else run[g].pass.reading.event.gyro
    ensures Emitted(staleMs, b, run, k - 1).Some? ==>
      Emitted(staleMs, b, run, k - 1).value == BoardAt(staleMs, b, run, k).imu.sample
    decreases k
  {
    hide BoardAt, ImuAt, ReadStep, ResetIn, ZeroedBefore, Sub32, Millis;
    var i := k - 1;
    ImuAfter(staleMs, b, run, i);
    ZeroedStep(staleMs, b, run, g, k);
    if run[i].LoopPass? {
      GyroStep(ImuAt(staleMs, b, run, i), run[i].pass.reading, staleMs);
    }
    if g == i {
      NothingBefore(staleMs, b, run, g);
    } else {
      assert !IsGyro(run, i);
      GyroReported(staleMs, b, run, i, g);
      ResetStep(run, g, i);
    }
  }

  lemma NothingBefore(staleMs: nat, b: Board, run: Run, g: nat)
    ensures !ZeroedBefore(staleMs, b, run, g, g) && !ResetIn(run, g, g)
  {
  }

  // ----- true ages -----

  /** Reads happen in order, and each looks at the clock after taking the event. */
  predicate ReadsTimed(run: Run) {
    && (forall i :: 0 <= i < |run| && run[i].LoopPass? ==> run[i].pass.reading.stamp <= run[i].pass.reading.now)
    && (forall i, j :: 0 <= i < j < |run| && run[i].LoopPass? && run[j].LoopPass? ==>
          run[i].pass.reading.now <= run[j].pass.reading.stamp)
  }

  /** Recovering from a reset takes `configure` at least its delay, before the pass reads the sensor. */
  predicate Delayed(run: Run) {
    forall i, j :: 0 <= i < j < |run| && IsReset(run, j) && run[i].LoopPass? ==>
      run[i].pass.reading.now + CONFIGURE_DELAY_MS <= run[j].pass.reading.stamp
  }

  /** How old the event of pass `g` is in truth when pass `i` checks it. */
  function TrueAge(run: Run, g: nat, i: nat): int
    requires IsGyro(run, g) && i < |run| && run[i].LoopPass?
  {
    run[i].pass.reading.now - run[g].pass.reading.stamp
  }

  /** Pass `i` cannot see that the event of pass `g` is too old: the IMU was reset since the event
      and the clock wrapped at most `staleMs` ago, or the IMU was not reset and the event is at most
      `staleMs` old, give or take whole wraps of the clock. */
  predicate Blind(staleMs: nat, run: Run, g: nat, i: nat)
    requires IsGyro(run, g) && i < |run| && run[i].LoopPass?
  {
    if ResetIn(run, g, i) then run[i].pass.reading.now % MILLIS_WRAP <= staleMs
    else TrueAge(run, g, i) % MILLIS_WRAP <= staleMs
  }

  lemma BlindIffNotZeroing(staleMs: nat, b: Board, run: Run, g: nat, i: nat)
    requires ReadsTimed(run) && IsGyro(run, g) && g <= i < |run| && Emitted(staleMs, b, run, i).Some?
    ensures TrueAge(run, g, i) >= 0
    ensures Zeroes(staleMs, b, run, g, i) <==> !Blind(staleMs, run, g, i)
  {
    hide ImuAt, ReadStep, ResetIn;
    assert run[g].pass.reading.stamp <= run[i].pass.reading.now;
    ElapsedWraps(run[g].pass.reading.stamp, run[i].pass.reading.now);
    ElapsedWraps(0, run[i].pass.reading.now);
  }

  /** Every sample sent while the event of pass `g` was the latest was sent by a blind pass. */
  ghost predicate AllBlind(staleMs: nat, b: Board, run: Run, g: nat, k: nat)
    requires IsGyro(run, g) && k < |run|
  {
    forall i :: g <= i <= k && Emitted(staleMs, b, run, i).Some? ==> Blind(staleMs, run, g, i)
  }

  /** A sample carries the rates of the latest gyroscope event exactly if this pass and all passes
      that sent a sample since the event were blind to its age; otherwise it carries zeros. */
  lemma GyroEmitted(staleMs: nat, b: Board, run: Run, k: nat, g: nat)
    requires ReadsTimed(run) && k < |run| && LatestGyro(run, g, k + 1) && Emitted(staleMs, b, run, k).Some?
    ensures Emitted(staleMs, b, run, k).value.gyro ==
      if AllBlind(staleMs, b, run, g, k) then run[g].pass.reading.event.gyro else ZERO3
  {
    hide Emitted, BoardAt, ResetIn, Blind, Zeroes, ReadsTimed;
    GyroReported(staleMs, b, run, k + 1, g);
    forall i | g <= i <= k && Emitted(staleMs, b, run, i).Some?
      ensures Zeroes(staleMs, b, run, g, i) <==> !Blind(staleMs, run, g, i)
    {
      BlindIffNotZeroing(staleMs, b, run, g, i);
    }
    ZeroingEmits(staleMs, b, run, g);
  }

  lemma ZeroingEmits(staleMs: nat, b: Board, run: Run, g: nat)
    ensures forall i :: 0 <= i < |run| && Zeroes(staleMs, b, run, g, i) ==> Emitted(staleMs, b, run, i).Some?
  {
    hide Emitted;
  }

  /** When a reading older than the limit is passed off as current: exactly if all passes since it
      that sent a sample were blind. Then either the IMU was reset and the clock has just wrapped,
      or the reading is at least one wrap of the clock old. */
  lemma OldReadingShown(staleMs: nat, b: Board, run: Run, k: nat, g: nat)
    requires ReadsTimed(run) && k < |run| && LatestGyro(run, g, k + 1) && Emitted(staleMs, b, run, k).Some?
    requires TrueAge(run, g, k) > staleMs && run[g].pass.reading.event.gyro != ZERO3
    ensures Emitted(staleMs, b, run, k).value.gyro != ZERO3 <==> AllBlind(staleMs, b, run, g, k)
    ensures Emitted(staleMs, b, run, k).value.gyro != ZERO3 ==>
      if ResetIn(run, g, k) then run[k].pass.reading.now % MILLIS_WRAP <= staleMs
      else TrueAge(run, g, k) >= MILLIS_WRAP
  {
    hide Emitted, ResetIn;
    GyroEmitted(staleMs, b, run, k, g);
  }

  /** When a reading within the limit is suppressed: exactly if a pass since it sent a sample behind
      a reset of the IMU, later than the limit behind the last wrap of the clock. The reading is then
      as old as the delay of `configure`; with a limit of that length, neither older nor younger. */
  lemma FreshReadingSuppressed(staleMs: nat, b: Board, run: Run, k: nat, g: nat)
    requires ReadsTimed(run) && Delayed(run)
    requires k < |run| && LatestGyro(run, g, k + 1) && Emitted(staleMs, b, run, k).Some?
    requires TrueAge(run, g, k) <= staleMs && run[g].pass.reading.event.gyro != ZERO3
    ensures Emitted(staleMs, b, run, k).value.gyro == ZERO3 <==>
      exists i :: g <= i <= k && Emitted(staleMs, b, run, i).Some? && ResetIn(run, g, i) &&
        run[i].pass.reading.now % MILLIS_WRAP > staleMs
    ensures Emitted(staleMs, b, run, k).value.gyro == ZERO3 ==> CONFIGURE_DELAY_MS <= TrueAge(run, g, k)
  {
    hide Emitted, ResetIn, Delayed;
    GyroEmitted(staleMs, b, run, k, g);
    forall i | g <= i <= k && Emitted(staleMs, b, run, i).Some?
      ensures !ResetIn(run, g, i) ==> Blind(staleMs, run, g, i)
      ensures ResetIn(run, g, i) ==> CONFIGURE_DELAY_MS <= TrueAge(run, g, k)
    {
      SmallAge(run, g, i, k);
      Remainder(TrueAge(run, g, i));
      ResetAge(run, g, i);
    }
  }

  /** A reading from before a reset is at least as old as the delay. */
  lemma ResetAge(run: Run, g: nat, i: nat)
    requires ReadsTimed(run) && Delayed(run) && IsGyro(run, g) && i < |run| && run[i].LoopPass?
    ensures ResetIn(run, g, i) ==> TrueAge(run, g, i) >= CONFIGURE_DELAY_MS
  {
    if ResetIn(run, g, i) {
      var j :| g < j <= i && IsReset(run, j);
      assert run[g].pass.reading.now + CONFIGURE_DELAY_MS <= run[j].pass.reading.stamp;
      assert run[j].pass.reading.stamp <= run[i].pass.reading.now;
    }
  }

  lemma SmallAge(run: Run, g: nat, i: nat, k: nat)
    requires ReadsTimed(run) && IsGyro(run, g) && g <= i <= k < |run| && run[i].LoopPass? && run[k].LoopPass?
    ensures 0 <= TrueAge(run, g, i) <= TrueAge(run, g, k)
  {
    assert i < k ==> run[i].pass.reading.now <= run[k].pass.reading.stamp;
    assert g < i ==> run[g].pass.reading.now <= run[i].pass.reading.stamp;
  }

  lemma Remainder(n: int)
    requires n >= 0
    ensures 0 <= n % MILLIS_WRAP <= n
  {
  }

  /** A sample carries the latest gyroscope event's rates exactly while its true age is within the
      limit: for events younger than the delay of `configure` in every run, resets included, and for
      older ones without a reset since, up to one wrap of the clock. */
  lemma GyroAge(staleMs: nat, b: Board, run: Run, k: nat, g: nat)
    requires ReadsTimed(run) && Delayed(run)
    requires k < |run| && LatestGyro(run, g, k + 1) && Emitted(staleMs, b, run, k).Some?
    requires TrueAge(run, g, k) < CONFIGURE_DELAY_MS || (!ResetIn(run, g, k) && TrueAge(run, g, k) < MILLIS_WRAP)
    ensures Emitted(staleMs, b, run, k).value.gyro ==
      if TrueAge(run, g, k) <= staleMs then run[g].pass.reading.event.gyro else ZERO3
  {
    hide Emitted, Delayed;
    GyroEmitted(staleMs, b, run, k, g);
    ResetAge(run, g, k);
    forall i | g <= i <= k && Emitted(staleMs, b, run, i).Some?
      ensures 0 <= TrueAge(run, g, i) <= TrueAge(run, g, k) && !ResetIn(run, g, i)
    {
      SmallAge(run, g, i, k);
    }
  }

  // ----- what a reset can do -----

  /** A gyroscope event, then a pass that finds the IMU reset and reads an accelerometer event, then
      one that reads a rotation vector. */
  function ResetRun(gyro: Vec3, at: nat, second: nat, third: nat, p: Pass): Run {
    var quiet := p.(wasReset := false);
    [LoopPass(quiet.(reading := Reading(Gyroscope(gyro, 0), at, at))),
     LoopPass(p.(wasReset := true, reading := Reading(Accelerometer(ZERO3, 0), second, second))),
     LoopPass(quiet.(reading := Reading(RotationVector(Quat(0, 0, 0, 0), 0, 0), third, third)))]
  }

  lemma ResetRunSends(staleMs: nat, gyro: Vec3, at: nat, second: nat, third: nat, p: Pass, b: Board)
    requires at + CONFIGURE_DELAY_MS <= second <= third && !b.imu.haveAccel && !b.imu.haveQuat
    ensures var run := ResetRun(gyro, at, second, third, p);
      && ReadsTimed(run) && Delayed(run) && LatestGyro(run, 0, 3) && ResetIn(run, 0, 2)
      && TrueAge(run, 0, 2) == third - at && Emitted(staleMs, b, run, 2).Some?
      && Emitted(staleMs, b, run, 2).value.gyro == if third % MILLIS_WRAP <= staleMs then gyro else ZERO3
  {
    hide Emitted, Happen;
    var run := ResetRun(gyro, at, second, third, p);
    assert IsReset(run, 1);
    assert ResetIn(run, 0, 2);
    FlagsAfter(staleMs, b, run, 0);
    FlagsAfter(staleMs, b, run, 1);
    FlagsAfter(staleMs, b, run, 2);
    GyroEmitted(staleMs, b, run, 2, 0);
  }

  /** A reset found just before the clock wraps: with the first event read 11 ms behind the wrap and
      a rotation vector 4 ms later, the sample sent carries the gyroscope reading, however old. */
  lemma ResetHidesAge(gyro: Vec3, at: nat, p: Pass, b: Board)
    requires at <= MILLIS_WRAP - 100 && !b.imu.haveAccel && !b.imu.haveQuat
    ensures var run := ResetRun(gyro, at, MILLIS_WRAP + 11, MILLIS_WRAP + 15, p);
      && ReadsTimed(run) && Delayed(run) && LatestGyro(run, 0, 3) && TrueAge(run, 0, 2) > 100
      && Emitted(100, b, run, 2).Some? && Emitted(100, b, run, 2).value.gyro == gyro
  {
    hide Emitted, ReadsTimed, Delayed;
    ResetRunSends(100, gyro, at, MILLIS_WRAP + 11, MILLIS_WRAP + 15, p, b);
  }

  /** A reset at any other time: a reading within the limit, but as old as the delay, is suppressed.
      At the limit of 100 ms in use that is an age of exactly 100 ms. */
  lemma ResetSuppresses(staleMs: nat, gyro: Vec3, at: nat, age: nat, p: Pass, b: Board)
    requires CONFIGURE_DELAY_MS <= age <= staleMs < (at + age) % MILLIS_WRAP
    requires !b.imu.haveAccel && !b.imu.haveQuat
    ensures var run := ResetRun(gyro, at, at + age, at + age, p);
      && ReadsTimed(run) && Delayed(run) && LatestGyro(run, 0, 3) && TrueAge(run, 0, 2) == age
      && Emitted(staleMs, b, run, 2).Some? && Emitted(staleMs, b, run, 2).value.gyro == ZERO3
  {
    hide Emitted, ReadsTimed, Delayed;
    ResetRunSends(staleMs, gyro, at, at + age, at + age, p, b);
  }
}

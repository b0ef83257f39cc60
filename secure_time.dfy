/**
 * Secure time over the SOTP store (pal_plat_time_sotp.c). Two store records
 * survive a reset: SAVED_TIME, the newest time worth keeping, and
 * LAST_TIME_BACK, the time most recently set backwards (or strongly). RAM
 * holds the last saved time and the device boot time, from which the current
 * time is the boot time plus the seconds since boot. The seconds since boot
 * are an input of every operation that reads the tick counter.
 *
 * Each operation is specified by a function from the old state to its status
 * and the new state; the class `Clock` performs it step by step and is proved
 * to agree with that function. All arithmetic is on `uint64_t`, so a
 * subtraction that would go below zero wraps around.
 */
module SecureTime {
  import opened Sotp

  /**
   * The build-time thresholds, in seconds: PAL_MIN_SEC_FROM_EPOCH,
   * PAL_LAST_SAVED_TIME_LATENCY_SEC, PAL_MINIMUM_SOTP_FORWARD_LATENCY_SEC,
   * PAL_MINIMUM_SOTP_BACKWARD_LATENCY_SEC, PAL_MINIMUM_STORAGE_LATENCY_SEC and
   * PAL_RATIO_SECONDS_PER_DAY.
   */
  datatype Thresholds = Thresholds(
    minSecFromEpoch: u64,
    lastSavedLatency: u64,
    forwardLatency: u64,
    backwardLatency: u64,
    storageLatency: u64,
    secondsPerDayRatio: u64)

  /** `a + b` on `uint64_t`. */
  function Add64(a: u64, b: u64): (r: u64)
    ensures r == if a + b < U64_LIMIT then a + b else a + b - U64_LIMIT
  {
    (a + b) % U64_LIMIT
  }

  /** `a - b` on `uint64_t`. */
  function Sub64(a: u64, b: u64): (r: u64)
    ensures r == if a >= b then a - b else a - b + U64_LIMIT
  {
    (a - b) % U64_LIMIT
  }

  /** What the module keeps: the store's records and the two RAM globals. */
  datatype TimeState = TimeState(records: map<RecordType, seq<byte>>, lastSaved: u64, boot: u64)

  /** A read of one eight-byte time record, as its callers see it. */
  datatype TimeRead = TimeRead(result: SotpResult, len: nat, value: u64)

  /**
   * `sotp_get(type, sizeof(uint64_t), &value, &actualLen)` into a zeroed
   * variable: the value is 0 unless the read succeeds, and a short record
   * fills only the low bytes.
   */
  function ReadTime(records: map<RecordType, seq<byte>>, faults: Faults,
                    t: RecordType): (rd: TimeRead)
    requires FaultsFail(faults)
  {
    var l := Find(records, faults, t, 8);
    TimeRead(l.result, |l.data|, if l.result == Success then LoadU64(l.data) else 0)
  }

  /** The status the first two arms of every read check yield, or success. */
  function ReadStatus(rd: TimeRead): (s: PalStatus)
    ensures s == PalSuccess <==> rd.result == NotFound || (rd.result == Success && rd.len == 8)
  {
    if IsFailure(rd.result) then ErrorTranslation(rd.result)
    else if rd.result == Success && rd.len != 8 then ReceivedLengthTooShort
    else PalSuccess
  }

  /** What a write of one time record yields. */
  datatype Written = Written(result: SotpResult, records: map<RecordType, seq<byte>>)

  /** `sotp_set(type, sizeof(uint64_t), &value)` */
  function WriteTime(records: map<RecordType, seq<byte>>, faults: Faults,
                     t: RecordType, v: u64): Written
  {
    if t in faults.onWrite then Written(faults.onWrite[t], records) else Written(Success, records[t := EncodeU64(v)])
  }

  /** A written time reads back as itself. */
  lemma WriteThenRead(records: map<RecordType, seq<byte>>, faults: Faults,
                      t: RecordType, v: u64)
    requires FaultsFail(faults) && t !in faults.onRead && t !in faults.onWrite
    ensures ReadTime(WriteTime(records, faults, t, v).records, faults, t) == TimeRead(Success, 8, v)
  {
    LoadEncodeU64(v);
  }

  // ---------------------------------------------------------------------------
  // The operations as functions of the old state
  // ---------------------------------------------------------------------------

  datatype Booted = Booted(status: PalStatus, boot: u64)

  /**
   * `pal_plat_osSetTime`: 0 clears the boot time, a time before
   * PAL_MIN_SEC_FROM_EPOCH is refused, any other time fixes the boot time so
   * that the current time reads as `seconds`.
   */
  function SetTimeSpec(boot: u64, seconds: u64, secFromBoot: u64, lim: Thresholds): (b: Booted)
    ensures b.status == PalSuccess || b.status == InvalidTime
    ensures b.status == InvalidTime <==> 0 < seconds < lim.minSecFromEpoch
    ensures b.status == InvalidTime ==> b.boot == boot
    ensures seconds == 0 ==> b.boot == 0
  {
    if seconds == 0 then Booted(PalSuccess, 0)
    else if seconds < lim.minSecFromEpoch then Booted(InvalidTime, boot)
    else Booted(PalSuccess, Sub64(seconds, secFromBoot))
  }

  /** The time `pal_plat_osGetTime` computes from a boot time. */
  function TimeFromBoot(boot: u64, secFromBoot: u64): u64 {
    if boot == 0 then 0 else Add64(boot, secFromBoot)
  }

  datatype Reading = Reading(time: u64, state: TimeState)

  /**
   * `pal_plat_osGetTime`: 0 while no time was set; otherwise the boot time
   * plus the seconds since boot, persisted as SAVED_TIME when it is more than
   * PAL_LAST_SAVED_TIME_LATENCY_SEC past the last saved time.
   */
  function GetTimeSpec(st: TimeState, faults: Faults, lim: Thresholds,
                       secFromBoot: u64): (r: Reading)
    requires FaultsFail(faults)
    ensures r.time == TimeFromBoot(st.boot, secFromBoot)
    ensures r.state.boot == st.boot
    ensures r.state.lastSaved >= st.lastSaved
    ensures r.state != st ==>
              && r.time > st.lastSaved && r.time - st.lastSaved > lim.lastSavedLatency
              && r.state == st.(records := st.records[SavedTime := EncodeU64(r.time)], lastSaved := r.time)
  {
    var cur := TimeFromBoot(st.boot, secFromBoot);
    if st.boot != 0 && cur > st.lastSaved && cur - st.lastSaved > lim.lastSavedLatency then
      var w := WriteTime(st.records, faults, SavedTime, cur);
      if w.result == Success then Reading(cur, st.(records := w.records, lastSaved := cur))
      else Reading(cur, st)
    else Reading(cur, st)
  }

  datatype Step = Step(status: PalStatus, state: TimeState)

  /**
   * `pal_plat_initTime`: reads both records (a failing read sets the status
   * but the start-up goes on), repairs SAVED_TIME when a reset interrupted a
   * backward set, and on success sets the time to the saved time (there is no
   * hardware RTC, so the RTC time is 0).
   */
  function InitTimeSpec(st: TimeState, faults: Faults, lim: Thresholds,
                        secFromBoot: u64): (s: Step)
    requires FaultsFail(faults)
  {
    var saved := ReadTime(st.records, faults, SavedTime);
    var back := ReadTime(st.records, faults, LastTimeBack);
    var status := if ReadStatus(back) != PalSuccess then ReadStatus(back) else ReadStatus(saved);
    var w := if back.value > saved.value then WriteTime(st.records, faults, SavedTime, back.value)
             else Written(Success, st.records);
    var status' := if w.result != Success then ErrorTranslation(w.result) else status;
    var latest := if back.value > saved.value then back.value else saved.value;
    var boot := if status' == PalSuccess then SetTimeSpec(st.boot, latest, secFromBoot, lim).boot else st.boot;
    Step(status', TimeState(w.records, latest, boot))
  }

  /** The forward-or-backward test of `pal_plat_osSetStrongTime`. */
  predicate StrongChange(newTime: u64, saved: u64, lim: Thresholds) {
    (newTime > saved && newTime - saved > lim.forwardLatency)
    || (newTime < saved && saved - newTime > lim.backwardLatency)
  }

  /**
   * `pal_plat_osSetStrongTime`: a time far enough from SAVED_TIME is written
   * to LAST_TIME_BACK and then to SAVED_TIME; on success the time is set.
   */
  function SetStrongTimeSpec(st: TimeState, faults: Faults, lim: Thresholds,
                             newTime: u64, secFromBoot: u64): (s: Step)
    requires FaultsFail(faults)
  {
    var saved := ReadTime(st.records, faults, SavedTime);
    if ReadStatus(saved) != PalSuccess then Step(ReadStatus(saved), st)
    else if StrongChange(newTime, saved.value, lim) then
      var w1 := WriteTime(st.records, faults, LastTimeBack, newTime);
      if w1.result != Success then Step(ErrorTranslation(w1.result), st)
      else
        var w2 := WriteTime(w1.records, faults, SavedTime, newTime);
        var st' := TimeState(w2.records, newTime, st.boot);
        if w2.result != Success then Step(ErrorTranslation(w2.result), st')
        else
          var b := SetTimeSpec(st.boot, newTime, secFromBoot, lim);
          Step(b.status, st'.(boot := b.boot))
    else
      var b := SetTimeSpec(st.boot, newTime, secFromBoot, lim);
      Step(b.status, st.(boot := b.boot))
  }

  /**
   * `pal_plat_setWeakTimeForward`: sets the time, then persists it when it is
   * more than the forward latency past the current time.
   */
  function WeakForwardSpec(st: TimeState, faults: Faults, lim: Thresholds,
                           newTime: u64, current: u64, secFromBoot: u64): (s: Step)
    requires FaultsFail(faults)
  {
    var b := SetTimeSpec(st.boot, newTime, secFromBoot, lim);
    var st1 := st.(boot := b.boot);
    if Sub64(newTime, current) > lim.forwardLatency && b.status == PalSuccess then
      var w := WriteTime(st1.records, faults, SavedTime, newTime);
      if w.result != Success then Step(ErrorTranslation(w.result), st1)
      else Step(PalSuccess, st1.(records := w.records, lastSaved := newTime))
    else Step(b.status, st1)
  }

  /** The test of `pal_plat_setWeakTimeBackward`: the allowed step back grows with the time since the last one. */
  predicate BackwardAllowed(newTime: u64, lastBack: u64, current: u64, lim: Thresholds)
    requires lim.secondsPerDayRatio > 0
  {
    newTime > lastBack && (newTime - lastBack) / lim.secondsPerDayRatio > Sub64(current, newTime)
  }

  /**
   * `pal_plat_setWeakTimeBackward`: a permitted step back is written to
   * LAST_TIME_BACK, then SAVED_TIME, and only then set as the time.
   */
  function WeakBackwardSpec(st: TimeState, faults: Faults, lim: Thresholds,
                            newTime: u64, current: u64, secFromBoot: u64): (s: Step)
    requires FaultsFail(faults) && lim.secondsPerDayRatio > 0
  {
    var back := ReadTime(st.records, faults, LastTimeBack);
    if ReadStatus(back) != PalSuccess then Step(ReadStatus(back), st)
    else if BackwardAllowed(newTime, back.value, current, lim) then
      var w1 := WriteTime(st.records, faults, LastTimeBack, newTime);
      if w1.result != Success then Step(ErrorTranslation(w1.result), st)
      else
        var w2 := WriteTime(w1.records, faults, SavedTime, newTime);
        if w2.result != Success then Step(ErrorTranslation(w2.result), st.(records := w1.records))
        else
          var b := SetTimeSpec(st.boot, newTime, secFromBoot, lim);
          Step(b.status, TimeState(w2.records, newTime, b.boot))
    else Step(PalSuccess, st)
  }

  /**
   * The last step of `pal_plat_osSetWeakTime`: SAVED_TIME is raised to the
   * new time when that is more than the storage latency ahead of it.
   */
  function WeakSaveSpec(st: TimeState, faults: Faults, lim: Thresholds,
                        newTime: u64): (s: Step)
    requires FaultsFail(faults)
  {
    var saved := ReadTime(st.records, faults, SavedTime);
    if ReadStatus(saved) != PalSuccess then Step(ReadStatus(saved), st)
    else if newTime > saved.value && newTime - saved.value > lim.storageLatency then
      var w := WriteTime(st.records, faults, SavedTime, newTime);
      if w.result != Success then Step(ErrorTranslation(w.result), st)
      else Step(PalSuccess, st.(records := w.records, lastSaved := newTime))
    else Step(PalSuccess, st)
  }

  /**
   * `pal_plat_osSetWeakTime`: reads the current time, moves forward or
   * backward when the new time differs from it, then raises SAVED_TIME.
   */
  function SetWeakTimeSpec(st: TimeState, faults: Faults, lim: Thresholds,
                           newTime: u64, secFromBoot: u64): (s: Step)
    requires FaultsFail(faults) && lim.secondsPerDayRatio > 0
  {
    var now := GetTimeSpec(st, faults, lim, secFromBoot);
    var moved :=
      if newTime > now.time then WeakForwardSpec(now.state, faults, lim, newTime, now.time, secFromBoot)
      else if now.time > newTime then WeakBackwardSpec(now.state, faults, lim, newTime, now.time, secFromBoot)
      else Step(PalSuccess, now.state);
    if moved.status == PalSuccess then WeakSaveSpec(moved.state, faults, lim, newTime) else moved
  }

  // ---------------------------------------------------------------------------
  // Properties of the operations
  // ---------------------------------------------------------------------------

  /**
   * Setting a time and reading it back at the same moment gives that time,
   * unless the time is refused, or equals the seconds since boot (the boot
   * time would then be 0, which means "never set").
   */
  lemma SetTimeThenGetTime(st: TimeState, faults: Faults, lim: Thresholds,
                           seconds: u64, secFromBoot: u64)
    requires FaultsFail(faults)
    requires seconds == 0 || (seconds >= lim.minSecFromEpoch && seconds != secFromBoot)
    ensures var b := SetTimeSpec(st.boot, seconds, secFromBoot, lim);
            b.status == PalSuccess && GetTimeSpec(st.(boot := b.boot), faults, lim, secFromBoot).time == seconds
  {
  }

  /** The one accepted time that does not read back. */
  lemma SetTimeAtBootCountReadsUnset(st: TimeState, faults: Faults, lim: Thresholds,
                                     seconds: u64)
    requires FaultsFail(faults)
    requires seconds != 0 && seconds >= lim.minSecFromEpoch
    ensures var b := SetTimeSpec(st.boot, seconds, seconds, lim);
            b.status == PalSuccess && GetTimeSpec(st.(boot := b.boot), faults, lim, seconds).time == 0
  {
  }

  /**
   * After start-up the last saved time is the later of the two records; when
   * LAST_TIME_BACK was the later one it has been copied to SAVED_TIME, so the
   * store reads consistently from then on.
   */
  lemma InitTimeTakesLatest(st: TimeState, faults: Faults, lim: Thresholds, secFromBoot: u64)
    requires FaultsFail(faults)
    ensures var saved := ReadTime(st.records, faults, SavedTime);
            var back := ReadTime(st.records, faults, LastTimeBack);
            var s := InitTimeSpec(st, faults, lim, secFromBoot);
            && s.state.lastSaved == (if back.value > saved.value then back.value else saved.value)
            && (back.value > saved.value && SavedTime !in faults.onRead && SavedTime !in faults.onWrite ==>
                  ReadTime(s.state.records, faults, SavedTime) == TimeRead(Success, 8, back.value))
            && (back.value <= saved.value ==> s.state.records == st.records)
            && (s.status == PalSuccess ==>
                  s.state.boot == SetTimeSpec(st.boot, s.state.lastSaved, secFromBoot, lim).boot)
            && (s.status != PalSuccess ==> s.state.boot == st.boot)
  {
    var saved := ReadTime(st.records, faults, SavedTime);
    var back := ReadTime(st.records, faults, LastTimeBack);
    if back.value > saved.value && SavedTime !in faults.onRead && SavedTime !in faults.onWrite {
      WriteThenRead(st.records, faults, SavedTime, back.value);
    }
  }

  /**
   * A strong set writes the store only when the new time is far enough from
   * SAVED_TIME, and never writes SAVED_TIME without first writing the same
   * time to LAST_TIME_BACK.
   */
  lemma StrongTimeWritesInOrder(st: TimeState, faults: Faults, lim: Thresholds,
                                newTime: u64, secFromBoot: u64)
    requires FaultsFail(faults)
    ensures var saved := ReadTime(st.records, faults, SavedTime);
            var s := SetStrongTimeSpec(st, faults, lim, newTime, secFromBoot);
            && (s.state.records != st.records ==>
                  ReadStatus(saved) == PalSuccess && StrongChange(newTime, saved.value, lim))
            && (s.state.records != st.records ==>
                  s.state.records[LastTimeBack] == EncodeU64(newTime))
            && (SavedTime in s.state.records && (SavedTime !in st.records || s.state.records[SavedTime] != st.records[SavedTime]) ==>
                  s.state.records == st.records[LastTimeBack := EncodeU64(newTime)][SavedTime := EncodeU64(newTime)])
            && (!StrongChange(newTime, saved.value, lim) ==> s.state.records == st.records && s.state.lastSaved == st.lastSaved)
  {
  }

  /**
   * A strong set whose first write fails reports the translated write error
   * and leaves the store and the RAM globals as they were, even though the
   * read before it succeeded.
   */
  lemma StrongWriteFailureReported(st: TimeState, faults: Faults, lim: Thresholds,
                                   newTime: u64, secFromBoot: u64)
    requires FaultsFail(faults)
    requires ReadStatus(ReadTime(st.records, faults, SavedTime)) == PalSuccess
    requires StrongChange(newTime, ReadTime(st.records, faults, SavedTime).value, lim)
    requires LastTimeBack in faults.onWrite
    ensures var s := SetStrongTimeSpec(st, faults, lim, newTime, secFromBoot);
            s.status == ErrorTranslation(faults.onWrite[LastTimeBack]) && s.status != PalSuccess && s.state == st
  {
  }

  /**
   * A weak step forward always sets the time; it writes the store only when
   * the step is more than the forward latency and the time was accepted, and
   * then it writes exactly SAVED_TIME, or reports the write error.
   */
  lemma WeakForwardSavesOnlyFarAhead(st: TimeState, faults: Faults, lim: Thresholds,
                                     newTime: u64, current: u64, secFromBoot: u64)
    requires FaultsFail(faults)
    ensures var b := SetTimeSpec(st.boot, newTime, secFromBoot, lim);
            var s := WeakForwardSpec(st, faults, lim, newTime, current, secFromBoot);
            && s.state.boot == b.boot
            && (s.state.records != st.records || s.state.lastSaved != st.lastSaved ==>
                  && Sub64(newTime, current) > lim.forwardLatency && b.status == PalSuccess
                  && s.status == PalSuccess && s.state.lastSaved == newTime
                  && s.state.records == st.records[SavedTime := EncodeU64(newTime)])
            && (Sub64(newTime, current) > lim.forwardLatency && b.status == PalSuccess ==>
                  (s.status == PalSuccess <==> SavedTime !in faults.onWrite))
            && (Sub64(newTime, current) <= lim.forwardLatency ==> s.status == b.status)
  {
  }

  /** A weak step back that the rate limit refuses changes nothing. */
  lemma WeakBackwardRefused(st: TimeState, faults: Faults, lim: Thresholds,
                            newTime: u64, current: u64, secFromBoot: u64)
    requires FaultsFail(faults) && lim.secondsPerDayRatio > 0
    requires !BackwardAllowed(newTime, ReadTime(st.records, faults, LastTimeBack).value, current, lim)
    ensures WeakBackwardSpec(st, faults, lim, newTime, current, secFromBoot).state == st
  {
  }

  /** A weak set to the current time neither moves the clock nor sets it. */
  lemma WeakTimeAtCurrentTime(st: TimeState, faults: Faults, lim: Thresholds,
                              secFromBoot: u64)
    requires FaultsFail(faults) && lim.secondsPerDayRatio > 0
    ensures var now := GetTimeSpec(st, faults, lim, secFromBoot);
            SetWeakTimeSpec(st, faults, lim, now.time, secFromBoot) == WeakSaveSpec(now.state, faults, lim, now.time)
            && SetWeakTimeSpec(st, faults, lim, now.time, secFromBoot).state.boot == st.boot
  {
  }

  /** The last step of a weak set only raises SAVED_TIME, and by more than the storage latency. */
  lemma WeakSaveOnlyRaises(st: TimeState, faults: Faults, lim: Thresholds, newTime: u64)
    requires FaultsFail(faults)
    ensures var saved := ReadTime(st.records, faults, SavedTime);
            var s := WeakSaveSpec(st, faults, lim, newTime);
            && (s.state != st ==>
                  && ReadStatus(saved) == PalSuccess
                  && newTime > saved.value && newTime - saved.value > lim.storageLatency
                  && ReadTime(s.state.records, faults, SavedTime) == TimeRead(Success, 8, newTime)
                  && s.state == st.(records := st.records[SavedTime := EncodeU64(newTime)], lastSaved := newTime))
            && s.state.boot == st.boot
  {
    var s := WeakSaveSpec(st, faults, lim, newTime);
    if s.state != st {
      WriteThenRead(st.records, faults, SavedTime, newTime);
    }
  }

  // ---------------------------------------------------------------------------
  // The module, step by step
  // ---------------------------------------------------------------------------

  class Clock {
    /** `g_lastSavedTimeInSec` */
    var lastSavedTimeInSec: u64
    /** `g_palDeviceBootTimeInSec` */
    var deviceBootTimeInSec: u64
    const store: Store
    const limits: Thresholds

    ghost predicate Valid()
      reads this, store
    {
      store.Valid() && limits.secondsPerDayRatio > 0
    }

    ghost function State(): TimeState
      reads this, store
    {
      TimeState(store.records, lastSavedTimeInSec, deviceBootTimeInSec)
    }

    /** Both globals start at zero. */
    constructor (store: Store, limits: Thresholds)
      requires store.Valid() && limits.secondsPerDayRatio > 0
      ensures Valid() && this.store == store && this.limits == limits
      ensures lastSavedTimeInSec == 0 && deviceBootTimeInSec == 0
    {
      this.store := store;
      this.limits := limits;
      lastSavedTimeInSec := 0;
      deviceBootTimeInSec := 0;
    }

    method ReadStored(t: RecordType) returns (rd: TimeRead)
      requires Valid()
      ensures rd == ReadTime(store.records, store.faults, t)
    {
      var l := store.Get(t, 8);
      var value: u64 := 0;
      if l.result == Success {
        value := LoadU64(l.data);
      }
      rd := TimeRead(l.result, |l.data|, value);
    }

    method WriteStored(t: RecordType, v: u64) returns (r: SotpResult)
      requires Valid()
      modifies store
      ensures Valid()
      ensures Written(r, store.records) == WriteTime(old(store.records), store.faults, t, v)
    {
      r := store.Set(t, EncodeU64(v));
    }

    /** `pal_plat_osSetTime` */
    method SetTime(seconds: u64, secFromBoot: u64) returns (status: PalStatus)
      requires Valid()
      modifies this
      ensures Valid()
      ensures Booted(status, deviceBootTimeInSec) == SetTimeSpec(old(deviceBootTimeInSec), seconds, secFromBoot, limits)
      ensures lastSavedTimeInSec == old(lastSavedTimeInSec)
    {
      status := PalSuccess;
      if seconds == 0 {
        deviceBootTimeInSec := 0;
      } else if seconds < limits.minSecFromEpoch {
        status := InvalidTime;
      } else {
        deviceBootTimeInSec := Sub64(seconds, secFromBoot);
      }
    }

    /** `pal_plat_osGetTime` */
    method GetTime(secFromBoot: u64) returns (time: u64)
      requires Valid()
      modifies this, store
      ensures Valid()
      ensures Reading(time, State()) == GetTimeSpec(old(State()), store.faults, limits, secFromBoot)
    {
      time := 0;
      if 0 < deviceBootTimeInSec {
        time := Add64(deviceBootTimeInSec, secFromBoot);
        if time > lastSavedTimeInSec && time - lastSavedTimeInSec > limits.lastSavedLatency {
          var r := WriteStored(SavedTime, time);
          if r == Success {
            lastSavedTimeInSec := time;
          }
        }
      }
    }

    /** `pal_plat_initTime` */
    method InitTime(secFromBoot: u64) returns (ret: PalStatus)
      requires Valid()
      modifies this, store
      ensures Valid()
      ensures Step(ret, State()) == InitTimeSpec(old(State()), store.faults, limits, secFromBoot)
    {
      ret := PalSuccess;
      var saved := ReadStored(SavedTime);
      if IsFailure(saved.result) {
        ret := ErrorTranslation(saved.result);
      } else if saved.len != 8 && saved.result != NotFound {
        ret := ReceivedLengthTooShort;
      }
      var back := ReadStored(LastTimeBack);
      if IsFailure(back.result) {
        ret := ErrorTranslation(back.result);
      } else if back.len != 8 && back.result != NotFound {
        ret := ReceivedLengthTooShort;
      }
      var savedTime := saved.value;
      if back.value > savedTime {
        var r := WriteStored(SavedTime, back.value);
        if r != Success {
          ret := ErrorTranslation(r);
        }
        savedTime := back.value;
      }
      lastSavedTimeInSec := savedTime;
      if ret == PalSuccess {
        var _ := SetTime(savedTime, secFromBoot);
      }
    }

    /** `pal_plat_osSetStrongTime` */
    method SetStrongTime(newTime: u64, secFromBoot: u64) returns (ret: PalStatus)
      requires Valid()
      modifies this, store
      ensures Valid()
      ensures Step(ret, State()) == SetStrongTimeSpec(old(State()), store.faults, limits, newTime, secFromBoot)
    {
      ret := PalSuccess;
      var saved := ReadStored(SavedTime);
      if IsFailure(saved.result) {
        ret := ErrorTranslation(saved.result);
      } else if saved.len != 8 && saved.result != NotFound {
        ret := ReceivedLengthTooShort;
      } else if StrongChange(newTime, saved.value, limits) {
        var r := WriteStored(LastTimeBack, newTime);
        if r != Success {
          ret := ErrorTranslation(r);
        } else {
          r := WriteStored(SavedTime, newTime);
          if r != Success {
            ret := ErrorTranslation(r);
          }
          lastSavedTimeInSec := newTime;
        }
      }
      if ret == PalSuccess {
        ret := SetTime(newTime, secFromBoot);
      }
    }

    /** `pal_plat_setWeakTimeForward` */
    method SetWeakTimeForward(newTime: u64, current: u64, secFromBoot: u64) returns (ret: PalStatus)
      requires Valid()
      modifies this, store
      ensures Valid()
      ensures Step(ret, State()) == WeakForwardSpec(old(State()), store.faults, limits, newTime, current, secFromBoot)
    {
      ret := SetTime(newTime, secFromBoot);
      if Sub64(newTime, current) > limits.forwardLatency && ret == PalSuccess {
        var r := WriteStored(SavedTime, newTime);
        if r != Success {
          ret := ErrorTranslation(r);
        } else {
          lastSavedTimeInSec := newTime;
        }
      }
    }

    /** `pal_plat_setWeakTimeBackward` */
    method SetWeakTimeBackward(newTime: u64, current: u64, secFromBoot: u64) returns (ret: PalStatus)
      requires Valid()
      modifies this, store
      ensures Valid()
      ensures Step(ret, State()) == WeakBackwardSpec(old(State()), store.faults, limits, newTime, current, secFromBoot)
    {
      ret := PalSuccess;
      var back := ReadStored(LastTimeBack);
      if IsFailure(back.result) {
        ret := ErrorTranslation(back.result);
      } else if back.len != 8 && back.result != NotFound {
        ret := ReceivedLengthTooShort;
      } else if newTime > back.value {
        if (newTime - back.value) / limits.secondsPerDayRatio > Sub64(current, newTime) {
          var r := WriteStored(LastTimeBack, newTime);
          if r != Success {
            ret := ErrorTranslation(r);
          } else {
            r := WriteStored(SavedTime, newTime);
            if r != Success {
              ret := ErrorTranslation(r);
            } else {
              lastSavedTimeInSec := newTime;
              ret := SetTime(newTime, secFromBoot);
            }
          }
        }
      }
    }

    /** `pal_plat_osSetWeakTime` */
    method SetWeakTime(newTime: u64, secFromBoot: u64) returns (ret: PalStatus)
      requires Valid()
      modifies this, store
      ensures Valid()
      ensures Step(ret, State()) == SetWeakTimeSpec(old(State()), store.faults, limits, newTime, secFromBoot)
    {
      ret := PalSuccess;
      var now := GetTime(secFromBoot);
      if newTime > now {
        ret := SetWeakTimeForward(newTime, now, secFromBoot);
      } else if now > newTime {
        ret := SetWeakTimeBackward(newTime, now, secFromBoot);
      }
      if ret == PalSuccess {
        var saved := ReadStored(SavedTime);
        if IsFailure(saved.result) {
          ret := ErrorTranslation(saved.result);
        } else if saved.len != 8 && saved.result != NotFound {
          ret := ReceivedLengthTooShort;
        } else if newTime > saved.value && newTime - saved.value > limits.storageLatency {
          var r := WriteStored(SavedTime, newTime);
          if r != Success {
            ret := ErrorTranslation(r);
          } else {
            lastSavedTimeInSec := newTime;
          }
        }
      }
    }
  }
}

/**
 * The secure one-time-programmable store (SOTP) as the PAL platform layer
 * sees it: typed records of bytes that can be read into a buffer of a given
 * size and overwritten, plus the translation of store results into PAL status
 * codes. pal_plat_time_sotp.c, pal_plat_drbg_sotp.c and pal_plat_rot_sotp.c
 * each carry an identical copy of that translation; it is defined once here.
 * The store's own implementation (sotp.c) is not part of this model: a store
 * either holds a record, lacks it, or answers every access to a record type
 * with a fixed failure.
 */
module Sotp {

  newtype byte = x: int | 0 <= x < 256

  const U64_LIMIT: int := 0x1_0000_0000_0000_0000

  /** `uint64_t` */
  type u64 = x: int | 0 <= x < U64_LIMIT

  /** The record types the platform files use. */
  datatype RecordType = SavedTime | LastTimeBack | RootOfTrust

  /** `sotp_result_e`; `Unlisted` stands for any value the switch does not name. */
  datatype SotpResult =
    | Success
    | NotFound
    | ReadError
    | BadValue
    | BuffTooSmall
    | BuffNotAligned
    | DataCorrupt
    | OsError
    | Unlisted(code: int)

  /** The `palStatus_t` values this model produces. */
  datatype PalStatus =
    | PalSuccess
    | InvalidArgument
    | BufferTooSmall
    | RtosBufferNotAligned
    | GenericFailure
    | ReceivedLengthTooShort
    | InvalidTime
    | NotInitialized
    | NoiseBufferFull
    | NoiseBufferIsReading
    | NoiseBufferEmpty
    | NoiseBufferNotFull
    | Foreign(code: int)

  /**
   * `pal_osSotpErrorTranslation`: three store failures have PAL counterparts,
   * everything else (including values it is never meant to see) is a generic
   * failure; no store result translates to success.
   */
  function ErrorTranslation(err: SotpResult): (r: PalStatus)
    ensures r != PalSuccess
    ensures r == InvalidArgument <==> err == BadValue
    ensures r == BufferTooSmall <==> err == BuffTooSmall
    ensures r == RtosBufferNotAligned <==> err == BuffNotAligned
    ensures r == GenericFailure <==> err !in {BadValue, BuffTooSmall, BuffNotAligned}
  {
    match err
    case BadValue => InvalidArgument
    case BuffTooSmall => BufferTooSmall
    case BuffNotAligned => RtosBufferNotAligned
    case _ => GenericFailure
  }

  /** A store answer that is neither success nor absence. */
  predicate IsFailure(r: SotpResult) {
    r != Success && r != NotFound
  }

  // ---------------------------------------------------------------------------
  // 64-bit values as they are stored: eight bytes, least significant first
  // ---------------------------------------------------------------------------

  function Pow256(n: nat): (p: nat)
    ensures p >= 1
  {
    if n == 0 then 1 else 256 * Pow256(n - 1)
  }

  /** The value of bytes copied over a zeroed little-endian integer. */
  function LittleEndian(bs: seq<byte>): nat
  {
    if bs == [] then 0 else bs[0] as int + 256 * LittleEndian(bs[1..])
  }

  lemma {:induction false} LittleEndianBound(bs: seq<byte>)
    ensures LittleEndian(bs) < Pow256(|bs|)
  {
    if bs != [] {
      LittleEndianBound(bs[1..]);
    }
  }

  function Encode(v: nat, n: nat): (bs: seq<byte>)
    ensures |bs| == n
  {
    if n == 0 then [] else [(v % 256) as byte] + Encode(v / 256, n - 1)
  }

  lemma {:induction false} DecodeEncode(v: nat, n: nat)
    requires v < Pow256(n)
    ensures LittleEndian(Encode(v, n)) == v
  {
    if n > 0 {
      DecodeEncode(v / 256, n - 1);
      assert Encode(v, n)[1..] == Encode(v / 256, n - 1);
    }
  }

  /** The eight bytes of a `uint64_t` in memory. */
  function EncodeU64(v: u64): seq<byte> {
    Encode(v, 8)
  }

  /**
   * A `uint64_t` that started as zero after a store read copied `bs` over it:
   * a short record only fills the low bytes.
   */
  function LoadU64(bs: seq<byte>): u64
    requires |bs| <= 8
  {
    LittleEndianBound(bs);
    assert Pow256(|bs|) <= Pow256(8) by { Pow256Mono(|bs|, 8); }
    assert Pow256(8) == U64_LIMIT;
    LittleEndian(bs)
  }

  lemma {:induction false} Pow256Mono(m: nat, n: nat)
    requires m <= n
    ensures Pow256(m) <= Pow256(n)
    decreases n
  {
    if m < n {
      Pow256Mono(m, n - 1);
    }
  }

  /** A stored time reads back as the same time. */
  lemma LoadEncodeU64(v: u64)
    ensures LoadU64(EncodeU64(v)) == v
  {
    assert Pow256(8) == U64_LIMIT;
    DecodeEncode(v, 8);
  }

  // ---------------------------------------------------------------------------
  // The store
  // ---------------------------------------------------------------------------

  /**
   * The failures a store is set up with, by record type: what every read of
   * that type returns, and what every write of it returns. A type may fail on
   * one and not the other.
   */
  datatype Faults = Faults(onRead: map<RecordType, SotpResult>, onWrite: map<RecordType, SotpResult>)

  /** Every configured fault is a failure. */
  predicate FaultsFail(faults: Faults) {
    && (forall t :: t in faults.onRead ==> IsFailure(faults.onRead[t]))
    && (forall t :: t in faults.onWrite ==> IsFailure(faults.onWrite[t]))
  }

  /** What a read of one record into a buffer of `size` bytes yields. */
  datatype Lookup = Lookup(result: SotpResult, data: seq<byte>)

  /** `sotp_get`. */
  function Find(records: map<RecordType, seq<byte>>, faults: Faults,
                t: RecordType, size: nat): (l: Lookup)
    requires FaultsFail(faults)
    ensures l.result == Success ==> t in records && l.data == records[t] && |l.data| <= size
    ensures l.result != Success ==> l.data == []
    ensures l.result == NotFound <==> t !in faults.onRead && t !in records
  {
    if t in faults.onRead then Lookup(faults.onRead[t], [])
    else if t !in records then Lookup(NotFound, [])
    else if |records[t]| > size then Lookup(BuffTooSmall, [])
    else Lookup(Success, records[t])
  }

  class Store {
    /** The records held, by type. */
    var records: map<RecordType, seq<byte>>
    /** Record types whose every read or every write fails, and how. */
    const faults: Faults

    ghost predicate Valid()
      reads this
    {
      FaultsFail(faults)
    }

    constructor (records: map<RecordType, seq<byte>>, faults: Faults)
      requires FaultsFail(faults)
      ensures Valid() && this.records == records && this.faults == faults
    {
      this.records := records;
      this.faults := faults;
    }

    /** `sotp_get(type, size, buffer, &actualLen)` */
    method Get(t: RecordType, size: nat) returns (l: Lookup)
      requires Valid()
      ensures l == Find(records, faults, t, size)
    {
      l := Find(records, faults, t, size);
    }

    /** `sotp_set(type, len, data)`: a record type whose writes fail keeps its contents. */
    method Set(t: RecordType, data: seq<byte>) returns (r: SotpResult)
      requires Valid()
      modifies this
      ensures Valid()
      ensures r == Success <==> t !in faults.onWrite
      ensures r != Success ==> r == faults.onWrite[t] && IsFailure(r) && records == old(records)
      ensures r == Success ==> records == old(records)[t := data]
    {
      if t in faults.onWrite {
        r := faults.onWrite[t];
      } else {
        records := records[t := data];
        r := Success;
      }
    }
  }
}

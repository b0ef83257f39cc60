/**
 * The software root of trust (pal_plat_rot_sotp.c): a key kept in the store
 * under the root-of-trust record type, generated from the random source the
 * first time it is asked for and read back on every later call.
 */
module RootOfTrust {
  import opened Sotp

  /**
   * What `pal_osRandomBuffer(key, keyLenBytes)` did: its status and, when it
   * succeeded, the bytes it wrote. The random source is outside this model;
   * each call is handed its outcome.
   */
  datatype Random = Random(status: PalStatus, bytes: seq<byte>)

  /** A random outcome fit for a key buffer of `n` bytes. */
  predicate Fits(random: Random, n: nat) {
    random.status == PalSuccess ==> |random.bytes| == n
  }

  /** Copying `data` to the start of `key`; the bytes after it are kept. */
  method Fill(key: array<byte>, data: seq<byte>)
    requires |data| <= key.Length
    modifies key
    ensures key[..|data|] == data && key[|data|..] == old(key[|data|..])
  {
    for i := 0 to |data|
      invariant key[..i] == data[..i] && key[i..] == old(key[i..])
    {
      key[i] := data[i];
    }
  }

  /**
   * `pal_plat_osGetRoT(key, keyLenBytes)`: reads the stored key into `key`;
   * when there is none, fills `key` from the random source and stores it.
   */
  method GetRoT(store: Store, key: array<byte>, random: Random) returns (status: PalStatus)
    requires store.Valid() && Fits(random, key.Length)
    modifies store, key
    ensures store.Valid()
    ensures var found := Find(old(store.records), store.faults, Sotp.RootOfTrust, key.Length);
            match found.result
            // a stored key is returned and nothing is written
            case Success =>
              && status == PalSuccess && store.records == old(store.records)
              && key[..|found.data|] == found.data && key[|found.data|..] == old(key[|found.data|..])
            // no key yet: a fresh random key is returned and stored
            case NotFound =>
              if random.status != PalSuccess then
                // the random failure shows as the translation of the store's "not found"
                && status == GenericFailure && store.records == old(store.records) && key[..] == old(key[..])
              else if Sotp.RootOfTrust in store.faults.onWrite then
                // the key holds the random bytes, but storing them failed
                && status == ErrorTranslation(store.faults.onWrite[Sotp.RootOfTrust]) && status != PalSuccess
                && key[..] == random.bytes && store.records == old(store.records)
              else
                && status == PalSuccess && key[..] == random.bytes
                && store.records == old(store.records)[Sotp.RootOfTrust := random.bytes]
            // any other store failure is translated
            case _ =>
              && status == ErrorTranslation(found.result) && status != PalSuccess
              && store.records == old(store.records) && key[..] == old(key[..])
  {
    status := PalSuccess;
    var found := store.Get(Sotp.RootOfTrust, key.Length);
    var sotpStatus := found.result;
    if sotpStatus == Success {
      Fill(key, found.data);
    }
    if sotpStatus == NotFound {
      if random.status == PalSuccess {
        Fill(key, random.bytes);
      }
      status := random.status;
      if status == PalSuccess {
        sotpStatus := store.Set(Sotp.RootOfTrust, key[..]);
      }
    }
    if sotpStatus != Success {
      status := ErrorTranslation(sotpStatus);
    }
  }

  /**
   * Get-or-create: once a call succeeds, a later call succeeds too and
   * returns the same key, whatever the random source then does.
   */
  method GetRoTTwice(store: Store, key1: array<byte>, key2: array<byte>, random1: Random, random2: Random)
    returns (status1: PalStatus, status2: PalStatus, ghost rot: seq<byte>)
    requires store.Valid() && key1 != key2 && key1.Length == key2.Length
    requires Fits(random1, key1.Length) && Fits(random2, key2.Length)
    modifies store, key1, key2
    ensures status1 == PalSuccess ==>
              && status2 == PalSuccess
              && Sotp.RootOfTrust in store.records && store.records[Sotp.RootOfTrust] == rot
              && |rot| <= key1.Length && key1[..|rot|] == rot && key2[..|rot|] == rot
  {
    status1 := GetRoT(store, key1, random1);
    rot := [];
    if status1 == PalSuccess {
      rot := store.records[Sotp.RootOfTrust];
    }
    ghost var held := key1[..];
    status2 := GetRoT(store, key2, random2);
    assert key1[..] == held;
  }
}

# mbed-os device-management helpers, modelled in Dafny

This project models five small pieces of sequential logic from mbed-os. It proves what each piece promises its callers.

- **The vendor importer** (`tools/importer/importer.py`). The script copies a vendor repository into mbed-os on a feature branch named after the vendor revision. It then replays a list of local patches with `git cherry-pick -x`. When it runs again, it resumes after the last patch recorded in the head commit. Git is a class `Repo` holding branches, the commit messages on each branch, a dirty flag and the picks made so far. Each git command is a method returning `(exit status, stdout)`. The string logic over git's output (the branch listing, the cherry-pick marker, `str.split`, Python `in`) is pure (module `GitText`).
- **Secure time over the SOTP store** (`pal_plat_time_sotp.c`). The secure one-time-programmable (SOTP) store keeps two time records. Two RAM globals hold the last saved time and the device boot time. Each operation is a function from the old state to a status and a new state. The class `Clock` performs the same steps imperatively and is proved equal to that function. All arithmetic is `uint64_t` and wraps around.
- **The DRBG noise buffer** (`pal_plat_drbg_sotp.c`). The buffer is twelve 32-bit words that bits are appended to. The whole buffer is read as one little-endian number. "Bits appended at fill count c" is then the equation `Contents' == Contents + field * 2^c`. Module flags `Drbg.Init` and `Drbg.Destroy` guard the buffer.
- **The software root of trust** (`pal_plat_rot_sotp.c`). It is get-or-create over the store, with the random source as an input.
- **The LwM2M resource wrapper** (`mbed-cloud-client-resource.cpp`). This covers `path_to_ids` with C `strtok`/`atoi` semantics, the value cache and the delivery-status labels.

The store (module `Sotp`) is shared by the three platform files. Its error translation into PAL status codes is defined once. Shifts and masks on 32-bit words are arithmetic on numbers below 2^32 (module `Bits`).

## Model

Source paths below are relative to the repository root.

| member | source | states |
|---|---|---|
| Sotp.ErrorTranslation | features/FEATURE_DEVMGMT/mbed-client-pal/pal_plat_time_sotp.c:42-67 | BAD_VALUE, BUFF_TOO_SMALL and BUFF_NOT_ALIGNED map to their PAL counterparts (each if and only if). Every other store result, including unnamed ones, is GENERIC_FAILURE. No store result becomes success. |
| Sotp.DecodeEncode | features/FEATURE_DEVMGMT/mbed-client-pal/pal_plat_time_sotp.c:77 | A value below 256^n, stored as n little-endian bytes, reads back as itself. |
| Sotp.LoadEncodeU64 | features/FEATURE_DEVMGMT/mbed-client-pal/pal_plat_time_sotp.c:141 | A `uint64_t` written to the store as 8 bytes reads back into a `uint64_t` unchanged. |
| Sotp.Find | features/FEATURE_DEVMGMT/mbed-client-pal/pal_plat_rot_sotp.c:62 | A successful read returns the stored record, which fits the buffer. A failed read returns no data. NOT_FOUND happens exactly when the record is absent and reads of its type have no fault. |
| Sotp.Store.Get | features/FEATURE_DEVMGMT/mbed-client-pal/pal_plat_rot_sotp.c:62 | `sotp_get` answers as `Find` on the current records and read faults. |
| Sotp.Store.Set | features/FEATURE_DEVMGMT/mbed-client-pal/pal_plat_rot_sotp.c:68 | `sotp_set` succeeds exactly when writes of the type have no fault, and then overwrites that one record. A failure reports the write fault and leaves the records unchanged. Read and write faults are separate, so a write can fail after a good or NOT_FOUND read. |
| SecureTime.Add64 | features/FEATURE_DEVMGMT/mbed-client-pal/pal_plat_time_sotp.c:136 | Unsigned 64-bit addition wraps modulo 2^64. |
| SecureTime.Sub64 | features/FEATURE_DEVMGMT/mbed-client-pal/pal_plat_time_sotp.c:170 | Unsigned 64-bit subtraction wraps modulo 2^64. |
| SecureTime.ReadStatus | features/FEATURE_DEVMGMT/mbed-client-pal/pal_plat_time_sotp.c:77-85 | A time read is accepted exactly when the record is absent or holds exactly 8 bytes. |
| SecureTime.WriteThenRead | features/FEATURE_DEVMGMT/mbed-client-pal/pal_plat_time_sotp.c:99 | After a successful write of a time record, reading that record returns the written value with length 8. |
| SecureTime.SetTimeSpec | features/FEATURE_DEVMGMT/mbed-client-pal/pal_plat_time_sotp.c:156-174 | `osSetTime` fails with INVALID_TIME exactly for a nonzero time below the minimum, and then keeps the boot time. `osSetTime(0)` clears the boot time. |
| SecureTime.GetTimeSpec | features/FEATURE_DEVMGMT/mbed-client-pal/pal_plat_time_sotp.c:130-154 | `osGetTime` returns the boot-based time and never changes the boot time. When it changes the state, the time exceeds the last saved time by more than the latency, and only SAVED_TIME and the RAM copy are updated. |
| SecureTime.SetTimeThenGetTime | features/FEATURE_DEVMGMT/mbed-client-pal/pal_plat_time_sotp.c:159-171 | After `osSetTime(s)` with s zero, or valid and different from the seconds since boot, an immediate `osGetTime` returns s. |
| SecureTime.SetTimeAtBootCountReadsUnset | features/FEATURE_DEVMGMT/mbed-client-pal/pal_plat_time_sotp.c:133-170 | Setting a time equal to the seconds since boot makes the boot time 0, so the clock reads as unset (0). |
| SecureTime.InitTimeTakesLatest | features/FEATURE_DEVMGMT/mbed-client-pal/pal_plat_time_sotp.c:69-120 | `initTime` sets the last saved time to the larger of SAVED_TIME and LAST_TIME_BACK. When LAST_TIME_BACK is larger it is copied into SAVED_TIME; otherwise the store is untouched. On success the boot time is set from that maximum (the RTC counts as 0). On failure the boot time is kept. |
| SecureTime.StrongTimeWritesInOrder | features/FEATURE_DEVMGMT/mbed-client-pal/pal_plat_time_sotp.c:200-226 | `setStrongTime` writes the store only after a good SAVED_TIME read, and only when the new time differs from it by more than the forward or backward latency. Its first write is LAST_TIME_BACK. SAVED_TIME changes only together with LAST_TIME_BACK. Without such a change the store and the last saved time are untouched. |
| SecureTime.StrongWriteFailureReported | features/FEATURE_DEVMGMT/mbed-client-pal/pal_plat_time_sotp.c:200-232 | When SAVED_TIME reads well and the change is large enough but the LAST_TIME_BACK write fails, a strong set returns that write error translated, never success, and changes neither the store nor the RAM state. |
| SecureTime.WeakForwardSavesOnlyFarAhead | features/FEATURE_DEVMGMT/mbed-client-pal/pal_plat_time_sotp.c:236-271 | A weak forward step always sets the boot time as `pal_osSetTime` does. It changes the store or the last saved time only when the step exceeds the forward latency and the time was accepted, and then only SAVED_TIME, to the new time. In that case it succeeds exactly when the SAVED_TIME write has no fault. Below the latency the status is that of setting the time. |
| SecureTime.WeakBackwardRefused | features/FEATURE_DEVMGMT/mbed-client-pal/pal_plat_time_sotp.c:289-311 | A backward weak set that fails the seconds-per-day ratio test leaves the whole state unchanged. |
| SecureTime.WeakTimeAtCurrentTime | features/FEATURE_DEVMGMT/mbed-client-pal/pal_plat_time_sotp.c:325-336 | A weak set to the current time takes neither branch: only the final save step runs, and the boot time is kept. |
| SecureTime.WeakSaveOnlyRaises | features/FEATURE_DEVMGMT/mbed-client-pal/pal_plat_time_sotp.c:336-360 | The final step of `setWeakTime` changes the state only after a good read, and only by raising SAVED_TIME (and the RAM copy) to the new time. That time must exceed the stored one by more than the storage latency. |
| SecureTime.Clock.ReadStored | features/FEATURE_DEVMGMT/mbed-client-pal/pal_plat_time_sotp.c:77 | Reads a time record into a zeroed `uint64_t`, as `ReadTime`. |
| SecureTime.Clock.WriteStored | features/FEATURE_DEVMGMT/mbed-client-pal/pal_plat_time_sotp.c:99 | Writes a time record as 8 little-endian bytes, as `WriteTime`. |
| SecureTime.Clock.SetTime | features/FEATURE_DEVMGMT/mbed-client-pal/pal_plat_time_sotp.c:156-174 | The imperative `osSetTime` equals `SetTimeSpec` and keeps the last saved time. |
| SecureTime.Clock.GetTime | features/FEATURE_DEVMGMT/mbed-client-pal/pal_plat_time_sotp.c:130-154 | The imperative `osGetTime` equals `GetTimeSpec` on the old state. |
| SecureTime.Clock.InitTime | features/FEATURE_DEVMGMT/mbed-client-pal/pal_plat_time_sotp.c:69-120 | The imperative `initTime` equals `InitTimeSpec` on the old state. |
| SecureTime.Clock.SetStrongTime | features/FEATURE_DEVMGMT/mbed-client-pal/pal_plat_time_sotp.c:176-234 | The imperative `setStrongTime` equals `SetStrongTimeSpec` on the old state. |
| SecureTime.Clock.SetWeakTimeForward | features/FEATURE_DEVMGMT/mbed-client-pal/pal_plat_time_sotp.c:236-271 | The imperative forward step equals `WeakForwardSpec` on the old state. |
| SecureTime.Clock.SetWeakTimeBackward | features/FEATURE_DEVMGMT/mbed-client-pal/pal_plat_time_sotp.c:273-315 | The imperative backward step equals `WeakBackwardSpec` on the old state. |
| SecureTime.Clock.SetWeakTime | features/FEATURE_DEVMGMT/mbed-client-pal/pal_plat_time_sotp.c:317-362 | The imperative `setWeakTime` equals `SetWeakTimeSpec` on the old state. |
| Bits.AndLowMask | features/FEATURE_DEVMGMT/mbed-client-pal/pal_plat_drbg_sotp.c:386-387 | `x & (2^n - 1)` keeps exactly the low n bits of x. |
| Bits.MaskedField | features/FEATURE_DEVMGMT/mbed-client-pal/pal_plat_drbg_sotp.c:364-365 | `x & ((2^n - 1) << s)` is bit field `[s, s+n)` of x, left in place. |
| Bits.Extract | features/FEATURE_DEVMGMT/mbed-client-pal/pal_plat_drbg_sotp.c:386-395 | Masking a field at `startBit` and shifting it right or left by the difference moves the field to bit `occupied`. |
| Bits.IncDec | features/FEATURE_DEVMGMT/mbed-client-pal/pal_plat_drbg_sotp.c:339-401 | Incrementing `numWriters` and then decrementing it restores its value, with 32-bit wrap-around. |
| Noise.ValueBound | features/FEATURE_DEVMGMT/mbed-client-pal/pal_plat_drbg_sotp.c:39 | n words hold a number below 2^(32n). |
| Noise.ValueAdd | features/FEATURE_DEVMGMT/mbed-client-pal/pal_plat_drbg_sotp.c:374-396 | Adding x to word i without overflow adds x * 2^(32i) to the buffer's number. |
| Noise.ValueSplit | features/FEATURE_DEVMGMT/mbed-client-pal/pal_plat_drbg_sotp.c:358 | The buffer is its first i words followed by the rest at bit 32i. |
| Noise.ValuePrefixBits | features/FEATURE_DEVMGMT/mbed-client-pal/pal_plat_drbg_sotp.c:426 | The low 32i+w bits of a word sequence are its first i words followed by the low w bits of word i. |
| Noise.AppendPlacesBits | features/FEATURE_DEVMGMT/mbed-client-pal/pal_plat_drbg_sotp.c:358-398 | After appending an n-bit field at fill count c, bit p is the old bit p below c, field bit p-c in `[c, c+n)`, and clear above. |
| Noise.AppendChunk | features/FEATURE_DEVMGMT/mbed-client-pal/pal_plat_drbg_sotp.c:426-429 | Appending the low w bits of source word idx after 32idx source bits gives the low 32idx+w source bits appended. |
| Noise.Splice | features/FEATURE_DEVMGMT/mbed-client-pal/pal_plat_drbg_sotp.c:478 | A word whose low b bits come from one word and whose other bits come from another. |
| Noise.CopyValue | features/FEATURE_DEVMGMT/mbed-client-pal/pal_plat_drbg_sotp.c:478 | Copying whole words, then the low bits of one more, gives the low bits of the source over the rest of the destination. |
| Noise.Admit | features/FEATURE_DEVMGMT/mbed-client-pal/pal_plat_drbg_sotp.c:334-344 | A write is admitted exactly when the buffer is not full and no read is in progress. It is refused as full exactly when the fill count is at capacity. |
| Noise.NoiseBuffer.constructor | features/FEATURE_DEVMGMT/mbed-client-pal/pal_plat_drbg_sotp.c:37-46 | A fresh buffer is empty with both counters at 0, no writers and no read in progress. |
| Noise.NoiseBuffer.Clear | features/FEATURE_DEVMGMT/mbed-client-pal/pal_plat_drbg_sotp.c:480-482 | `memset` plus counter reset empties the buffer and clears `isReading`. |
| Noise.NoiseBuffer.Reset | features/FEATURE_DEVMGMT/mbed-client-pal/pal_plat_drbg_sotp.c:96-99 | The reset of `DRBGInit` empties the buffer and zeroes every counter. |
| Noise.NoiseBuffer.AtomicAdd | features/FEATURE_DEVMGMT/mbed-client-pal/pal_plat_drbg_sotp.c:374-396 | `pal_osAtomicIncrement` on one word changes only that word, with wrap-around. Without overflow it adds value * 2^(32 index) to the buffer. |
| Noise.NoiseBuffer.StoreField | features/FEATURE_DEVMGMT/mbed-client-pal/pal_plat_drbg_sotp.c:364-396 | A masked, shifted store into word `index` changes only that word. It appends the field at flat position 32 index + occupied. |
| Noise.NoiseBuffer.Deposit | features/FEATURE_DEVMGMT/mbed-client-pal/pal_plat_drbg_sotp.c:358-398 | The placement step writes all `len` bits and appends bits `[startBit, startBit+len)` of the data at flat position `base`, split or not. |
| Noise.NoiseBuffer.DepositSplit | features/FEATURE_DEVMGMT/mbed-client-pal/pal_plat_drbg_sotp.c:362-383 | The split case fills the current word, puts the rest at bit 0 of the next word, and appends the whole field at `base`. |
| Noise.NoiseBuffer.WriteValue | features/FEATURE_DEVMGMT/mbed-client-pal/pal_plat_drbg_sotp.c:324-403 | Invalid `startBit`/`lenBits` give INVALID_ARGUMENT. Otherwise the status is full, reading or success, by `Admit`. On success it writes min(lenBits, free bits), appends bits `[startBit, startBit+written)` at the old fill count, and advances `bitCountActual` by exactly that. On failure it writes 0 bits and changes nothing. `numWriters` is restored on every exit. |
| Noise.NoiseBuffer.WriteBuffer | features/FEATURE_DEVMGMT/mbed-client-pal/pal_plat_drbg_sotp.c:413-438 | `lenBits` over capacity gives INVALID_ARGUMENT. Otherwise success means min(lenBits, free bits) bits were written: the low bits of the source words, appended at the old fill count. A failure writes nothing and carries the first write's status. |
| Noise.NoiseBuffer.WriteWords | features/FEATURE_DEVMGMT/mbed-client-pal/pal_plat_drbg_sotp.c:421-430 | The do-while loop appends the low `total` bits of the source, 32 at a time. A nonzero total is min(lenBits, free bits). A zero total means the first write was refused (and nothing changed) or there was nothing to write. |
| Noise.WordsExit | features/FEATURE_DEVMGMT/mbed-client-pal/pal_plat_drbg_sotp.c:430 | When the loop exits after an error, a short write or completion, the total is either the whole admissible count or zero with the first write's status. |
| Noise.NoiseBuffer.CopyBytes | features/FEATURE_DEVMGMT/mbed-client-pal/pal_plat_drbg_sotp.c:477-478 | `memcpy` of n bytes puts the low 8n bits of the buffer into the destination and keeps the destination's higher bits. |
| Noise.NoiseBuffer.Read | features/FEATURE_DEVMGMT/mbed-client-pal/pal_plat_drbg_sotp.c:448-487 | EMPTY exactly when fewer than 8 bits are held. NOT_FULL exactly for a non-partial read of a buffer that is not full. Both change nothing. Otherwise it reports 8 * floor(count/8) bits read, copies exactly those bits and empties the buffer with both counters at 0 and `isReading` cleared. |
| Noise.Drbg.Init | features/FEATURE_DEVMGMT/mbed-client-pal/pal_plat_drbg_sotp.c:88-106 | `DRBGInit` always succeeds. A second call leaves the noise buffer and its counters as they were. The first call empties them. |
| Noise.Drbg.Destroy | features/FEATURE_DEVMGMT/mbed-client-pal/pal_plat_drbg_sotp.c:108-137 | `DRBGDestroy` clears the flag. On an uninitialised module it returns NOT_INITIALIZED. Otherwise it returns the free's status when a context exists, and NOT_INITIALIZED when none does. |
| RootOfTrust.Fill | features/FEATURE_DEVMGMT/mbed-client-pal/pal_plat_rot_sotp.c:62-65 | Filling `key` with data sets its first bytes to the data and keeps the rest. |
| RootOfTrust.GetRoT | features/FEATURE_DEVMGMT/mbed-client-pal/pal_plat_rot_sotp.c:57-77 | A stored key is returned in `key` and nothing is written. With none stored and a working random source, `key` receives the random bytes; if storing them then fails, the translated store error is returned and the records are unchanged, otherwise the key is stored under the root-of-trust type and success is returned. With a failing random source the result is GENERIC_FAILURE (the translation of NOT_FOUND) and nothing changes. Any other store failure is translated, is never success, and changes nothing. |
| RootOfTrust.GetRoTTwice | features/FEATURE_DEVMGMT/mbed-client-pal/pal_plat_rot_sotp.c:62-69 | Get-or-create: once a call succeeds, the next call also succeeds and returns the same stored key, whatever the random source does. |
| CloudResource.DigitChar | features/FEATURE_DEVMGMT/simple-cloud-client/mbed-cloud-client-resource.cpp:104 | Each decimal digit has the character whose code is '0' plus the digit. |
| CloudResource.LeadingDigitsPrefix | features/FEATURE_DEVMGMT/simple-cloud-client/mbed-cloud-client-resource.cpp:48 | The digits `atoi` reads are a prefix of the text and stop at the first non-digit. |
| CloudResource.NumberDigits | features/FEATURE_DEVMGMT/simple-cloud-client/mbed-cloud-client-resource.cpp:104 | Reading back the decimal digits of n gives n. |
| CloudResource.AtoiDecimal | features/FEATURE_DEVMGMT/simple-cloud-client/mbed-cloud-client-resource.cpp:102-104 | `atoi` of the decimal rendering of any integer, with or without a minus sign and followed by anything that does not start with a digit, gives the integer back. |
| CloudResource.AtoiNoNumber | features/FEATURE_DEVMGMT/simple-cloud-client/mbed-cloud-client-resource.cpp:48 | `atoi` of text that starts with no space, sign or digit is 0. |
| CloudResource.Unsigned | features/FEATURE_DEVMGMT/simple-cloud-client/mbed-cloud-client-resource.cpp:48 | Storing an `int` into an `unsigned int` keeps non-negative values and adds 2^32 to negative ones. |
| CloudResource.NextToken | features/FEATURE_DEVMGMT/simple-cloud-client/mbed-cloud-client-resource.cpp:30-49 | Each `strtok` token is non-empty, holds no '/', and moves the scan forward. |
| CloudResource.TokensSplit | features/FEATURE_DEVMGMT/simple-cloud-client/mbed-cloud-client-resource.cpp:30-49 | The tokens `strtok(…, "/")` returns are the non-empty pieces of the path split at every '/', in order. |
| CloudResource.TokensAppend | features/FEATURE_DEVMGMT/simple-cloud-client/mbed-cloud-client-resource.cpp:30-49 | The tokens of `a/b` are the tokens of a followed by those of b. |
| CloudResource.PathToIds | features/FEATURE_DEVMGMT/simple-cloud-client/mbed-cloud-client-resource.cpp:23-54 | The while loop stores `atoi` of the first three tokens into object, instance and resource id in turn and leaves the others alone, as `PathIds`. |
| CloudResource.PathRoundTrip | features/FEATURE_DEVMGMT/simple-cloud-client/mbed-cloud-client-resource.cpp:23-54 | A path written as `a/b/c` in decimal parses back to ids a, b and c, whatever the previous ids were. |
| CloudResource.PathExample | features/FEATURE_DEVMGMT/simple-cloud-client/mbed-cloud-client-resource.h:60 | `"3200/0/5501"` sets object 3200, instance 0, resource 5501. |
| CloudResource.ExtraSegmentsIgnored | features/FEATURE_DEVMGMT/simple-cloud-client/mbed-cloud-client-resource.cpp:33 | Once a path has three tokens, anything appended after a further '/' is ignored. |
| CloudResource.EmptySegmentsSkipped | features/FEATURE_DEVMGMT/simple-cloud-client/mbed-cloud-client-resource.cpp:30-49 | A doubled '/' parses like a single one. |
| CloudResource.ShortPathKeeps | features/FEATURE_DEVMGMT/simple-cloud-client/mbed-cloud-client-resource.cpp:33-51 | With fewer than three tokens the ids past the last token keep their old values. With three or more, the old values do not matter. |
| CloudResource.ResourceDef.constructor | features/FEATURE_DEVMGMT/simple-cloud-client/mbed-cloud-client-resource.h:37-48 | A definition with zero ids and flags off. The source's `mcc_resource_def` is an uninitialised local reused across calls; the model starts it from zero. |
| CloudResource.Resource.constructor | features/FEATURE_DEVMGMT/simple-cloud-client/mbed-cloud-client-resource.cpp:56-68 | A new resource has its path and name, an empty value and no bound M2M resource. |
| CloudResource.Resource.Observable | features/FEATURE_DEVMGMT/simple-cloud-client/mbed-cloud-client-resource.cpp:70-72 | Sets the observable flag only. |
| CloudResource.Resource.Methods | features/FEATURE_DEVMGMT/simple-cloud-client/mbed-cloud-client-resource.cpp:74-76 | Sets the method mask only. |
| CloudResource.Resource.Bind | features/FEATURE_DEVMGMT/simple-cloud-client/mbed-cloud-client-resource.cpp:191-193 | Binds the M2M resource (or none) and changes nothing else. |
| CloudResource.Resource.SetInt | features/FEATURE_DEVMGMT/simple-cloud-client/mbed-cloud-client-resource.cpp:102-199 | Caches the decimal rendering and forwards it to a bound resource. Afterwards `get_value` returns text that `atoi` reads back as the integer. `get_value_int` returns the integer when bound and 0 when not. |
| CloudResource.Resource.SetString | features/FEATURE_DEVMGMT/simple-cloud-client/mbed-cloud-client-resource.cpp:111-134 | Caches the string and forwards it to a bound resource. Afterwards `get_value` returns that string, bound or not. |
| CloudResource.Resource.GetData | features/FEATURE_DEVMGMT/simple-cloud-client/mbed-cloud-client-resource.cpp:180-189 | Fills the ids from the path as `PathIds` over the old ids, and copies name, method mask, observable flag and the current value. |
| CloudResource.UnboundResource | features/FEATURE_DEVMGMT/simple-cloud-client/mbed-cloud-client-resource.cpp:111-185 | For an unbound resource at `3200/0/5501`, a string set is the value `get_value` returns, and `get_data` reports ids 3200/0/5501, its name and that value. |
| CloudResource.DeliveryStatusToString | features/FEATURE_DEVMGMT/simple-cloud-client/mbed-cloud-client-resource.cpp:162-174 | The label is "Unknown" exactly for a status outside the eight named ones. |
| CloudResource.DeliveryLabelsDistinct | features/FEATURE_DEVMGMT/simple-cloud-client/mbed-cloud-client-resource.cpp:164-171 | The eight named statuses have eight different labels. |
| GitText.ContainsIffOccurs | tools/importer/importer.py:125 | Python's `p in s` holds exactly when p occurs at some offset of s. |
| GitText.JoinSplit | tools/importer/importer.py:153 | Joining the pieces of `s.split(sep)` with sep gives s back. |
| GitText.SplitJoin | tools/importer/importer.py:153 | Splitting a join of separator-free pieces gives the pieces back. |
| GitText.SplitAppend | tools/importer/importer.py:153-156 | Splitting `a + sep + b` is splitting a, then b. |
| GitText.BranchNameInjective | tools/importer/importer.py:207 | When neither revision holds '_', the branch name determines both the repository name and the revision. |
| GitText.BranchNameCollision | tools/importer/importer.py:207 | Without that condition two different (repository, revision) pairs can share a branch name. |
| GitText.AsWrittenMatchesSubstrings | tools/importer/importer.py:123-127 | The substring test reports a branch as existing whenever the name occurs inside any listed branch. |
| GitText.AsWrittenFindsRealBranches | tools/importer/importer.py:123-127 | The substring test finds every branch that does exist. |
| GitText.AsWrittenFalsePositive | tools/importer/importer.py:123-127 | With only `feature_foo_abcd` present, `feature_foo_abc` is reported to exist, though it is not a branch. |
| GitText.ParseListingRoundTrip | tools/importer/importer.py:123-124 | Stripping the marker column from each line of a `git branch` listing gives back the branch list. |
| GitText.BranchExistsExactly | tools/importer/importer.py:114-127 | The corrected test holds exactly when the name is one of the listed branches. |
| GitText.ExtractCursor | tools/importer/importer.py:150-158 | The loop over the lines of `git log -n 1` returns the cursor of the first marked line, as `CursorOfLines`. |
| GitText.CursorNoneIff | tools/importer/importer.py:154-158 | No cursor is found exactly when no line holds "cherry picked from". |
| GitText.CursorFromFirstMarkedLine | tools/importer/importer.py:154-157 | The cursor is the last space-separated token of the first marked line, minus its final character. |
| GitText.DropLastChar | tools/importer/importer.py:157 | `t[:-1]` is t without its final character; the empty string stays empty. |
| GitText.MarkerLineCursor | tools/importer/importer.py:155-157 | For the `-x` line `(cherry picked from commit <sha>)`, the line is marked and the cursor is `<sha>`: the dropped character is the ')'. |
| GitText.MarkerLineExample | tools/importer/importer.py:156-157 | `(cherry picked from commit abc123d)` yields `abc123d`. |
| GitText.LogOutputLines | tools/importer/importer.py:152-153 | The lines of `git log` output are the message lines, each indented. |
| GitText.CursorOfIndented | tools/importer/importer.py:154-157 | Indentation does not change which line is found or what cursor it yields. |
| GitText.PickMessageCursor | tools/importer/importer.py:151-158 | After `git cherry-pick -x` of a sha, the head commit's cursor is that sha, provided the original message carried no marker. |
| GitText.ResumeSnoc | tools/importer/importer.py:291-297 | One more loop iteration picks the entry exactly when it differs from the cursor and the cursor came earlier. |
| GitText.ResumeAfterCursor | tools/importer/importer.py:289-297 | With cursor C, the picks are the entries after its first occurrence, in order, with later copies of C skipped. |
| GitText.ResumeAbsentCursor | tools/importer/importer.py:289-297 | A cursor that is not in the list picks nothing. |
| GitText.ResumeAtNext | tools/importer/importer.py:289-297 | In a list of distinct patches, the cursor at entry i picks exactly the entries after i; the last entry picks nothing. |
| GitText.ReplayIdempotent | tools/importer/importer.py:279-297 | After the last patch is picked with `-x`, a rerun plans no picks. |
| GitText.DuplicateBreaksIdempotence | tools/importer/importer.py:291-297 | With a repeated patch, a cursor at its copy skips the second copy but picks what lies between. |
| GitText.ReplayRerunPlansNothing | tools/importer/importer.py:279-297 | Whatever cursor a run starts from, if it picks anything then its last pick is the list's last entry, and a rerun from the resulting head plans nothing. |
| Importer.RunCmdWithOutput | tools/importer/importer.py:68-95 | A success returns status 0 and the output. A failure returns its status and an empty output, or exits the process with status 1 when failure is fatal. |
| Importer.Repo.PickedSnoc | tools/importer/importer.py:283-286 | Logging one more picked message extends the branch's log by that message. |
| Importer.Repo.LastPicked | tools/importer/importer.py:283-286 | After picks, the head message is the `-x` message of the last pick. |
| Importer.Repo.ListBranches | tools/importer/importer.py:123-124 | `git branch` succeeds with the listing of the branches, current one starred. |
| Importer.Repo.Checkout | tools/importer/importer.py:135-148 | `git checkout` succeeds exactly for an existing branch and then switches to it; otherwise nothing changes. |
| Importer.Repo.CheckoutNewBranch | tools/importer/importer.py:267 | `git checkout -b` succeeds exactly for a new, valid name. It then adds the branch at the current head and switches to it. |
| Importer.Repo.AddAll | tools/importer/importer.py:270 | `git add -A` succeeds. |
| Importer.Repo.SyncFiles | tools/importer/importer.py:226-260 | The file sync dirties the tree exactly when it changed something, and touches no git state. |
| Importer.Repo.Commit | tools/importer/importer.py:272 | `git commit` succeeds exactly when there are changes, appends the message to the current branch and cleans the tree. |
| Importer.Repo.LogHead | tools/importer/importer.py:151-152 | `git log -n 1` succeeds exactly on a branch with commits and shows the head message. |
| Importer.Repo.CherryPick | tools/importer/importer.py:284-297 | `git cherry-pick -x` succeeds exactly for a pickable commit and appends its marked message. A conflicting pick fails and leaves the tree dirty. |
| Importer.BranchExistsIn | tools/importer/importer.py:114-127 | The corrected existence test holds exactly when the branch exists. |
| Importer.BranchCheckout | tools/importer/importer.py:129-136 | Checks out the branch when it exists and ignores a failure. |
| Importer.GetLastCherryPickSha | tools/importer/importer.py:138-158 | Checks the branch out and returns the cursor of its head commit, or exits when the branch has no commits. |
| Importer.PickablePrefix | tools/importer/importer.py:283-297 | The longest prefix of a plan whose picks all succeed; the next entry, if any, fails. |
| Importer.PickAll | tools/importer/importer.py:281-286 | With no cursor every patch is picked once, in order, until the first failing pick ends the process with status 1. |
| Importer.PickAfter | tools/importer/importer.py:289-297 | With a cursor, the loop with the `found` flag picks exactly `ResumePicks` of the list, in order, until a failure. |
| Importer.Replay | tools/importer/importer.py:279-297 | The replay step performs `ReplayPlan`: every patch without a cursor (an empty cursor counts as none), otherwise the patches after it. |
| Importer.ReplayedNothing | tools/importer/importer.py:289-297 | An empty plan succeeds and changes nothing: no pick, the same history and the same working-tree state. |
| Importer.ReplayedAll | tools/importer/importer.py:279-297 | A replay that ends with status 0 picked the whole plan and logged each pick's message in order. |
| Importer.CreateFeatureBranch | tools/importer/importer.py:266-273 | A new feature branch is made and committed exactly when the name is valid and the sync left changes. |
| Importer.ResumeOn | tools/importer/importer.py:277-297 | On the feature branch, the patches are replayed from the cursor of its head commit. |
| Importer.Import | tools/importer/importer.py:201-297 | No vendor revision exits with status 1 and changes nothing. `--no-git` syncs files only. A missing branch is created from the synced files and committed before the replay; when it cannot be made or there is nothing to commit, the run ends with status 1 and picks nothing. When the configuration lists no file, no folder and nothing to remove, the run stops with status 1 right after that commit, because the log line names an unset `mbed_path` (importer.py:273). An existing branch is checked out and replayed, with file sync and commit skipped. |
| Importer.ImportTwice | tools/importer/importer.py:201-297 | Running the importer twice for the same vendor revision: if the first run succeeds, the second also succeeds, picks nothing more, commits nothing, leaves the history and working tree as the first run left them, and ends on the feature branch. This needs distinct patch ids without spaces or newlines, and original messages with no cherry-pick marker. |
| Importer.RerunPlansNothing | tools/importer/importer.py:279-297 | After a successful replay on a branch, the cursor read from its new head plans no picks. |

## Left out

- The store's own implementation (`sotp.c`) is not part of this model. A store either holds a record or lacks it; every read of a record type can be set to fail with a fixed result, and so, independently, can every write. A failure that comes and goes between calls is not modelled.
- Concurrency in the noise buffer. The model is single-threaded: the atomic increments are plain updates. The reader count `numOfNoiseReaders` (pal_plat_drbg_sotp.c:452-463) and the wait for writers (472-475) are left out, and so is `pal_osDelay`.
- Noise.NoiseBuffer.WriteValue: the `(int8_t)lenBits <= 0` branch (pal_plat_drbg_sotp.c:350-354) is left out. With one writer the reservation starts at the fill count, so a write that is not refused as full always has room for at least one bit.
- Noise.NoiseBuffer.WriteBuffer: the source passes `(uint8_t*)bitsWritten` to each chunk write, so only the low byte of the caller's counter is written. The model reads the chunk count directly, which matches a caller that zero-initialises the counter.
- Noise.NoiseBuffer.WriteBuffer: the source adds `*bitsWritten` to the total even after a failed chunk write. Each failure path of the chunk write reports 0 bits, so the model adds nothing then.
- Noise.NoiseBuffer.StoreField: the split store's second part uses `>> startBit` and the other stores use a shift by the bit difference. Both are modelled by the one alignment function `Bits.Align`.
- The DRBG itself (CTR-DRBG, the TRNG thread, `pal_osRandomBuffer_blocking`) is foreign crypto and threads. `Noise.Drbg.Destroy` receives whether a context exists and what freeing it returns.
- The hardware RTC is configured off (`PAL_USE_HW_RTC == 0`), so the RTC time is 0 and its read/write branches are absent.
- The tick counter is an input: every time operation that reads it receives `secFromBoot`. `pal_osSetTime` and `pal_osGetTime` are taken to delegate to the platform functions modelled here.
- RootOfTrust.GetRoT: a failing random source is assumed to leave `key` unchanged. The real one may have written part of it, and the model does not say what `key` then holds.
- The random source is an input: each call of `GetRoT` receives the status and bytes it produces.
- The M2M library is not part of this model. A bound `M2MResource` holds the text last set, and its `get_value_int` is taken to parse that text as `atoi` does (`M2MResource.IntValue`).
- CloudResource.Atoi: integers are unbounded. A number too large for `int`, which is undefined behaviour in C, is kept exact instead.
- `m2m::String::append_int` is not part of this model; it is taken to render the integer in decimal with a leading '-' for negatives.
- `set_value(float)` and `get_value_float` (mbed-cloud-client-resource.cpp:119-126, 201-205) use `sprintf("%g")` and `atof`, which this model does not cover.
- Callbacks (`attach_*`, `detach_*`, `internal_*`), the client pointer and `get_m2m_resource` are plumbing for the foreign cloud client.
- `isObservable` and `methodMask` are not initialised by the constructor in the source. The model leaves their initial values unspecified.
- The C string NUL terminator and the `new[]`/`delete[]` copy in `path_to_ids` are not modelled; strings are sequences of characters.
- Importer I/O: `copy_file`, `copy_folder`, regex substitution, argument and JSON parsing, `os.walk`, logging and `get_curr_sha` are file-system and process plumbing. The vendor revision is an input (`vendorHead`), and file sync is reduced to whether it changed the tree. Command output is taken as text, as Python 2 returns it; under Python 3 `communicate()` returns bytes and `name in output` raises a TypeError.
- `git` is abstract. A cherry-pick either applies a known commit with a `-x` message or stops on a conflict, leaving the tree dirty.
- Importer.Repo.CherryPick: the `-x` marker records the commit id exactly as given in `commit_sha`. Real git records the full 40-digit object name, so the resume properties (`GitText.ResumeAtNext`, `Importer.ResumeOn`, `Importer.ImportTwice`) hold for a configuration that lists full object names; with abbreviated ids the cursor matches no entry and a resumed run picks nothing.
- Importer.BranchExistsIn: uses the corrected exact-line test, not the substring test of importer.py:125 (see Findings). With a listed branch whose name extends the wanted one, the script skips creating the branch, its checkout fails silently and it replays onto whatever branch is checked out; the model does not follow that path.
- Importer.Import: decides whether the branch exists with the corrected test of `Importer.BranchExistsIn`, so the false-positive path of importer.py:125 is not part of its contract. An uncaught exception is modelled as exit status 1.

## Findings

| source | as written | input that shows it | evidently intended | confidence | as-written member | corrected member |
|---|---|---|---|---|---|---|
| tools/importer/importer.py:125 | `branch_exists` tests whether the name occurs anywhere in the `git branch` output | only `feature_foo_abcd` exists; asking for `feature_foo_abc` returns True, so the importer skips creating the branch and checks out one that does not exist | a branch exists only when a listing line names exactly that branch | not executed | GitText.AsWrittenFalsePositive | GitText.BranchExistsExactly |

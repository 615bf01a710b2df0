# ingenialink servo core in Dafny

A functional model of the servo runtime of ingenialink (`ingenialink/servo.c`)
and of the register rules of its XML dictionary loader (`ingenialink/dict.c`).
Each locked region of the C code is one pure transition on an immutable value.

- **Registers**: the data types, access modes and physical-unit kinds, the
  per-type ranges, and the C integer casts (`Wrap`).
- **Dict**: the name tables behind `get_dtype`, `get_access` and `get_phy`.
  It covers per-register validation in `parse_reg`, with the default range
  and the `Range` override. It covers the duplicate-id checks for
  registers, categories and sub-categories, the `il_dict_create` loops,
  `il_dict_reg_get`, and the `*_ids_get` enumerations.
- **RegAccess**: `get_reg`, `raw_read` and `raw_write`, plus the nine-way
  type dispatch of `il_servo_base__read` and `il_servo_base__write`. An
  access yields an error or the one transport call the servo would issue
  (`NetCall`).
- **Statusword**: `sw_update` and `sw_wait_change`. The clock readings and
  the outcome of the single condition wait are inputs. The timeout update
  uses the borrow-normalised timespec difference and C's truncating
  division.
- **Emcy**: the emergency ring of `on_emcy` and of the drain loop. It is a
  power-of-two array with masked head and tail. `CIRC_CNT` and `CIRC_SPACE`
  are defined as in the conventional circ_buf header, with size_t
  wrap-around. `Contents` abstracts the ring to a FIFO sequence.
- **Subscribers**: the state and emergency subscriber lists, with first-fit
  subscribe, unsubscribe and the fan-out loop. Subscribe and unsubscribe
  come in two versions: the intended one and the one as written.
- **Monitors**: one iteration of `state_subs_monitor`, and the drain of
  `emcy_subs_monitor`.
- **Lifecycle**: the fifteen acquisition steps of `il_servo_base__init`,
  its goto rollback chain, and `il_servo_base__deinit`.
- **Servo**: `il_servo_base__dict_load` and the unit getters and setters.

Two behaviours of the code worth knowing:

- **The ring holds at most size − 1 codes.** `on_emcy` drops the oldest
  code when `CIRC_SPACE` is 0, and under the conventional circ_buf
  definitions that happens with size − 1 codes unread. A ring of four
  cells fed 1…5 drains `[3, 4, 5]` (`Emcy.FourCellsKeepThree`).
- **A missing dictionary and an unknown register id both give `IL_EFAIL`.**
  There is no separate not-found code.

## Model

All source paths below are under `ingenialink/`.

| member | source | states |
|---|---|---|
| Registers.Wrap | ingenialink/dict.c:430-465 | a C cast to an integer type yields the unique value of that type congruent to the input modulo 2^width, and leaves in-range values alone |
| Dict.Find | ingenialink/dict.c:306-314 | the table scan finds nothing exactly when no entry carries the name, and otherwise returns the value of an entry with that name |
| Dict.GetDType | ingenialink/dict.c:289-315 | success only with the type that is spelled as the name; IL_EINVAL exactly when no type has that spelling |
| Dict.DTypeNameRoundTrip | ingenialink/dict.c:291-302 | each of the ten names maps back to its own type |
| Dict.DTypeNameInjective | ingenialink/dict.c:291-302 | no two data types share a name |
| Dict.GetAccess | ingenialink/dict.c:364-383 | success only with the mode spelled as the name; IL_EINVAL exactly when the name is not r, w or rw |
| Dict.AccessNameRoundTrip | ingenialink/dict.c:366-370 | "r", "w" and "rw" map to read-only, write-only and read-write |
| Dict.GetPhy | ingenialink/dict.c:394-414 | a known name gives the kind spelled that way; any other name gives no unit |
| Dict.PhyNameRoundTrip | ingenialink/dict.c:396-404 | each of the seven names maps back to its kind |
| Dict.PhyNameInjective | ingenialink/dict.c:396-404 | no two unit kinds share a name |
| Dict.ParseReg | ingenialink/dict.c:593-711 | a register parses exactly when address, dtype and access are present, dtype and access are known, and scat_id comes with cat_id; a missing attribute is IL_EFAIL and an unknown name IL_EINVAL, in source order; the fields come from the attributes |
| Dict.BuildReg | ingenialink/dict.c:628-711 | phy, cat_id and scat_id are read as optional attributes; every bound of an integer register is a value of its type, and float and str registers have no range |
| Dict.RangeDefaultsAndOverride | ingenialink/dict.c:672-711 | with valid attributes the parse succeeds; an integer register defaults to its type's full range; a Range min or max, when present, replaces that bound with the converted value; float and str registers keep no range |
| Dict.AddReg | ingenialink/dict.c:573-585 | a missing id or an id already in the table is IL_EFAIL before anything else is parsed; success adds exactly that id |
| Dict.AddRegsAccepts | ingenialink/dict.c:812-819 | the register loop succeeds exactly when every element is valid and carries a fresh id, all ids distinct |
| Dict.AddRegsSize | ingenialink/dict.c:812-819 | when every element is accepted the loop succeeds, adds one entry per element and keeps the earlier entries |
| Dict.AddRegsEntries | ingenialink/dict.c:812-819 | when every element is accepted the loop succeeds and each element's id holds that element's parsed descriptor |
| Dict.AddRegsNoExtra | ingenialink/dict.c:812-819 | when every element is accepted the loop succeeds and adds no key other than the elements' ids |
| Dict.AddScat | ingenialink/dict.c:105-116 | a sub-category without an id, or with an id already present, is IL_EFAIL; otherwise it succeeds with exactly its id added |
| Dict.AddScatsSpec | ingenialink/dict.c:165-183 | the sub-category loop succeeds exactly when all ids are present, fresh and distinct, and then records exactly those ids |
| Dict.AddCat | ingenialink/dict.c:218-265 | a category without an id, or with a repeated id, is IL_EFAIL; otherwise it succeeds exactly when its sub-category list does, fails with IL_EFAIL when that list fails, and stores the list's ids under its id, adding exactly that key and keeping every earlier entry |
| Dict.AddScats | ingenialink/dict.c:97-116 | the sub-category loop fails only with IL_EFAIL |
| Dict.AddCatsAccepts | ingenialink/dict.c:218-265 | the category loop succeeds exactly when every category has an id, the ids are new and distinct, and every sub-category list is accepted |
| Dict.AddCatsEntries | ingenialink/dict.c:218-265 | after an accepted category loop, earlier entries are kept and each category id holds exactly its sub-category ids |
| Dict.AddCatsRejectsDuplicates | ingenialink/dict.c:796-802 | two categories with the same id anywhere in the list make the category loop fail |
| Dict.AddCatsKeepsKey | ingenialink/dict.c:224-229 | a category whose id is already in the table makes the loop fail |
| Dict.RegGet | ingenialink/dict.c:1105-1118 | the stored descriptor for a present id, IL_EFAIL otherwise |
| Dict.Create | ingenialink/dict.c:795-904 | a failure of the category loop or of the register loop makes il_dict_create return NULL, and a returned dictionary means both loops succeeded |
| Dict.CreateRegs | ingenialink/dict.c:811-819 | with accepted categories and registers, the created dictionary has one register entry per element, each id resolves to its element's descriptor, and any other id is IL_EFAIL |
| Dict.CreateAccepts | ingenialink/dict.c:795-904 | il_dict_create returns a dictionary exactly when the categories and the register elements are all accepted |
| Dict.CreateCats | ingenialink/dict.c:795-802 | a created dictionary holds each category under its id with exactly the ids of its sub-categories |
| Dict.CreateRejectsInvalidCat | ingenialink/dict.c:218-262 | a category without an id, or whose sub-categories fail, makes il_dict_create return NULL |
| Dict.CreateSpec | ingenialink/dict.c:795-824 | with accepted categories, il_dict_create succeeds exactly when the registers are accepted; then there is one entry per element, each id resolves to its element's descriptor, and any other id is IL_EFAIL |
| Dict.CreateRejectsDuplicateRegs | ingenialink/dict.c:580-585 | two register elements with one id make the dictionary creation return NULL |
| Dict.CreateRejectsDuplicateCats | ingenialink/dict.c:224-229 | two categories with one id make the dictionary creation return NULL |
| Dict.CreateRejectsInvalidReg | ingenialink/dict.c:813-818 | one register element failing its attribute rules makes the dictionary creation return NULL |
| Dict.Keys | ingenialink/dict.c:1138-1146 | the kh_exist scan lists every key of the table exactly once |
| Dict.RegIdsGet | ingenialink/dict.c:1125-1149 | every register id exactly once, il_dict_reg_cnt of them, each resolving with il_dict_reg_get |
| Dict.CatIdsGet | ingenialink/dict.c:992-1016 | every category id exactly once, il_dict_cat_cnt of them |
| Dict.ScatIdsGet | ingenialink/dict.c:1064-1098 | NULL for an unknown category; otherwise every sub-category id of it exactly once |
| RegAccess.GetReg | ingenialink/servo.c:48-68 | a predefined descriptor wins; without one and without a dictionary the result is IL_EFAIL; otherwise the dictionary lookup result is passed through |
| RegAccess.PredefinedIgnoresDictionary | ingenialink/servo.c:48-68 | with a predefined descriptor neither the dictionary nor the id matters |
| RegAccess.RawRead | ingenialink/servo.c:89-112 | a lookup error passes through; a type mismatch is IL_EINVAL before the access check; write-only is IL_EACCESS; only a register passing both checks is read, at its address with the type's size |
| RegAccess.RawWrite | ingenialink/servo.c:135-163 | a type mismatch is IL_EINVAL and read-only is IL_EACCESS; the write carries the register's address and the value; the confirm flag is 0 for write-only registers and the caller's flag for read-write ones |
| RegAccess.Read | ingenialink/servo.c:922-996 | the scaled read dispatches to the raw read of the register's own type; a str register is IL_EINVAL and write-only is IL_EACCESS |
| RegAccess.Write | ingenialink/servo.c:1089-1138 | the scaled write dispatches to the raw write of the register's own type; a str register is IL_EINVAL, read-only is IL_EACCESS, and write-only drops the confirmation |
| RegAccess.DispatchMatchesRaw | ingenialink/servo.c:922-996 | for a scalar register the scaled accessors have the same outcome as the raw accessor of its type, and never report a type mismatch |
| Statusword.SwUpdate | ingenialink/servo.c:250-262 | the cell ends holding the new word, and the change condition is broadcast exactly when the word differs |
| Statusword.UpdateWakesOnlyOnChange | ingenialink/servo.c:256-259 | delivering the same word again broadcasts nothing, and a broadcast always leaves a different word |
| Statusword.Diff | ingenialink/servo.c:220-227 | the borrowed difference denotes end − start in nanoseconds, and it is normalised when both readings are |
| Statusword.ElapsedIsFloor | ingenialink/servo.c:220-230 | the milliseconds subtracted from the timeout are the floor of the elapsed nanoseconds over 10^6, and are non-negative when time did not go backwards |
| Statusword.WaitChange | ingenialink/servo.c:178-240 | a non-positive timeout is never modified; a word that already differs returns at once with the stored word; success after waiting returns the word seen at wake-up; the timeout is reduced by the elapsed milliseconds, and reaching 0 or less is IL_ETIMEDOUT; a timed-out condition wait is IL_ETIMEDOUT and a failed one IL_EFAIL, and a failed start or end clock read is IL_EFAIL, each with the timeout untouched (the word untouched unless a wake-up already read it); unless the start clock read fails, the returned word is the stored one if it already differed, else the word seen at wake-up, else the caller's, whatever the status, so a wake-up turned into IL_ETIMEDOUT by the timeout update still returns the new word; errors are only IL_EFAIL or IL_ETIMEDOUT |
| Statusword.ChangedWordSkipsWait | ingenialink/servo.c:194-208 | when the word already differs, the condition wait's outcome has no influence |
| Statusword.SpuriousWakeSucceedsUnchanged | ingenialink/servo.c:194-208 | a wake-up without a change returns success with the caller's own word, so success does not imply a change |
| Emcy.CircCntIsMod | ingenialink/servo.c:360 | CIRC_CNT with size_t subtraction and masking equals the index difference modulo the ring size |
| Emcy.MaskNext | ingenialink/servo.c:325-329 | advancing an index with `& (size - 1)` steps to the next cell, wrapping to 0 |
| Emcy.CircMacros | ingenialink/servo.c:324 | CIRC_CNT is the number of unread codes, always below the ring size, and CIRC_SPACE is 0 exactly when size − 1 codes are unread |
| Emcy.InitIsEmpty | ingenialink/servo.c:498-500 | head and tail at 0 form a valid, empty ring whatever the array holds |
| Emcy.Push | ingenialink/servo.c:316-334 | the code is stored at the head and the head advances; the tail advances only when the ring was full; the ring stays valid |
| Emcy.PushEvictsOldest | ingenialink/servo.c:322-329 | a push appends the code last; on a full ring it first evicts exactly the oldest code |
| Emcy.Pop | ingenialink/servo.c:364-365 | a pop reads the tail cell and advances the tail, leaving the array and the head alone |
| Emcy.PopTakesOldest | ingenialink/servo.c:364-365 | the popped code is the oldest unread one, and the rest stay in order |
| Emcy.PushKeepsLast | ingenialink/servo.c:322-329 | after one push the ring holds the last size − 1 of the earlier codes plus the new one |
| Emcy.PushAll | ingenialink/servo.c:316-334 | after any sequence of pushes the ring holds the last size − 1 codes of everything pushed, oldest first |
| Emcy.FourCellsKeepThree | ingenialink/servo.c:322-329 | a four-cell ring fed 1, 2, 3 holds [1, 2, 3]; fed 4 and 5 as well, it holds [3, 4, 5] |
| Subscribers.Init | ingenialink/servo.c:456-464 | a fresh list of the default size is valid and has no subscriber |
| Subscribers.FirstVacant | ingenialink/servo.c:629-633 | the scan returns the first empty slot below sz, or sz when all are taken, and reads past the array only when sz exceeds it |
| Subscribers.Subscribe | ingenialink/servo.c:621-662 | intended subscribe: the lowest empty slot is filled and returned, and nothing else changes; a full list doubles in elements with the new slots empty; when every slot is taken, a failed growth is IL_ENOMEM with the list unchanged, and with a vacant slot or a successful growth subscribe always succeeds |
| Subscribers.SubscribeAsWritten | ingenialink/servo.c:640-650 | as written, growth records 2·sz·sizeof(slot) (mod 2^64) as the size while the array holds 2·sz slots |
| Subscribers.Unsubscribe | ingenialink/servo.c:664-676 | intended unsubscribe: an in-range slot is emptied and nothing else changes; any other slot leaves the list unchanged and the lock free |
| Subscribers.UnsubscribeAsWritten | ingenialink/servo.c:664-676 | as written, a slot at or beyond sz returns with the lock held, and a negative slot writes outside the array |
| Subscribers.FanOut | ingenialink/servo.c:296-304 | the fan-out calls exactly the occupied slots below sz, in index order; it blocks on a held lock before any call; when sz exceeds the array it calls every occupied slot of the array and then faults |
| Subscribers.OccupantsMembers | ingenialink/servo.c:299-303 | a slot is called exactly when it is in the list and has a callback |
| Subscribers.SubscribeShape | ingenialink/servo.c:653-656 | after a subscribe at slot k, the slots below k are unchanged, slot k holds the new subscriber, and the rest is the old array or empty growth |
| Subscribers.SubscribeInsertsInOrder | ingenialink/servo.c:621-662 | the new subscriber is called after every one in a lower slot and before every one in a higher slot; no one else is added or dropped |
| Subscribers.UnsubscribeDropsOne | ingenialink/servo.c:672-673 | emptying a slot drops exactly that subscriber from the fan-out, and the others keep their order |
| Subscribers.FreedSlotIsReused | ingenialink/servo.c:629-633 | nothing is renumbered: a freed slot is handed out next when every lower slot is taken |
| Subscribers.ThirdSubscriberDoubles | ingenialink/servo.c:636-651 | a list of two gives slots 0, 1 and 2 to three subscribers and grows to four |
| Subscribers.AsWrittenGrowthRecordsBytes | ingenialink/servo.c:641-650 | as written, growing a full list of two 16-byte slots records 64 as its size, over an array of 4 |
| Subscribers.AsWrittenGrowthKeepsJunk | ingenialink/servo.c:642-650 | as written, a callback left in the memory realloc added is called by the next fan-out, though nobody subscribed it |
| Subscribers.AsWrittenUnsubscribeLeaksLock | ingenialink/servo.c:669-670 | as written, after an out-of-range unsubscribe every later subscribe or unsubscribe blocks; as intended, nothing changes |
| Subscribers.AsWrittenNegativeSlotFaults | ingenialink/servo.c:669-673 | as written, slot −1 passes the range check and is written outside the array; as intended, nothing changes |
| Monitors.StateMonitorStepAsWritten | ingenialink/servo.c:283-304 | the baseline becomes the word the wait left, and subscribers hear of it only when the wait returned success |
| Monitors.AsWrittenLateWakeLosesChange | ingenialink/servo.c:283-287 | a real change whose wake-up arrives as the timeout runs out moves the baseline and is reported to nobody |
| Monitors.StateMonitorStep | ingenialink/servo.c:270-310 | intended: the baseline moves as in the code, and every move of the baseline is notified with the new word |
| Monitors.Deliveries | ingenialink/servo.c:372-380 | one code is delivered to every subscriber, in order |
| Monitors.Drain | ingenialink/servo.c:359-385 | a woken drain empties the ring and delivers every unread code, oldest first, to every occupied slot in index order; an empty ring delivers nothing; a fan-out that blocks or faults halts after the first pop; a blocking one delivers nothing, a faulting one delivers that code to every occupied slot of the array first |
| Monitors.DrainAll | ingenialink/servo.c:360-383 | while CIRC_CNT is non-zero the loop pops and fans out, ending with an empty ring and all deliveries made in FIFO order |
| Lifecycle.Undo | ingenialink/servo.c:536-578 | a monitor is stopped and then joined, the dictionary is destroyed only when loaded, and anything else is released |
| Lifecycle.FailTarget | ingenialink/servo.c:406-532 | every goto of il_servo_base__init targets one of the cleanup labels |
| Lifecycle.LabelIndex | ingenialink/servo.c:536-578 | each cleanup label's position in the fall-through chain |
| Lifecycle.Rollback | ingenialink/servo.c:536-580 | a failed initialisation always ends by releasing the transport reference |
| Lifecycle.RollbackReleasesPrefix | ingenialink/servo.c:397-581 | a failure at step k releases exactly steps 0..k−1, last acquired first; a failed dictionary load destroys no dictionary |
| Lifecycle.TargetPrecedesFailure | ingenialink/servo.c:406-532 | each failing step jumps to the label of the step acquired just before it |
| Lifecycle.LabelsMirrorSteps | ingenialink/servo.c:536-578 | the cleanup labels list all steps but the last, backwards |
| Lifecycle.Deinit | ingenialink/servo.c:583-607 | deinitialisation never releases the transport reference |
| Lifecycle.DeinitSkipsNetRef | ingenialink/servo.c:583-607 | deinitialisation tears down steps 1..14 in reverse order; the rollback teardown of all fifteen steps is this plus releasing the transport reference |
| Lifecycle.DeinitMirrorsSteps | ingenialink/servo.c:583-607 | the deinitialisation order is the acquisition order after the transport reference, backwards |
| Lifecycle.TeardownStopsThenJoins | ingenialink/servo.c:552-553 | in every teardown, each join directly follows the stop of the same monitor |
| Servo.InitialUnitsNative | ingenialink/servo.c:427-430 | after initialisation every quantity is in its native unit |
| Servo.UnitsSet | ingenialink/servo.c:765-824 | a get after a set returns the unit set, and the other quantities keep theirs |
| Servo.UnitsSetLastWins | ingenialink/servo.c:754-824 | setting the current unit changes nothing, and the later of two sets wins |
| Servo.DictLoad | ingenialink/servo.c:740-752 | a second load is IL_EALREADY with nothing changed; otherwise a created dictionary is stored, and a failed creation is IL_EFAIL with no dictionary |
| Servo.LoadOnce | ingenialink/servo.c:740-752 | after one load, a further load never replaces the dictionary, and register ids resolve through the loaded one |

## Left out

- Byte order. The `__swap_*` conversions after a raw read and before a raw write are host dependent and not shown, so values cross the transport unchanged.
- Floating point. The unit-factor scaling of the scaled read and write, the float and double casts and narrowing, `strtof`, and the float stored in the s64 field of `get_value` are not modelled. `RegAccess.Write` takes the already converted native value.
- XML parsing and numeric text. libxml2, XPath and the khash internals are replaced by element lists and maps. `strtoul`/`strtol` are opaque functions (`Parsers`). The model therefore does not capture the strtol/strtoul saturation on out-of-range text, nor the per-type choice between them in `parse_reg_range`.
- Dict.ParseReg: a register element has at most one nested `Range`. The optional `value` attribute (`get_value`) is not stored, because it never fails and the model's descriptor has no value field.
- Labels. `parse_labels` and the localized labels of registers, categories and sub-categories are not modelled. A label without `lang` makes `parse_reg`, `parse_cat` and `parse_scat` fail with IL_EFAIL (dict.c:66-69, reached from 133, 252 and 538); the model has no labels, so this failure is absent.
- Dict.ParseReg: its "exactly when" does not include the IL_EFAIL of a malformed label.
- Dict.AddScatsSpec: its "exactly when" does not include the IL_EFAIL of a malformed sub-category label.
- Dict.AddCatsAccepts: its "exactly when" does not include the IL_EFAIL of a malformed category or sub-category label.
- Dict.AddRegsAccepts: its "exactly when" does not include the IL_EFAIL of a malformed register label.
- Dict.CreateAccepts: its "exactly when" does not include the IL_EFAIL of a malformed label anywhere in the document.
- Memory cleanup. The free and destroy paths, and their memory-level bugs, are not modelled.
- Allocation failure in the dictionary. `il_dict_create` returns NULL when allocating the dictionary record fails (dict.c:732-735), and the `*_ids_get` functions return NULL when allocating their array fails (dict.c:999-1002, 1081-1084, 1132-1135). Allocation always succeeds in the model.
- Dict.CreateAccepts: its "exactly when" does not include the NULL of a failed dictionary allocation.
- Dict.RegIdsGet: never returns NULL, because the array allocation is assumed to succeed.
- Dict.CatIdsGet: never returns NULL, because the array allocation is assumed to succeed.
- Dict.ScatIdsGet: returns NULL exactly for an unknown category; the NULL of a failed array allocation is not included.
- Threads, locks and conditions. Each locked region is one step. The monitor loops and their stop flags are modelled one iteration at a time.
- Clock readings and the condition wait. The clock readings and the condition-wait outcome are inputs.
- Transport results. An access stops at the `NetCall` it would issue; the return value of `il_net__read`/`il_net__write`, which the accessors pass through as their own result (servo.c:111, 161-162), is not modelled, so transport errors are absent.
- `_state_decode` is not modelled: the state monitor reports the word it would decode.
- Monitors.Drain: the subscriber list is taken as fixed for the whole drain, because concurrent subscribes during the unlocked parts are a concurrency matter.
- Emcy: `on_emcy` masks with `EMCY_QUEUE_SZ` and the drain with `emcy->sz`. Initialisation makes them equal, so both use the array length.
- Header constants. `STATE_SUBS_SZ_DEF`, `EMCY_SUBS_SZ_DEF`, `EMCY_QUEUE_SZ`, the monitor timeouts and `CIRC_CNT`/`CIRC_SPACE` live in headers that are not part of this model. They are parameters, and the circ_buf macros take their conventional definitions. The model assumes `STATE_SUBS_SZ_DEF` and `EMCY_SUBS_SZ_DEF` are at least 1 (`Subscribers.Init` and `Subscribers.Valid` require it) and that `EMCY_QUEUE_SZ` is a power of two (`Emcy.Valid` requires it), since the masking of `on_emcy` and of the drain is only a modulo for such sizes.
- Statusword.WaitChange: the timeout is an unbounded integer, so C `int` overflow in the timeout update is not modelled.
- Subscribers.SubscribeAsWritten: the `(int)sz` casts in the scan are not modelled, only the stored byte count.
- Forwarding wrappers and discovery. `il_servo_lucky`, `il_servo_create` and the ops-table wrappers only forward to the base functions or to code not shown.

## Findings

| source | as written | input that shows it | evidently intended | confidence | as-written member | corrected member |
|---|---|---|---|---|---|---|
| ingenialink/servo.c:641-650 | on growth `sz = 2 * sz * sizeof(*subs)` is a byte count and is stored as the element count | a full list of 2 slots of 16 bytes records size 64 over an array of 4 slots | the size doubles in elements | not executed | Subscribers.AsWrittenGrowthRecordsBytes | Subscribers.ThirdSubscriberDoubles |
| ingenialink/servo.c:642-650 | realloc's new slots are never cleared, so leftover memory with a non-NULL callback is called by the fan-out | growing [1, 2] when the new memory holds callback 7 makes the fan-out call 7 | new slots start empty | not executed | Subscribers.AsWrittenGrowthKeepsJunk | Subscribers.Subscribe |
| ingenialink/servo.c:669-670 | an out-of-range unsubscribe returns without unlocking | unsubscribe(sz), then any subscribe or unsubscribe blocks | unlock before returning | not executed | Subscribers.AsWrittenUnsubscribeLeaksLock | Subscribers.Unsubscribe |
| ingenialink/servo.c:669-673 | a negative slot passes `slot >= sz` and is written before the array | unsubscribe(−1) | reject slot < 0 | not executed | Subscribers.AsWrittenNegativeSlotFaults | Subscribers.Unsubscribe |
| ingenialink/servo.c:283-287 | when the wait's timeout update yields IL_ETIMEDOUT after a real wake-up, `sw` has already moved, so the change is never notified | baseline 0, word 1 signalled, 100 ms timeout, 100 ms elapsed | every baseline change is notified | not executed | Monitors.AsWrittenLateWakeLosesChange | Monitors.StateMonitorStep |

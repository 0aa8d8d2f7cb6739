# ESP32-C6 RFID access controller (Wiegand + Zigbee), modelled in Dafny

This project models the core of the access-control firmware. That core is the
card-reader decode path, the two user stores, the UID attribute kept for
Zigbee, the UID views served over HTTP, and the main loop's access decision.
Each C file of the core is one module. Shared vocabulary lives in two small
modules:

- `Esp` (`esp.dfy`): `esp_err_t` codes, `Option` and `Min`.
- `Fmt` (`fmt.dfy`): what `strncpy` leaves in a fixed field, and `printf`'s
  `%u` with a parser as its partner.

| module | file | models |
|---|---|---|
| `RfidStorage` | `rfid_storage.dfy` | `main/rfid_storage.c`: the 50-user registry and 50-entry audit log in RAM (class `Storage`), and the image `save_*_to_nvs` leaves in the namespace |
| `AppWiegand` | `app_wiegand.dfy` | `main/app_wiegand.c`: the ISR-fed bit buffer, the MSB-first packing when the idle timer fires, and the last-UID slot (class `Wiegand`) |
| `RfidReader` | `rfid_reader.dfy` | `main/rfid_reader.c`: the queue-fed decoder task (class `QueueDecoder`), its `uint32_t` fold, its fixed allow-list and the `rfid_read_uid` stub |
| `NvsStorage` | `nvs_storage.dfy` | `main/nvs_storage.c`: the key-indexed user schema (`count`, `uid_<i>`, `nome_<i>`) and the Wi-Fi and Zigbee settings, over an abstract NVS map (class `Nvs`) |
| `AppZigbee` | `app_zigbee.dfy` | `main/app_zigbee.c`: the length-prefixed `last_uid_zcl` attribute buffer, a ZCL character string (data type 0x42, section 2.6.2 of the Zigbee Cluster Library specification) |
| `AppHttp` | `app_http.dfy` | `main/app_http.c`: the `%02X` hex loop, the `/status` JSON body, the root page's UID placeholder, and `/clear` and `/open` |
| `AppMain` | `main_loop.dfy` | `main/main.c`: one pass of the `while` loop in `app_main` (read, authorize, log) |

The firmware has two decoders and two user stores that do not agree. Each is
modelled on its own terms. `rfid_is_user_authorized` is defined twice, in
`rfid_storage.c` and in `rfid_reader.c`, so the two files cannot be linked
into one program. `main.c` sees only the prototype in `rfid_reader.h`, and
the source does not settle which definition it calls. The choice here is the
model's own: `AppMain` decides with the registry's version,
`RfidStorage.Storage.IsUserAuthorized`, because the loop logs into that
registry. The reader's allow-list version is modelled separately as
`RfidReader.IsUserAuthorized`.

In `RfidStorage` and `NvsStorage` one Dafny `char` stands for one byte of a
C string. The length limits (31 bytes of uid, 63 of name, 15 and 31 in the
NVS schema) are therefore counted in characters, which agrees with the
source for single-byte text only.

Calls into the ESP-IDF NVS engine are modelled as parameters of the methods
that make them. This covers `nvs_open`, `nvs_get_blob` (its result for a
stored blob), `nvs_set_blob`, `nvs_set_i32`, `nvs_commit` and
`nvs_erase_all`, and the `nvs_flash_init` result:

- In `RfidStorage`, the fault of one save is an `NvsFault`: the step that
  fails, with its code. The namespace holds an `Image` per table: the array
  blob and the count, either of which may be missing.
- In `NvsStorage`, the engine is a map from namespace name to a map from key
  to a typed value. `nvs_get_*` are functions on that map.

## Model

| member | source | states |
|---|---|---|
| Fmt.Truncate | main/rfid_storage.c:130-131 | `strncpy` into an n+1-byte zeroed field keeps exactly the first min(length, n) characters, so the whole string when it fits |
| Fmt.Decimal | main/rfid_reader.c:64 | `%u` gives a non-empty string of decimal digits without a leading zero |
| Fmt.DecimalRoundTrip | main/rfid_reader.c:64 | reading the `%u` rendering back gives the number |
| Fmt.DecimalInjective | main/nvs_storage.c:106-108 | distinct indices render to distinct decimal strings |
| RfidStorage.FirstMatch | main/rfid_storage.c:138-143 | the result is -1 exactly when the uid is absent; otherwise it is the first index holding that uid |
| RfidStorage.AddTwiceRefused | main/rfid_storage.c:119-128 | adding a uid of at most 31 characters a second time is refused: with `ESP_ERR_INVALID_STATE` below capacity, with `ESP_ERR_NO_MEM` at it |
| RfidStorage.LongUidAcceptedTwice | main/rfid_storage.c:124-132 | a 32-character uid is accepted twice, leaving two entries with the same stored uid, because the duplicate check compares the truncated stored uid with the raw argument |
| RfidStorage.AddKeepsUnique | main/rfid_storage.c:119-135 | an accepted add of a uid that fits keeps the uids unique and makes the uid registered |
| RfidStorage.SwapRemoveMultiset | main/rfid_storage.c:140-142 | moving the last element into slot i and dropping the last slot removes exactly the element at i, as a multiset |
| RfidStorage.RemoveIsPermutation | main/rfid_storage.c:137-146 | removal is refused with `ESP_ERR_NOT_FOUND` exactly when the uid is absent; otherwise the count drops by one and every other user survives, as a multiset |
| RfidStorage.RemoveRevokes | main/rfid_storage.c:137-155 | when the uids are unique, a removed uid is no longer authorized and the remaining uids stay unique |
| RfidStorage.AppendAllKeepsNewest | main/rfid_storage.c:157-168 | after any number of appends the log is the newest 50 of the old entries followed by the truncated new ones, oldest first |
| RfidStorage.FiftyFirstAppendEvicts | main/rfid_storage.c:157-168 | 51 appends to an empty log evict the first event and keep the other 50 in order |
| RfidStorage.SaveLoadRoundTrip | main/rfid_storage.c:22-56 | a fault-free save followed by a fault-free load returns `ESP_OK` and restores the saved array and count |
| RfidStorage.CountFaultPairsNewBlobWithOldCount | main/rfid_storage.c:22-35 | when only the count write fails, a later load pairs the new array with the old count |
| RfidStorage.ReadFaultPairsOldArrayWithNewCount | main/rfid_storage.c:43-55 | when a stored blob cannot be read (any failure but NOT_FOUND), the load keeps the array RAM held, still applies the stored count, and returns the read's failure |
| RfidStorage.Storage.constructor | main/rfid_storage.c:13-18 | the zero-initialised statics: both tables empty |
| RfidStorage.Storage.Init | main/rfid_storage.c:96-107 | a flash that needs erasing is wiped, then both tables are loaded; the function returns `ESP_OK` whatever the loads return, including a failed blob read |
| RfidStorage.Storage.LoadUsers | main/rfid_storage.c:37-56 | a failed open leaves RAM alone and returns its code; a missing blob leaves RAM alone and returns `ESP_OK`; a read blob replaces the array; unless the blob is missing, the stored count replaces the RAM one, unchecked, even when the blob read failed, whose code is then returned |
| RfidStorage.Storage.LoadLogs | main/rfid_storage.c:73-92 | the same for the log |
| RfidStorage.Storage.SaveUsers | main/rfid_storage.c:22-35 | the image and result are those of a save that stops at its first failing step |
| RfidStorage.Storage.SaveLogs | main/rfid_storage.c:58-71 | the same for the log |
| RfidStorage.Storage.AddUser | main/rfid_storage.c:119-135 | a count of 50 or more, including a loaded count above 50, gives NO_MEM and changes nothing; from a count in 0..50 the registry becomes `UsersAfterAdd`: NO_MEM at capacity (checked first), INVALID_STATE on a duplicate, both changing nothing; otherwise the truncated pair lands at index `user_count`, earlier slots are untouched, and the save result is returned with no rollback |
| RfidStorage.Storage.RemoveUser | main/rfid_storage.c:137-146 | for any count up to 50, a negative one included (an empty scan), the registry becomes `UsersAfterRemove`: the last user moves into the first matching slot and the count drops by one, with no rollback if the save fails; NOT_FOUND changes nothing |
| RfidStorage.Storage.SwapOut | main/rfid_storage.c:140-142 | slot i receives the last user, the count drops by one, the registry is the swap-removed one, and the save's image and result follow |
| RfidStorage.Storage.IsUserAuthorized | main/rfid_storage.c:148-155 | true exactly when one of the slots the scan visits holds an identical uid: none for a negative count (false), the first `user_count` otherwise, and for a count above 50 the uid is found among the 50 slots (true) |
| RfidStorage.Storage.EvictOldest | main/rfid_storage.c:158-164 | from any count of 50 or more, entries 1..49 move down one place in order and the count becomes 49 |
| RfidStorage.Storage.AddLog | main/rfid_storage.c:157-171 | below capacity the entry is appended and the count rises by one; at 50, or at a loaded count above 50, the oldest entry is dropped, the rest shift down and the new entry goes in slot 49, so the count ends at 50; the saved image and the save result are given |
| RfidStorage.Storage.ListUsers | main/rfid_storage.c:114-117 | returns the live array and the count, whatever the count; when the count is in 0..50 the array's prefix is the registry |
| RfidStorage.Storage.GetLogs | main/rfid_storage.c:109-112 | returns the live log array and the count, whatever the count; when the count is in 0..50 the array's prefix is the log |
| AppWiegand.Pack | main/app_wiegand.c:113-114 | n bits pack into ceil(n/8) bytes |
| AppWiegand.PackByteBit | main/app_wiegand.c:117-121 | bit 7-k of a packed chunk is set exactly when chunk bit k exists and is 1 |
| AppWiegand.PackBit | main/app_wiegand.c:117-121 | byte j, bit 7-k of the packed frame is set exactly when frame bit 8j+k exists and is 1, so padding bits are zero |
| AppWiegand.PackExamples | main/app_wiegand.c:117-121 | 1011 packs to 0xB0, and 10110100 packs to 0xB4 |
| AppWiegand.PackedLengthBound | main/app_wiegand.c:113-115 | at most 64 bits pack into at most 8 bytes, so the 16-byte clamp never applies |
| AppWiegand.Wiegand.constructor | main/app_wiegand.c:23-29 | the zero-initialised statics: no bits, an empty last UID, timer not armed |
| AppWiegand.Wiegand.PushBit | main/app_wiegand.c:86-94 | below 64 bits the normalised bit is appended; at the cap it is dropped; either way the timer is re-armed |
| AppWiegand.Wiegand.PackFrame | main/app_wiegand.c:111-121 | the local `bytes[16]` holds exactly `Pack` of the frame, with zeros after it |
| AppWiegand.Wiegand.FrameTimeout | main/app_wiegand.c:109-142 | the last UID becomes the packed frame, at least one byte long; bytes past it keep their stale content; LED, buzzer and relay are pulsed in order; the bit buffer is all zero and empty |
| AppWiegand.Wiegand.GetLastUid | main/app_wiegand.c:153-162 | a null argument does nothing; a buffer too small gets length 0 and no bytes; otherwise exactly the UID is copied and its length reported |
| AppWiegand.Wiegand.ClearLastUid | main/app_wiegand.c:164-168 | all 16 bytes are zeroed and the length is 0 |
| RfidReader.ShiftInMod | main/rfid_reader.c:61 | `(v << 1) \| bit` on a `uint32_t` is the longer bit string's value reduced mod 2^32 |
| RfidReader.WrapKeepsLast32 | main/rfid_reader.c:58-62 | the binary value mod 2^32 is the binary value of the last 32 bits at most |
| RfidReader.IsUserAuthorized | main/rfid_reader.c:104-111 | true exactly when the string is "123456" or "987654" |
| RfidReader.Listed | main/rfid_reader.c:105-109 | true exactly when some entry of the list equals the string |
| RfidReader.DecodedBitNeverAuthorized | main/rfid_reader.c:23-26 | the one-digit strings this decoder emits are never on its allow-list |
| RfidReader.SingleBitFrame | main/rfid_reader.c:56-64 | a one-bit frame renders as "0" or "1" |
| RfidReader.ReadUid | main/rfid_reader.c:98-102 | always `ESP_FAIL`, and the buffer is not written |
| RfidReader.QueueDecoder.constructor | main/rfid_reader.c:14-17 | an empty bit buffer |
| RfidReader.QueueDecoder.Fold | main/rfid_reader.c:58-62 | the fold is the buffer's binary value mod 2^32 |
| RfidReader.QueueDecoder.HandleEvent | main/rfid_reader.c:48-69 | the bit is appended only below 64 bits; the result is the decimal rendering of the frame's value mod 2^32, which is that of its last 32 bits; the buffer is reset; from idle the result is "0" or "1" |
| NvsStorage.GetStr | main/nvs_storage.c:135-138 | a read succeeds exactly when the key holds a string shorter than the buffer, and then returns it |
| NvsStorage.GetU8 | main/nvs_storage.c:79 | a read succeeds exactly when the key holds a `uint8_t`, and then returns the stored value |
| NvsStorage.GetU16 | main/nvs_storage.c:82 | a read succeeds exactly when the key holds a `uint16_t`, and then returns the stored value |
| NvsStorage.GetU32 | main/nvs_storage.c:98-99 | a read succeeds exactly when the key holds a `uint32_t`, and then returns the stored value |
| NvsStorage.KeysDistinct | main/nvs_storage.c:106-108 | `uid_<i>`, `nome_<j>` and `count` never collide, and each family is injective in its index |
| NvsStorage.StoredCount | main/nvs_storage.c:98-99 | the count is 0 when the key is missing |
| NvsStorage.AppendedKeepsPrefix | main/nvs_storage.c:106-113 | the writes of an add leave the users below the written index as they were |
| NvsStorage.AddAppendsUser | main/nvs_storage.c:91-118 | below capacity an add raises the count by one and extends the recorded list by exactly that user |
| NvsStorage.AddTwiceRecordsTwice | main/nvs_storage.c:91-118 | with no duplicate check, adding the same user twice records it twice |
| NvsStorage.AddsListInOrder | main/nvs_storage.c:91-144 | adds into an empty namespace are listed back in insertion order, up to 50 |
| NvsStorage.Listed | main/nvs_storage.c:130-139 | the list loop visits as many entries as it is given |
| NvsStorage.ListReadsSaved | main/nvs_storage.c:126-141 | on a well-formed namespace the list reads exactly the recorded users, in index order |
| NvsStorage.WifiRoundTrip | main/nvs_storage.c:25-54 | saving and then loading Wi-Fi settings that fit returns `ESP_OK` and the same ssid and password |
| NvsStorage.ZigbeeRoundTrip | main/nvs_storage.c:59-86 | saving and then loading Zigbee settings returns `ESP_OK` and the same channel and PAN id |
| NvsStorage.Nvs.AddUser | main/nvs_storage.c:91-118 | a failed open changes nothing; at 50 or more stored users the result is NO_MEM and nothing is written; otherwise `uid_<count>`, `nome_<count>` and `count + 1` are written and the commit result is returned |
| NvsStorage.Nvs.ListUsers | main/nvs_storage.c:120-144 | returns min(stored count, capacity) entries, 0 when `count` is missing, read from indices 0.. in order; later entries are untouched |
| NvsStorage.Nvs.ClearUsers | main/nvs_storage.c:146-158 | after a successful erase the namespace is empty and lists no users; a failed erase leaves it alone |
| NvsStorage.Nvs.SaveWifi | main/nvs_storage.c:25-37 | writes `wifi_ssid` and `wifi_pass` and returns the commit result |
| NvsStorage.Nvs.LoadWifi | main/nvs_storage.c:39-54 | reads the ssid, then the password only if the ssid read succeeded; a failed read keeps the caller's field |
| NvsStorage.Nvs.SaveZigbee | main/nvs_storage.c:59-71 | writes `zb_chan` and `zb_panid` and returns the commit result |
| NvsStorage.Nvs.LoadZigbee | main/nvs_storage.c:73-86 | reads the channel, then the PAN id only if the channel read succeeded |
| AppZigbee.CharStringValue | main/app_zigbee.c:23 | a ZCL character string denotes the bytes its length octet counts, unless that octet is 0xFF or runs past the buffer |
| AppZigbee.Reported | main/app_zigbee.c:93-94 | a report leaves the buffer 17 bytes long |
| AppZigbee.ReportedRoundTrip | main/app_zigbee.c:91-94 | the reported buffer denotes exactly the reported bytes |
| AppZigbee.ZigbeeUidAttr.constructor | main/app_zigbee.c:23 | the zero-initialised buffer is a valid empty string |
| AppZigbee.ZigbeeUidAttr.ReportUid | main/app_zigbee.c:88-94 | a null uid changes nothing; otherwise the length octet is min(len, 16), bytes 1..len are the uid, later bytes keep the previous report, and the attribute denotes the uid |
| AppHttp.HexDigit | main/app_http.c:33 | a hex digit is never NUL, a double quote or `<` |
| AppHttp.HexByte | main/app_http.c:33 | `%02X` gives two characters |
| AppHttp.Hex | main/app_http.c:31-34 | the hex rendering is twice as long as the bytes |
| AppHttp.HexAt | main/app_http.c:33 | byte i is rendered at characters 2i and 2i+1 |
| AppHttp.HexRoundTrip | main/app_http.c:31-34 | the hex rendering reads back as the bytes |
| AppHttp.RenderHex | main/app_http.c:31-34 | the zero-terminated `hex[33]` holds exactly the hex rendering of the first `len` bytes |
| AppHttp.StatusAfter | main/app_http.c:67 | the text after the hex digits starts with the closing quote |
| AppHttp.StatusShape | main/app_http.c:67 | the body is the prefix, then the hex string (empty when len is 0), then the rest |
| AppHttp.StatusBodyDeterminesUid | main/app_http.c:66-67 | two UIDs with the same `/status` body are the same UID |
| AppHttp.RootPageDeterminesUid | main/app_http.c:45-51 | two UIDs with the same root page are the same UID; an empty UID shows as the em dash |
| AppHttp.StatusBodyFits | main/app_http.c:66-67 | the `/status` body for a UID of at most 16 bytes is shorter than `json[256]` |
| AppHttp.StatusHandler | main/app_http.c:57-70 | the body is that of the real last UID and its real length, never a zero length |
| AppHttp.RootHandler | main/app_http.c:24-55 | the page shows the real last UID's hex, or the em dash when it is empty |
| AppHttp.ClearHandler | main/app_http.c:84-89 | all 16 bytes of the slot are zeroed and its length is 0, so `/status` then reads `{"last_uid":"","len":0}`; the reply is "CLEARED" |
| AppHttp.OpenHandler | main/app_http.c:72-82 | the reply is "OK" and no state changes |
| AppMain.PassLogsOnlyRegistered | main/main.c:48-56 | if every log entry names a registered user before a pass, every entry does after it |
| AppMain.Pass | main/main.c:48-56 | over the counts as loaded: a failed read, or an unregistered uid, leaves the log, its count and its saved image alone; a registered uid appends one entry with the fixed timestamp (evicting down to 50 from a loaded log count above 50) and leaves the image that `save_logs_to_nvs` writes; the registry never changes |
| AppMain.LoopBody | main/main.c:43-59 | whatever counts were loaded, since `rfid_read_uid` always fails, a pass changes neither table nor the saved image |

## Left out

- GPIO configuration, ISR registration and `esp_timer` are not modelled. The idle timer is the `timerArmed` flag. The LED, buzzer and relay outputs are the list of `gpio_set_level` calls in `levels`. The `vTaskDelay` waits (50 ms, 500 ms, 30 ms, 100 ms) have no counterpart.
- The FreeRTOS queue between the reader's ISRs and its task is concurrency and is not modelled. The task receives one bit per `HandleEvent` call. `rfid_reader_init` is not modelled either.
- RfidReader.QueueDecoder.HandleEvent: the `ESP_LOGI` of the decoded string is not modelled. The result is returned instead.
- The NVS engine itself is foreign code. Its results are parameters, and the byte layout of the `sizeof(user_db)` blob is not modelled. The blob is the array's contents.
- RfidStorage.Storage.SaveUsers and RfidStorage.Storage.SaveLogs: the source ignores the result of `nvs_commit`. The model takes the writes to persist, so a commit that fails is not modelled.
- NvsStorage.Nvs.AddUser, NvsStorage.Nvs.SaveWifi and NvsStorage.Nvs.SaveZigbee: the source ignores the results of `nvs_set_str`, `nvs_set_u32`, `nvs_set_u8` and `nvs_set_u16`. The model takes those writes to succeed, so a set that fails inside the engine is not modelled.
- RfidStorage.Storage.RemoveUser requires a user count of at most 50 (negative counts are modelled). Above 50 the source reads past `user_db`: the scan does when the uid is not among the 50 slots, and the swap reads `user_db[user_count - 1]` when it is. Both are undefined behaviour.
- RfidStorage.Storage.IsUserAuthorized requires, for a user count above 50, that the uid be among the 50 slots (the source then returns true). Otherwise its scan reads past `user_db`, which is undefined behaviour. Negative counts are modelled.
- AppMain.Pass requires the same of a read uid when the user count is above 50, and a non-negative log count when the uid is granted. Otherwise `rfid_add_log` writes before `log_db`. AppMain.LoopBody needs neither, since its read always fails.
- RfidStorage.Storage.AddUser and RfidStorage.Storage.AddLog require a non-negative count. A negative loaded count makes the source write before the array, which is undefined behaviour.
- Text that is not single-byte is not modelled: a multi-byte UTF-8 uid or name would be cut by `strncpy` at a byte count, not a character count.
- NvsStorage.Nvs.ListUsers: `nvs_get_str` into a buffer that is too small is modelled as leaving the entry's field unchanged.
- `nvs_storage_init` only calls `nvs_flash_init` and is not modelled.
- `rfid_storage_init`'s erase-and-retry is modelled only by its effect, an empty namespace. The erase is taken to succeed, so the abort of `ESP_ERROR_CHECK` is not modelled.
- AppWiegand.Wiegand.FrameTimeout is modelled as atomic with respect to `wg_push_bit`. In the firmware the callback blocks for about 550 ms in `apply_relay_pulse` and `vTaskDelay`, and the D0/D1 interrupts can push bits and re-arm the timer meanwhile. The reset at the end then discards those bits, and the re-armed timer runs the callback on an empty frame: the last UID gets length 0 and the relay pulses again. The model does not capture bits pushed during the waits or that empty frame, so `timerArmed ==> bitCount > 0` and "at least one byte long" hold only under this atomicity.
- AppWiegand.Wiegand.FrameTimeout: the call to `app_zigbee_report_uid` at `main/app_wiegand.c:133` is not modelled. The Zigbee header declares `app_zb_report_uid` instead, so this call does not reach `AppZigbee.ZigbeeUidAttr.ReportUid`, which is modelled on its own.
- Zigbee stack bring-up, the endpoint and cluster builders, and the attribute-report request in `app_zb_report_uid` are SDK calls and are not modelled.
- Wi-Fi SoftAP setup, HTTP server registration and `main/app_web.c` are network plumbing and are not modelled.
- AppHttp.RootHandler: `snprintf`'s truncation at `body[1024]` is not modelled, and no lemma bounds the page length. The page is a string of characters. The UTF-8 byte length of "Ú" and "—" is not modelled.
- AppHttp.OpenHandler: the relay is not pulsed, exactly as in the source, whose handler only replies.
- C strings are the characters before their NUL. A string with an embedded NUL cannot be expressed.
- Two types are both called `rfid_user_t`, one in `rfid_storage.h` and one in `nvs_storage.h`. Each module uses its own: `User` and `NvsUser`.
- Timestamps are caller-supplied strings. There is no clock.

# WiFiManager captive-portal bootstrap, modelled in Dafny

This project models the bootstrap core of an ESP8266 WiFi manager. At boot
(`autoConnect`), the manager loads its registered configuration parameters
from EEPROM slots. If the stored network name has more than one byte, it
tries to join that network and polls the radio status. Otherwise, or when
the join fails, it opens a configuration portal (`startWebConfig`). The
portal's HTTP loop (`serverLoop`) serves a form with one input per
registered parameter and redirects every other path to itself. When it gets
a request to a path starting with `/s`, it decodes the submitted query,
updates the parameters and writes them all back to EEPROM.

Everything is modelled as functions and heap-free methods over immutable data:

- the EEPROM is a sequence of bytes plus a commit counter;
- a parameter is a datatype;
- the manager is its access point name, EEPROM base offset and parameter list;
- the radio is a sequence of observed statuses;
- the portal's clients are a sequence of request lines.

The modules follow the program's structure:

| module | file | models |
|---|---|---|
| `ByteStrings` | `bytes.dfy` | bytes, `String::indexOf` (a `strchr` that stops at a NUL), the C-string view of a buffer |
| `Parameters` | `parameter.dfy` | `WiFiManagerParameter` and `setValue` (`strlcpy`) |
| `EepromSlots` | `eeprom.dfy` | `getEEPROMString`, `setEEPROMString` |
| `Registry` | `registry.dfy` | `addParameter`, the constructor, `loadParameters`, `saveParameters` |
| `UrlCodec` | `url.dfy` | `urlDecode`, with a form encoder as its inverse partner |
| `Query` | `query.dfy` | `parseQueryString`, `updateParameters` |
| `Portal` | `portal.dfy` | path extraction and routing in `serverLoop`, the `startWebConfig` loop |
| `Bootstrap` | `bootstrap.dfy` | `begin`, `autoConnect`, `waitForConnection` |

Three behaviours of the code are modelled as written, although a reader
might expect otherwise:

- **Incomplete escapes.** In `urlDecode`, a `%` with fewer than two
  characters after it is dropped on its own, and those characters still pass
  through: `%2` decodes to `2`, not to nothing (WiFiManager.cpp:347-356).
- **Commits.** `EEPROM.commit()` runs once per field, not once per save
  (WiFiManager.cpp:265).
- **Overrun.** A slot write can zero the byte just past its slot
  (WiFiManager.cpp:261). `SaveThenLoad` shows that this does not disturb the
  registry round trip. `SaveOverrunsRegion` shows that it can change the
  byte right after the registry's region.

## Model

| member | source | states |
|---|---|---|
| ByteStrings.IndexOf | WiFiManager.cpp:130-131 | A found position holds `c`, and no `c` and no NUL lie between `from` and it; otherwise the result is -1. |
| ByteStrings.IndexOfMissing | WiFiManager.cpp:130-131 | The search fails exactly when `c` is missing from the text between `from` and its first NUL. |
| ByteStrings.CStringAfter | WiFiManager.cpp:130-138 | Past a NUL-free prefix, the C-string view of a buffer is that prefix followed by the C-string view of the rest. |
| ByteStrings.CString | WiFiManager.h:28 | The C-string view of a buffer has no NUL, is no longer than the buffer, and stops at a NUL when it stops early. |
| ByteStrings.CStringIsPrefix | WiFiManager.h:28 | The C-string view is a prefix of the buffer. |
| ByteStrings.CStringOfNoNul | WiFiManager.h:28 | A buffer without NUL bytes is its own C string. |
| Parameters.StrlCopy | WiFiManager.h:28 | `strlcpy` leaves a NUL-free prefix of the source of at most `size - 1` bytes; a shorter copy stopped at a NUL or at the end of the source. |
| Parameters.NewParameter | WiFiManager.h:17-24 | The constructor stores id, name, default value and length as given, and the new parameter is well formed. |
| Parameters.SetValue | WiFiManager.h:26-29 | `setValue` never changes what `getId`, `getName`, `getDefaultValue` and `getLength` return. |
| Parameters.SetValueFits | WiFiManager.h:28 | Whatever the input, the stored value has no NUL and fits in `length - 1` bytes. |
| Parameters.SetValueKeepsLongestFit | WiFiManager.h:28 | The stored value is a prefix of the input. Copying stopped at the buffer's last byte, at a NUL, or at the end of the input. |
| Parameters.SetValueStoresFittingInput | WiFiManager.h:28-34 | A NUL-free input shorter than `length` is stored exactly, so `getValue` returns it. |
| Parameters.SetValueOwnValue | WiFiManager.h:28-34 | `setValue(getValue())` leaves a well-formed parameter unchanged. |
| Parameters.SetValueIdempotent | WiFiManager.h:28 | Setting a parameter's stored value again changes nothing. |
| Parameters.SetValueOverwrites | WiFiManager.h:26-29 | A second `setValue` leaves no trace of the first. |
| EepromSlots.Poke | WiFiManager.cpp:256-261 | An EEPROM write changes only its own address, and a write outside the buffer changes nothing. |
| EepromSlots.ReadFrom | WiFiManager.cpp:233-241 | The read loop stays before the slot end, returns no NUL, and stops at a NUL or at the slot end. |
| EepromSlots.ReadFromContents | WiFiManager.cpp:233-241 | The read loop returns the bytes it passes, in order. |
| EepromSlots.ReadSlot | WiFiManager.cpp:223-243 | A slot reads as a NUL-free string of at most `len - 1` bytes. |
| EepromSlots.ReadSlotUnwritten | WiFiManager.cpp:226-231 | A slot whose marker byte is not 0 reads as empty, whatever its payload. |
| EepromSlots.ReadSlotWritten | WiFiManager.cpp:233-242 | A slot whose marker is 0 reads as its payload bytes, stopping at the first 0 or after `len - 1` bytes. |
| EepromSlots.WriteSlot | WiFiManager.cpp:244-266 | A slot write sets the marker to 0, commits once, and changes no byte outside `[at, at + len]`. |
| EepromSlots.WriteSlotLayout | WiFiManager.cpp:247-264 | The write stores the first `min(|v|, len - 1)` bytes of `v`. A value that fits is followed by its terminator. The byte at `at + len` is zeroed exactly when the write overruns. Bytes after the terminator keep their stale contents. |
| EepromSlots.WriteSlotPast | WiFiManager.cpp:258-262 | The byte just past the slot becomes 0 when the value fills the payload (or is empty in a two-byte slot), and is kept otherwise. |
| EepromSlots.WriteFrom | WiFiManager.cpp:249-264 | The write loop copies value bytes in order, writes a 0 once the value is exhausted, and touches nothing outside the addresses it reaches. |
| EepromSlots.WriteSlotLoop | WiFiManager.cpp:244-265 | The marker-then-loop write sets the marker to 0, stores the first `min(|v|, len - 1)` bytes of `v` after it, and changes no byte outside `[at, at + len]`. |
| EepromSlots.WriteSlotIsLoop | WiFiManager.cpp:244-264 | The statement-by-statement write (marker, then the loop) leaves exactly the bytes of the slot-layout description. |
| EepromSlots.ReadFromLocal | WiFiManager.cpp:233-241 | The read loop depends only on the bytes inside its range. |
| EepromSlots.ReadSlotLocal | WiFiManager.cpp:223-243 | A slot read depends only on the slot's own bytes. |
| EepromSlots.ReadFromRun | WiFiManager.cpp:233-241 | The read loop returns exactly the NUL-free run that ends at a 0 or at the slot end. |
| EepromSlots.WrittenPayload | WiFiManager.cpp:249-264 | After a write, the payload holds the value cut to `len - 1` bytes, then a 0 unless it fills the payload. |
| EepromSlots.ReadSlotOfPayload | WiFiManager.cpp:223-243 | A written slot whose payload starts with NUL-free `w`, ended by 0 or by the slot end, reads as `w`. |
| EepromSlots.SlotRoundTrip | WiFiManager.cpp:223-264 | Reading a slot right after writing a NUL-free value gives the value truncated to `len - 1` bytes, whatever the slot held before. |
| EepromSlots.SlotRoundTripFits | WiFiManager.cpp:223-264 | A NUL-free value shorter than the slot reads back exactly. |
| Registry.AddParameter | WiFiManager.cpp:268-279 | Below capacity, `addParameter` appends `p` at index `_paramsCount` and keeps earlier entries. At capacity, the registry is unchanged. |
| Registry.NewManager | WiFiManager.cpp:6-14 | The constructor starts from count 0 and registers the 32-byte "s" (SSID) and 64-byte "p" (Password) fields, in that order. |
| Registry.AddParameterKeepsValid | WiFiManager.cpp:268-279 | Registering keeps every parameter well formed, keeps the count at most `MAX_PARAMS`, and keeps the reserved fields first. |
| Registry.OffsetNonNegative | WiFiManager.cpp:288-293 | Slot offsets are never negative. |
| Registry.OffsetMonotone | WiFiManager.cpp:288-293 | Slot offsets are non-negative and grow by at least one per slot, since every slot holds at least its marker. |
| Registry.SlotsDisjoint | WiFiManager.cpp:288-293 | Slots are laid out back to back: slot `i` ends no later than slot `j > i` starts. |
| Registry.SlotInRegion | WiFiManager.cpp:286-307 | Each parameter's slot lies inside the registry's region. |
| Registry.SlotStarts | WiFiManager.cpp:288-293 | The load loop visits one offset per remaining parameter. |
| Registry.SlotStartsAt | WiFiManager.cpp:288-293 | The loop's running `pos` at parameter `k` is the sum of the earlier parameters' lengths. |
| Registry.SlotStartsFit | WiFiManager.cpp:288-293 | Every offset the loop visits starts a slot inside the buffer. |
| Registry.SlotStartFits | WiFiManager.cpp:288-293 | The offset the loop visits at parameter `k` starts a slot inside the buffer. |
| Registry.LoadParameters | WiFiManager.cpp:286-296 | Loading keeps the manager's name, base offset and parameter count. |
| Registry.LoadParametersAt | WiFiManager.cpp:289-295 | Loading sets parameter `k` from slot `k`, via `setValue`, and changes nothing else about it. |
| Registry.SaveFrom | WiFiManager.cpp:298-307 | The save loop keeps the buffer size and commits once per remaining parameter. |
| Registry.SaveFromStep | WiFiManager.cpp:301-306 | One save iteration writes slot `i` in place, and the next slot starts right after it. |
| Registry.SaveFromFrame | WiFiManager.cpp:298-307 | The save loop changes no byte before its first slot, and none after the byte that follows the registry's region. |
| Registry.SaveFromKeepsEarlierSlot | WiFiManager.cpp:298-307 | Later writes of the save loop leave an earlier slot's content as it was. |
| Registry.SaveParameters | WiFiManager.cpp:298-307 | `saveParameters` commits once per field and changes no byte outside the region and the one byte after it. |
| Registry.SaveFromPastRegion | WiFiManager.cpp:261 | The byte just past the region is set only by the last slot's write. |
| Registry.SaveFromLastSlot | WiFiManager.cpp:261 | The last slot's write zeroes the byte past the region exactly when it overruns. |
| Registry.SaveOverrunsRegion | WiFiManager.cpp:261 | A save zeroes the byte right after the registry's region exactly when the last value fills its slot (or is empty in a two-byte slot), and keeps it otherwise. |
| Registry.SaveFromReadsBack | WiFiManager.cpp:298-307 | After the save loop, every slot reads back its parameter's value. An overrun only hits the next slot's marker, which that slot's own write sets again. |
| Registry.SaveFromWritesFirst | WiFiManager.cpp:304 | The first slot the loop writes still reads back its value after all later writes. |
| Registry.SlotContentAt | WiFiManager.cpp:291 | Slot `i` of the registry is the slot at the loop's running offset. |
| Registry.SaveThenLoad | WiFiManager.cpp:286-307 | Registry round trip: `saveParameters` then `loadParameters` leaves every parameter unchanged. |
| UrlCodec.StrtolHex | WiFiManager.cpp:351-353 | `strtol` on `0x` and two characters: two hex digits give the byte whose high and low nibbles they name, one leading digit gives its own value, and a non-digit first character gives 0. |
| UrlCodec.HexValue | WiFiManager.cpp:353 | A hexadecimal digit of either case has a value below 16. |
| UrlCodec.Decode | WiFiManager.cpp:339-368 | Decoding never makes the text longer. |
| UrlCodec.UrlDecode | WiFiManager.cpp:339-368 | The index-walking loop computes the decoding rules, and its output is no longer than its input. |
| UrlCodec.DecodeAt | WiFiManager.cpp:345-365 | At each position, a complete escape contributes one byte and skips two more characters. A short `%` contributes nothing. `+` contributes a space. Any other byte contributes itself. |
| UrlCodec.DecodeFirst | WiFiManager.cpp:345-365 | Decoding is the first step's output followed by the decoding of what the step did not consume. |
| UrlCodec.ConcatFirstStep | WiFiManager.cpp:345-365 | When every `%` in `a` has two bytes after it, the first step on `a + b` lies inside `a`. |
| UrlCodec.DecodeConcat | WiFiManager.cpp:345-365 | Decoding distributes over a split that cuts no escape. |
| UrlCodec.DecodePlain | WiFiManager.cpp:361-364 | Text with neither `%` nor `+` passes through unchanged. |
| UrlCodec.DecodeEscape | WiFiManager.cpp:347-355 | `%` followed by two hex digits of either case decodes to the byte they spell. |
| UrlCodec.DecodeShortEscape | WiFiManager.cpp:347-356 | A `%` with fewer than two characters after it is dropped, and those characters pass through. |
| UrlCodec.HexDigit | WiFiManager.cpp:353 | Each value below 16 has a hex digit that parses back to it. |
| UrlCodec.DecodeEncodeByte | WiFiManager.cpp:347-364 | Decoding a form-encoded byte gives that byte back. |
| UrlCodec.DecodeFormEncode | WiFiManager.cpp:339-368 | Form round trip: every byte string a form encoder writes decodes back to itself, NUL and non-ASCII bytes included. |
| UrlCodec.DecodeExampleSpace | WiFiManager.cpp:347-355 | `%20` decodes to a space. |
| UrlCodec.DecodeExamplePlus | WiFiManager.cpp:357-360 | `a+b` decodes to `a b`. |
| UrlCodec.DecodeExamplePercent | WiFiManager.cpp:347-355 | `100%25` decodes to `100%`. |
| UrlCodec.DecodeExampleShort | WiFiManager.cpp:349 | A trailing `%2` decodes to `2`. |
| UrlCodec.DecodeExampleNonHex | WiFiManager.cpp:353 | `%ZZ` decodes to byte 0. |
| Query.QueryPart | WiFiManager.cpp:312-316 | Everything up to and including the first `?` is discarded; the text before it holds no `?` and no NUL. Without a `?` before the first NUL, the whole path is kept. |
| Query.SplitFrom | WiFiManager.cpp:320-324 | The loop visits at least one segment, even for an empty query. |
| Query.SplitFromNoAmpersand | WiFiManager.cpp:320-324 | Every segment but the last holds neither `&` nor NUL; the last holds no `&` before its first NUL. |
| Query.JoinCons | WiFiManager.cpp:320-324 | Gluing a segment onto more segments puts exactly one `&` between them. |
| Query.JoinSplitFrom | WiFiManager.cpp:320-324 | The segments from any position, glued with `&`, give back the rest of the query. |
| Query.JoinSegments | WiFiManager.cpp:320-324 | Splitting on `&` loses nothing: gluing the segments back gives the whole query. |
| Query.ParsePair | WiFiManager.cpp:327-332 | A segment gives a pair exactly when it holds a `=` before its first NUL. The key is the raw, NUL-free text before the first `=`, and the value is the decoding of the rest. |
| Query.PairsOf | WiFiManager.cpp:320-336 | There are no more pairs than segments. |
| Query.PairsOfMembers | WiFiManager.cpp:320-336 | Segments without `=` are skipped: every pair comes from a segment that parses, every segment that parses contributes its pair, and segments none of which parses give no pairs. |
| Query.PairsOfConcat | WiFiManager.cpp:320-336 | The pairs of consecutive segment lists are the pairs of each, in order. |
| Query.Matches | WiFiManager.cpp:374 | For NUL-free key and id, the `strcmp` comparison is plain equality. |
| Query.CStringsOfNoNul | WiFiManager.cpp:374 | Two NUL-free strings are equal as C strings exactly when they are equal. |
| Query.FindParameter | WiFiManager.cpp:372-379 | The search returns -1 or an index at or after where it started. |
| Query.FindParameterFirst | WiFiManager.cpp:372-379 | The search returns -1 exactly when no id matches the key; otherwise it returns the first match. |
| Query.UpdateParameters | WiFiManager.cpp:370-381 | Only the first parameter whose id equals the key (compared as C strings) takes the value. Every other parameter, and every field but the value, is unchanged. |
| Query.UpdateUnmatched | WiFiManager.cpp:370-381 | A key that matches no id changes nothing. |
| Query.UpdateKeepsValid | WiFiManager.cpp:376 | An update keeps every parameter well formed. |
| Query.ApplyPairs | WiFiManager.cpp:320-336 | Applying pairs changes only values, never ids, names, defaults or lengths. |
| Query.ApplyPairsConcat | WiFiManager.cpp:320-336 | Pairs are applied left to right: applying `a + b` means applying `a`, then `b`. |
| Query.FirstMatchSameShape | WiFiManager.cpp:374 | Which parameter a key picks out depends only on the ids. |
| Query.ApplyPairsUntouched | WiFiManager.cpp:370-381 | A parameter that no key picks out keeps its value. |
| Query.ApplyPairsLastWins | WiFiManager.cpp:320-336 | The last pair whose key picks out a parameter decides its value. |
| Query.ApplyQuery | WiFiManager.cpp:309-337 | Parsing a query changes only values, so the EEPROM layout (the total length) does not move. |
| Query.SameShapeOffsets | WiFiManager.cpp:288-305 | Registries with the same lengths have the same slot offsets. |
| Query.ApplyPairsKeepsValid | WiFiManager.cpp:309-337 | Applying a query keeps a well-formed registry well formed. |
| Query.ApplySegment | WiFiManager.cpp:327-335 | One segment changes only values, and changes nothing when it holds no `=` before its first NUL. |
| Query.ApplySegmentsCons | WiFiManager.cpp:320-336 | A segment list's effect is the first segment's effect, then the rest's. |
| Query.SegmentEnd | WiFiManager.cpp:322 | The result is a position at or after the segment start that holds `&`, or -1 exactly when no `&` comes before the first NUL after the start. |
| Query.NextPos | WiFiManager.cpp:324 | The loop's next position is past the current one, or -1 to stop. |
| Query.SplitFromCons | WiFiManager.cpp:322-324 | The segments from a position are the segment there, then the segments after the next `&`, if any. |
| Query.RemainingStep | WiFiManager.cpp:320-336 | One turn of the parsing loop applies one segment and leaves the rest to later turns. |
| Query.ApplyToken | WiFiManager.cpp:327-335 | The loop body splits at the first `=`, decodes the value, and updates the registry, exactly as that segment's effect. |
| Query.ParseQueryString | WiFiManager.cpp:309-337 | The parsing loop applies the query's pairs in order. |
| Portal.ExtractPath | WiFiManager.cpp:130-138 | There is no path exactly when the line, read up to its first NUL, has fewer than two spaces. Otherwise the path is the NUL- and space-free text between the first two spaces. |
| Portal.TwoSpacesFound | WiFiManager.cpp:130-132 | Both space searches succeed exactly when the line, read up to its first NUL, holds two spaces. |
| Portal.SpaceThen | WiFiManager.cpp:131 | After text whose only space is its last byte, a second space exists exactly when the rest holds one. |
| Portal.ExtractPathOfLine | WiFiManager.cpp:128-138 | A line `<verb> <path> <rest>` with a space- and NUL-free verb and path yields that path. |
| Portal.NulEndsRequestLine | WiFiManager.cpp:130-137 | A NUL before the second space ends the search: `GET /s`, NUL, ` H` has no path, so the loop waits. |
| Portal.IsRoot | WiFiManager.cpp:143 | `path == "/"` holds exactly for `/` followed by nothing or by a NUL. |
| Portal.CStringIsSlash | WiFiManager.cpp:143 | A buffer reads as the C string `/` exactly when it is `/` followed by nothing or by a NUL. |
| Portal.IsSavePath | WiFiManager.cpp:190 | A path starting with `/s` is never `/`, so the order of the two routing tests does not matter. |
| Portal.FormFields | WiFiManager.cpp:174-182 | The form has one input per registered parameter, in order, carrying its id, name and length, and pre-filled with its default value. |
| Portal.SaveEffect | WiFiManager.cpp:190-207 | A save applies the query, writes every parameter, commits once per parameter, answers with the saved page, and returns `WM_DONE`. |
| Portal.ServerStep | WiFiManager.cpp:111-221 | The loop returns `WM_DONE` exactly for a save request. `WM_WAIT` leaves parameters and EEPROM unchanged. |
| Portal.ServerStepResponse | WiFiManager.cpp:115-207 | A missing or malformed request line gets no answer. `/` gets the form. A save request gets the saved page. |
| Portal.OtherPathsRedirect | WiFiManager.cpp:208-220 | Every other path gets a redirect, with `WM_WAIT` and nothing changed. |
| Portal.RunFrom | WiFiManager.cpp:93-96 | The portal loop ends on a save request with that save's state, or keeps waiting with nothing changed. |
| Portal.NoSaveInAll | WiFiManager.cpp:93-96 | Checking request by request for a save request agrees with checking the whole range. |
| Portal.RunFromFirstSave | WiFiManager.cpp:93-96 | The loop keeps waiting exactly when no save request is left, and it stops at the first one. |
| Portal.RunPortal | WiFiManager.cpp:93-96 | Requests before the first save request change nothing, and the first one decides the outcome. |
| Bootstrap.FirstConnected | WiFiManager.cpp:63-74 | This is the first of the 20 polls that reports a connection, or 20 when none does. |
| Bootstrap.WaitForConnection | WiFiManager.cpp:61-78 | The wait returns true exactly when one of the first 20 polls reports a connection. The waiting time is 500 ms per failed poll before that. |
| Bootstrap.FirstConnectedAt | WiFiManager.cpp:63-70 | A connected poll with no connected poll before it is the one the wait stops at. |
| Bootstrap.Begin | WiFiManager.cpp:16-20 | `begin` records the EEPROM base offset and changes nothing else. |
| Bootstrap.AutoConnect | WiFiManager.cpp:32-59 | Boot always loads the parameters first. It joins exactly when the stored SSID is longer than one byte and a poll reports a connection, passing the stored SSID and password. It tries a join exactly when the SSID is longer than one byte. |
| Bootstrap.AutoConnectReadsSsidSlot | WiFiManager.cpp:41-45 | The SSID used at boot is the content of the reserved `s` slot, cut to 31 bytes. |
| Bootstrap.SameShapeSlots | WiFiManager.cpp:286-296 | Registries with the same lengths read the same slots. |
| Bootstrap.SameShapeLoad | WiFiManager.cpp:286-296 | Loading into registries with the same fields gives each parameter the same value. |
| Bootstrap.NextBootLoadsSaved | WiFiManager.cpp:286-307 | What one registry saves, a registry with the same fields loads back, parameter for parameter. |
| Bootstrap.PortalSettingsSurviveReboot | WiFiManager.cpp:190-207 | After the portal saves, the next boot's `loadParameters` restores exactly the parameters the portal left. |

## Left out

- Radio, DNS, web server and client calls (`WiFi.*`, `dns.*`, `server.*`, `client.*`) are not modelled; they are drivers. The radio is replaced by the sequence of statuses its polls report. A client is replaced by its first request line, or by none when no client is waiting.
- Waiting for client data and reading the line up to `\r` are not modelled; the line is taken as given.
- `Serial` logging, `delay` and `ESP.reset` are left out because they have no effect on the modelled state. `WaitForConnection` reports the pause time it would spend instead of waiting.
- `EEPROM.begin` is left out: the buffer is given with its size (`EEPROM_SIZE` is 512 bytes). `EEPROM.commit` only increments a counter.
- The HTML text of the pages, the `{v}` substitution and the network scan list are left out. The config page is modelled by its title (the access point name) and its list of input fields.
- `strtol` is modelled only for the two-character `0x..` strings `urlDecode` builds: it parses the longest run of hex digits, so `%ZZ` gives 0 and `%4Z` gives 4.
- The default `WiFiManagerParameter()` constructor, which builds and discards a temporary, and the copy assignment of the reserved parameters are C++ object-lifetime details. A new parameter's buffer is uninitialised in the source; the model starts it as the empty string until the first load. Likewise the constructor leaves `_eepromStart` unset until `begin` (WiFiManager.cpp:6-20); `NewManager` starts it at 0, and `AutoConnect` always calls `Begin` before using it.
- `getParameters`, `begin()` and `autoConnect()` with no argument are not modelled separately. The first just exposes the list; the others are the one-argument versions with base offset 0.
- `startConfigMode` is modelled only as the portal loop, through `RunPortal`. Raising the soft access point and the reset afterwards are drivers.
- Parameters.NewParameter: requires `length >= 1`. With length 0, the C++ allocates an empty buffer that `strlcpy` never terminates, and the slot code reads and writes the next slot's marker, so the value is undefined. The same bound is part of every registry invariant.
- EepromSlots.ReadSlot: requires the slot to lie inside the buffer. The ESP8266 EEPROM class would read 0 outside it; every registry operation here requires the whole region to fit. Writes just past the buffer's end are modelled as dropped, as that class does.
- Bootstrap.WaitForConnection: requires at least 20 observations, one per poll the loop can make.
- Bootstrap.AutoConnect: returns the SSID and password it would pass to `WiFi.begin` instead of calling the radio.
- Registry.AddParameter: each registration is a distinct parameter object. Registering the same object twice, so that two entries share one value buffer and `loadParameters` or `updateParameters` changes both, is not modelled.
- ByteStrings.IndexOf: requires a search byte other than NUL; the firmware only searches for space, `?`, `&` and `=`.
- `String::substring` copies NUL bytes like any other byte, and the model does the same. A value reaches a parameter through `setValue`, which cuts it at its first NUL.
- Integer widths are left out: offsets and lengths are unbounded integers. In the source they are `int` and cannot overflow while the region fits in 512 bytes.

# ConfigManager provisioning core in Dafny

This project models the provisioning core of the `ConfigManager` firmware library. The
library is for ESP8266/ESP32 boards. On boot it reads a small persistent record from the
emulated EEPROM:
- a 2-byte marker `'C','M'`;
- a fixed-width SSID field and a fixed-width password field;
- an opaque application-settings blob.

It then tries to join the stored network. It falls back to a self-hosted access point
(provisioning mode) with a captive portal. It serves a small HTTP API that:
- stores credentials;
- clears credentials;
- updates the settings blob through a registry of parameter groups.

The repository holds two divergent drafts of the class, and both are modelled side by side.
- `src/WiFiConfig.cpp` is the current draft (ArduinoJson 6).
- `src/ConfigManager.cpp` is an older draft (ArduinoJson 5).

The drafts differ in their boot decision, their credential write order, their `loop` and
their group schema.

Modules, one per component:

| file | module | what it holds |
|---|---|---|
| `wrappers.dfy` | `Wrappers` | `Option` |
| `eeprom.dfy` | `Eeprom` | RAM image and flash of the emulated EEPROM; `EEPROM.put`/`commit` traces; `strncpy`; `readConfig`/`writeConfig` as loops |
| `record.dfy` | `Record` | record layout, marker test, every write path of both drafts as a trace, and what a boot reads back after each |
| `radio.dfy` | `Radio` | `wifiConnected`: the bounded status poll over an oracle of radio answers |
| `machine.dfy` | `Machine` | mode, `startAP`/`startApi`, both drafts' `loop` over a wrapping 32-bit `millis()` |
| `boot.dfy` | `Boot` | both drafts' `setup` as functions from what the device finds to what it leaves |
| `json.dfy` | `JsonValues` | an abstract JSON value with ordered object members; `decodeJson` |
| `groups.dfy` | `ParameterGroups` | `ConfigParameterGroup::toJson`/`toJsonSchema`/`fromJson` and the registry loops |
| `captive.dfy` | `Captive` | `isIp`, `toStringIP` and an inverse parser for dotted quads |
| `handlers.dfy` | `Handlers` | the HTTP handlers' decisions: status code, storage trace, restart flag |

Modelling choices:
- **The layout is a value.** The header that defines `MAGIC_LENGTH`, `SSID_LENGTH`,
  `PASSWORD_LENGTH`, `WIFI_OFFSET`, `CONFIG_OFFSET` and `configSize` is not part of this
  model, so these become fields of a `Layout`.
- **The two offset names are kept apart.**
  - The credential writer uses `MAGIC_LENGTH` and `MAGIC_LENGTH + SSID_LENGTH`.
  - The readers and the disconnect path use `WIFI_OFFSET` and `WIFI_OFFSET + 32`.
  - `Record.Consistent` states that the two agree. It is a precondition only of the
    lemmas that read a credential write back.
- **Writes are traces.** Every write path is a sequence of `Put`/`Commit` operations over
  a RAM image plus flash. This keeps the marker-first and marker-last orders visible
  (`Record.MarkerLast`).
- **Uninitialised buffers are inputs.** The stack buffers that the marker-mismatch branch
  of `setup` never initialises are arbitrary inputs, not zeros.
- **The radio and the clock are inputs.**
  - The radio is an oracle `nat -> WlStatus`, indexed by the number of the `WiFi.status()`
    call.
  - `millis()` is a 32-bit unsigned input. Its subtraction wraps explicitly.
- **Restart is a flag.** `ESP.restart()` is a boolean in each handler's `Effect`.
- **Leaf parameters are abstract.** They are values of a type parameter, and their three
  virtual methods are supplied as a `Leaf<P>`.

Behaviour of the code that the model keeps:
- **`handlePostSettings` does not restart.** The code answers 204 after `writeConfig`
  and no restart follows.
- **DELETE `/settings` does not erase the marker.** It rewrites the valid marker (see
  Findings).
- **The current `loop` never restarts.** Its restart is commented out. Only the older
  draft's `loop` restarts when the provisioning session times out.
- **The older draft's `setup` never writes storage.** The current draft writes a fresh
  record on a marker mismatch.
- **The older draft's `handleAPPost` is routed at `POST /settings/`.** It does the
  credential write, not a settings update.

## Model

| member | source | states |
|---|---|---|
| Eeprom.PutBytesCells | src/WiFiConfig.cpp:250-251 | after `EEPROM.put(addr, buf)` the cells `addr ..` hold the buffer and every other cell keeps its old value |
| Eeprom.NoCommitKeepsFlash | src/WiFiConfig.cpp:603-606 | a trace of puts with no commit leaves flash as it was, whatever it wrote to the RAM image |
| Eeprom.ApplyPutsCommit | src/WiFiConfig.cpp:603-606 | a trace closed by `EEPROM.commit()` leaves flash equal to the RAM image its puts produced |
| Eeprom.TornWriteInvisible | src/WiFiConfig.cpp:250-252 | no proper prefix of a puts-then-commit trace changes flash, so a reset between two driver calls of a write path loses the whole write |
| Eeprom.StrNCpyCells | src/WiFiConfig.cpp:243-244 | `strncpy(dst, src, n)`: cell i of the destination is source byte i while i is before the source's first NUL, and NUL from there to n |
| Eeprom.StrNCpyReadBack | src/ConfigManager.cpp:185-186 | a C reader of a `strncpy`'d field gets the source string when it is shorter than the field, and otherwise the first n bytes with no terminator; a NUL is present exactly when the source is shorter |
| Eeprom.ReadConfig | src/WiFiConfig.cpp:612-620 | `readConfig` copies `configSize` bytes: byte i of the blob is storage cell `CONFIG_OFFSET + i` |
| Eeprom.WriteConfig | src/WiFiConfig.cpp:626-635 | `writeConfig` changes exactly the cells `CONFIG_OFFSET ..` to the blob, leaves every other cell alone, commits, and agrees with its trace `[Put, Commit]` |
| Record.Marker | src/WiFiConfig.cpp:5 | `magicBytes` is `MAGIC_LENGTH` long and starts with `'C','M'` |
| Record.StoreWifiSettingsOps | src/WiFiConfig.cpp:232-256 | before `begin` nothing is written; otherwise the credentials, `strncpy`'d to their field widths, go to `MAGIC_LENGTH` and `MAGIC_LENGTH + SSID_LENGTH`, every credential write is followed by a marker write, and the trace ends with a commit |
| Record.CommitChangesOps | src/WiFiConfig.cpp:603-606 | `commitChanges` rewrites the marker at 0 and then commits |
| Record.DisconnectOps | src/WiFiConfig.cpp:297-307 | the disconnect trace fits in storage, ends with a commit, and writes a credential field after the last marker write |
| Record.DeleteSettingsOps | src/WiFiConfig.cpp:388-389 | the delete trace as written touches neither credential nor blob and ends with a commit |
| Record.DeleteSettingsClearedOps | src/WiFiConfig.cpp:388-389 | the corrected delete trace touches neither credential nor blob and ends with a commit |
| Record.FirstBootOps | src/WiFiConfig.cpp:473-478 | the first-boot trace fits in storage, ends with a commit, and writes a credential field after the last marker write |
| Record.DraftApPostOps | src/ConfigManager.cpp:185-191 | the older draft's credential trace fits in storage, ends with a commit, and writes a credential field after the last marker write |
| Record.StoreWifiSettingsReadBack | src/WiFiConfig.cpp:243-252 | when the two offset names agree, the next boot finds a valid marker, the `strncpy`'d SSID and password in the fields it reads, and the blob unchanged |
| Record.DraftApPostReadBack | src/ConfigManager.cpp:185-191 | after the older draft's write, the boot finds a valid marker, the SSID and password `strncpy`'d to 32 and 64 bytes, and the blob unchanged |
| Record.DisconnectReadBack | src/WiFiConfig.cpp:297-307 | after a disconnect the record is still marked valid, both credential fields are zero and the blob is unchanged |
| Record.FirstBootReadBack | src/WiFiConfig.cpp:473-478 | after the marker-mismatch branch the record is marked valid and holds exactly the two stack buffers and the in-memory blob |
| Record.DeleteSettingsReadBack | src/WiFiConfig.cpp:386-389 | after DELETE `/settings` as written the marker still matches and every cell past the marker keeps its value |
| Record.DeleteSettingsClearedReadBack | src/WiFiConfig.cpp:386-389 | with the empty marker the record no longer matches, and every cell past the marker keeps its value |
| Record.WriteConfigReadBack | src/WiFiConfig.cpp:626-635 | after `writeConfig` the blob field holds the new blob, while the marker state and both credential fields are unchanged |
| Radio.Poll | src/WiFiConfig.cpp:426-443 | the wait from poll i reports connected iff some poll with index in `[i, retries)` sees `WL_CONNECTED`; it stops at the first such poll and counts one delay per miss |
| Radio.WifiConnected | src/WiFiConfig.cpp:421-444 | `wifiConnected` returns true iff a poll with index below `wifiConnectRetries` sees `WL_CONNECTED`; it makes at most that many polls and delays, none when retries is not positive, and stops at the first connected poll |
| Machine.StartAP | src/WiFiConfig.cpp:552-579 | `startAP` enters provisioning mode, starts the DNS responder and records `apStart = millis()`, keeping the timeout |
| Machine.StartApi | src/WiFiConfig.cpp:587-589 | `startApi` enters application mode and changes nothing else |
| Machine.Elapsed | src/WiFiConfig.cpp:63 | `millis() - apStart` is the plain difference when the counter has not wrapped and adds 2^32 when it has |
| Machine.LoopCurrent | src/WiFiConfig.cpp:61-77 | the current `loop` never restarts; it pumps DNS and the web server exactly when they exist |
| Machine.LoopDraft | src/ConfigManager.cpp:69-85 | the older `loop` restarts iff in provisioning mode with timeout T > 0 and at least (T + 1) * 1000 ms elapsed, which is the strict whole-second comparison; a restarting tick pumps nothing, any other tick pumps the DNS responder and the web server exactly when they exist |
| Machine.ElapsedAcrossWrap | src/ConfigManager.cpp:71 | the unsigned elapsed time is exact across a counter wrap, for sessions shorter than 2^32 ms |
| Machine.TimeoutOutOfRange | src/ConfigManager.cpp:71 | a timeout of 4294967 s or more never fires |
| Boot.JoinFor | src/WiFiConfig.cpp:484-486 | the current draft joins iff the SSID buffer's first byte is not NUL, passing the raw buffers and a NULL password iff the password buffer starts with NUL |
| Boot.DraftJoin | src/ConfigManager.cpp:296 | the older draft's `WiFi.begin` passes the SSID buffer and a NULL password iff the password buffer starts with NUL |
| Boot.SetupCurrent | src/WiFiConfig.cpp:450-506 | marker match: no writes, fields and blob read at `WIFI_OFFSET`/`+32`/`CONFIG_OFFSET`; mismatch: first-boot trace with the raw buffers; join per `JoinFor`, the wait's outcome per `wifiConnected`; any non-connected final status gives provisioning mode with timeout 0; the web server always starts |
| Boot.SetupDraft | src/ConfigManager.cpp:279-319 | the older `setup` never writes, always loads the blob, joins iff the marker matches (even with an empty SSID), and is in provisioning mode afterwards iff the marker mismatched or it was already there and the join failed |
| Boot.SetupCurrentZeroed | src/WiFiConfig.cpp:452-454 | with zeroed buffers, a marker mismatch attempts no join |
| Boot.CurrentLateConnectionKeepsMode | src/WiFiConfig.cpp:490-502 | a connection that only appears on the status call after the wait makes `setup` run neither `startApi` nor `startAP` |
| Boot.DraftFailedJoinStaysOutOfAp | src/ConfigManager.cpp:294-316 | with a valid record and a failed join the older draft starts no access point and leaves the mode as it was |
| Boot.DraftsDisagreeOnEmptySsid | src/ConfigManager.cpp:294-296 | on a valid record whose SSID starts with NUL the older draft calls `WiFi.begin` and the current one does not |
| Boot.FirstBootPersistsGarbage | src/WiFiConfig.cpp:471-486 | as written, a first boot whose SSID buffer holds a non-NUL byte joins with that garbage and commits it under a valid marker, so later boots join with it again |
| Boot.FreshDeviceProvisions | src/WiFiConfig.cpp:471-502 | with zeroed buffers a first boot attempts no join, commits a valid record with an empty SSID and the blob, enters provisioning mode with timeout 0, and later boots attempt no join either |
| JsonValues.SetMember | src/ConfigParameterGroup.cpp:17-26 | `getOrAddMember(key).set(v)`: afterwards `key` maps to v, every other key keeps its value, and a member is added only when the key was absent |
| JsonValues.DecodeJson | src/WiFiConfig.cpp:94-112 | `decodeJson`: an empty body, a parse error or a non-object document gives the empty object; otherwise the parsed object |
| ParameterGroups.ParamsToJsonInOrder | src/ConfigParameterGroup.cpp:8-12 | parameters' `toJson` run in list order: the last one runs on what the others built |
| ParameterGroups.GroupToJson | src/ConfigParameterGroup.cpp:5-13 | `toJson` binds the group name to the object its parameters build, leaves every other key alone, and adds at most one member |
| ParameterGroups.RegistryToJsonKeepsOtherKeys | src/WiFiConfig.cpp:345-349 | in the document the registry loop fills, when it is a bound object, keys no group is named after keep their value |
| ParameterGroups.RegistryToJsonHoldsEveryGroup | src/WiFiConfig.cpp:345-349 | in the document the registry loop fills, when it is a bound object, each group's name holds that group's object unless a later group shares the name |
| JsonValues.Serialized | src/WiFiConfig.cpp:353 | `serializeJson` of a reference writes `null` exactly for a null reference, and the object's members otherwise |
| ParameterGroups.GroupToJsonAt | src/ConfigParameterGroup.cpp:5-13 | `toJson` through a reference: a null reference stays null and nothing is written; a bound one gets `GroupToJson` |
| ParameterGroups.RegistryToJsonAt | src/WiFiConfig.cpp:345-349 | the registry loop leaves a null reference null whatever the registry holds, and fills a bound one with the registry's document |
| Handlers.HandleGetSettings | src/WiFiConfig.cpp:340-355 | as written, the GET `/settings` body is `null` for every registry, because the loop writes through `as<JsonObject>()` of an empty document |
| Handlers.HandleGetSettingsObject | src/WiFiConfig.cpp:340-355 | starting from a bound empty object, the body is an object where each group that is the last with its name holds its parameters' object, and no key outside the group names occurs |
| Handlers.GetSettingsAnswersNull | src/WiFiConfig.cpp:342-349 | for every non-empty registry the as-written body is `null` and differs from the intended one, which reports the last group's parameters |
| ParameterGroups.ParamSchemas | src/ConfigParameterGroup.cpp:31-37 | the params array has one entry per parameter, and entry i is parameter i's schema |
| ParameterGroups.GroupSchema | src/ConfigParameterGroup.cpp:15-38 | schema: `"name"` always; `"label"` iff metadata; `"description"` iff metadata with a non-NULL description; `"params"` per parameter in order; nothing else |
| ParameterGroups.DraftGroupSchema | src/ConfigManager.cpp:10-22 | older schema: exactly `"name"`, `"label"` (null for a NULL label) and `"params"` per parameter in order |
| ParameterGroups.DraftSchemaVersusCurrent | src/ConfigManager.cpp:10-22 | the two schemas agree for metadata without a description; without metadata only the older one emits `"label"` |
| ParameterGroups.RegistrySchema | src/WiFiConfig.cpp:323-328 | the schema array has one entry per group, in registry order |
| ParameterGroups.GroupObject | src/ConfigParameterGroup.cpp:42 | the group's object is present iff the document binds the group name to an object |
| ParameterGroups.ParamsFromJson | src/ConfigParameterGroup.cpp:51-55 | every parameter's `fromJson` reads the same group object, in list order |
| ParameterGroups.GroupFromJson | src/ConfigParameterGroup.cpp:40-57 | `fromJson` changes nothing unless the name is bound to an object; then parameter i becomes its `fromJson` of that object; name and metadata never change |
| ParameterGroups.GroupFromJsonReadsOnlyItsKey | src/ConfigParameterGroup.cpp:42-47 | two documents that agree on the group's key have the same effect on the group |
| ParameterGroups.GroupFromJsonIdempotent | src/ConfigParameterGroup.cpp:40-57 | with idempotent leaves, applying a document twice to a group is applying it once |
| ParameterGroups.RegistryFromJson | src/WiFiConfig.cpp:372-376 | the settings loop applies each group's `fromJson` to the same document, in registry order |
| ParameterGroups.PartialDocumentTouchesOnlyNamedGroups | src/WiFiConfig.cpp:372-376 | a group the document does not name keeps its parameters, and every group is updated from its own member only |
| ParameterGroups.RegistryFromJsonIdempotent | src/WiFiConfig.cpp:372-376 | with idempotent leaves, applying a document twice to the registry is applying it once |
| Captive.IsIp | src/WiFiConfig.cpp:643-654 | `isIp` is true iff every character is a dot or an ASCII digit (so the empty string passes) |
| Captive.IsIpAcceptsNonAddresses | src/ConfigManager.cpp:403-414 | `isIp` accepts `""`, `"..."` and `"999.1"`, none of which is a dotted quad |
| Captive.DecimalRoundTrip | src/WiFiConfig.cpp:667 | `String(unsigned)` digits read back as the number |
| Captive.OctetsRebuild | src/WiFiConfig.cpp:665-669 | the four `(ip >> 8i) & 0xFF` octets determine the address |
| Captive.ToStringIP | src/WiFiConfig.cpp:662-671 | `toStringIP` yields exactly the rendering `FormatIp`: octet 0 first, each octet in decimal with no leading zero; that text is 7 to 15 characters, passes `isIp` and parses back to the same address |
| Captive.FormatIpLength | src/ConfigManager.cpp:416-425 | the rendered address is 7 to 15 characters long: four octets of one to three digits and three dots |
| Captive.FormatIpRoundTrip | src/ConfigManager.cpp:416-425 | the rendering passes `isIp` and parses back to the address |
| Captive.FormatIpInjective | src/ConfigManager.cpp:416-425 | distinct addresses render differently |
| Captive.DecimalOfDigits | src/ConfigManager.cpp:421 | a digit string with no leading zero is the `String(unsigned)` rendering of its value |
| Captive.ParseIpCanonical | src/ConfigManager.cpp:416-425 | the only text that parses to an address as a dotted quad is that address's rendering, so the rendering and the strict parse are inverse both ways |
| Handlers.HandlePostConnect | src/WiFiConfig.cpp:263-289 | empty SSID iff 400, and then no write or restart; otherwise 204 and restart, with a marker-last committed trace iff storage was initialised |
| Handlers.ConnectThenBoot | src/WiFiConfig.cpp:279-289 | after an accepted connect the next boot reads a valid record, keeps the blob, and joins iff the SSID's first byte is not NUL, with the `strncpy`'d credentials and a NULL password iff the password is empty |
| Handlers.ConnectBeforeBeginIsLost | src/WiFiConfig.cpp:237-241 | before `begin` a connect request still answers 204 and restarts, but storage is unchanged |
| Handlers.HandlePostDisconnect | src/WiFiConfig.cpp:295-313 | disconnect always answers 204, writes the disconnect trace and restarts |
| Handlers.DisconnectThenBoot | src/WiFiConfig.cpp:303-307 | after a disconnect the next boot writes nothing, attempts no join, keeps the blob, and enters provisioning mode with timeout 0 unless the radio reports a connection |
| Handlers.HandleAPPost | src/ConfigManager.cpp:158-196 | older handler: empty SSID iff 400 with no write; otherwise 204, restart, and a committed trace that writes a credential field after the last marker write |
| Handlers.APPostThenDraftBoot | src/ConfigManager.cpp:185-195 | after the older handler the older boot joins with the SSID and password `strncpy`'d to 32 and 64 bytes and keeps the blob |
| Handlers.HandleDeleteSettings | src/WiFiConfig.cpp:386-395 | DELETE `/settings` as written answers 204, writes the valid marker and restarts |
| Handlers.DeleteThenBootKeepsSettings | src/WiFiConfig.cpp:386-395 | as written, a boot after DELETE `/settings` behaves exactly as one before it |
| Handlers.HandleDeleteSettingsCleared | src/WiFiConfig.cpp:386-395 | the corrected delete answers 204, writes the empty marker and restarts |
| Handlers.DeleteClearedThenBootStartsFresh | src/WiFiConfig.cpp:386-395 | after the corrected delete the marker no longer matches and the next boot takes the first-run path |
| Handlers.HandlePostSettings | src/WiFiConfig.cpp:361-381 | 400 iff the body is empty or does not parse, and then no group change, write or restart; otherwise every group's `fromJson` runs on the decoded object, `writeConfig` writes the updated groups' blob, 204, no restart |
| Handlers.PostSettingsThenBoot | src/WiFiConfig.cpp:372-380 | after an accepted settings update the next boot loads the new blob and makes the same join decision as before |
| Handlers.PostSettingsLeavesUnnamedGroups | src/WiFiConfig.cpp:372-376 | groups the accepted document does not name keep their parameters |
| Handlers.HandleNotFound | src/WiFiConfig.cpp:401-413 | a non-address `Host` gets 302 with `Location` exactly `http://` plus the rendering of the local address, which parses back to it; an address gets 404 with no location; the connection is closed either way |
| Handlers.RedirectDoesNotLoop | src/ConfigManager.cpp:240-252 | a client that follows the redirect sends an address as `Host` and gets 404, not another redirect |

## Left out

- Radio driver calls (`WiFi.mode`, `softAP`, `softAPConfig`, `setHostname`, `config`), the DNS server and the web server's routing, header collection and file streaming: only their effect on the mode, the DNS and server flags and `apStart` is kept; the radio's answers are an oracle.
- `handleGetRoot` and `handleAPGet`: file-system I/O only.
- `handleGetWifi`, `handleGetWifiScan` and the scan throttle: they report radio state and decide nothing the model follows.
- `handleReboot`, `save` and the setters: one-line wrappers around a restart, `writeConfig` or a field assignment.
- `Serial` logging and `delay`: no effect on the modelled state. The wait counts its delays instead of waiting.
- `ESP.restart()`: a flag in the handler's effect or the loop tick rather than a reset of the model. It does not return: nothing after it in a handler or a tick is modelled as running.
- Argument extraction in `handlePostConnect` and `handleAPPost` (form field versus JSON body): the handlers receive the SSID and password bytes already extracted.
- ArduinoJson internals: the 512-byte document capacity, the parser itself (an input `string -> Option<Json>`), and the serialiser.
- The object `decodeJson` returns refers to a document that has already been destroyed. The model gives the object the document evidently means (`JsonValues.DecodeJson`).
- `handlePostSettings` parses the body twice. The model parses once and uses that result both for the 400 decision and for the groups.
- ParameterGroups.RegistryToJsonKeepsOtherKeys, ParameterGroups.RegistryToJsonHoldsEveryGroup: they describe the registry loop on a bound object. GET `/settings` as written starts from a null reference and answers `null` (`Handlers.HandleGetSettings`, see Findings), so these two describe the corrected handler `Handlers.HandleGetSettingsObject`, not the body the source sends.
- The leaf parameter classes: their `toJson`, `toJsonSchema` and `fromJson` are not part of this model and are supplied abstractly. Nested groups and write-only filtering do not occur in the code modelled.
- `src-js/lib/api.js`: client URL constants with no logic.
- Route registration in `startWebServer`: mechanical wiring; `Machine.StartWebServer` keeps only "the server exists".
- The header that defines the layout constants is not part of this model: they are fields of `Record.Layout` with their relations as explicit preconditions.
- `EEPROM.commit()`'s return value, which `storeWifiSettings` only logs: a commit always succeeds here.
- Eeprom.TornWriteInvisible: `EEPROM.commit()` is modelled as one atomic copy of the RAM image to flash. A reset during the flash erase or program inside a commit is not modelled, so the lemma covers only a reset between two driver calls. That case is where the marker-first orders of `Record.DisconnectOps`, `Record.FirstBootOps` and `Record.DraftApPostOps` would matter.
- `Radio.WifiConnected`: `wifiConnectRetries` is a C `int`; the model takes an unbounded integer, which agrees with the source for every `int` value.
- `Boot.SetupCurrentZeroed`: states only the first-run join decision of the corrected boot; the rest of its behaviour is that of `Boot.SetupCurrent`, and `Boot.FreshDeviceProvisions` states it in full.

## Findings

| source | as written | input that shows it | evidently intended | confidence | as-written member | corrected member |
|---|---|---|---|---|---|---|
| src/WiFiConfig.cpp:388 | DELETE `/settings` writes `magicBytes`, the valid marker, so nothing is cleared | any stored record with a valid marker: the boot after the delete equals the boot before it | write `magicBytesEmpty`, so the next boot treats the record as absent and takes the first-run path | high, not executed | Handlers.DeleteThenBootKeepsSettings | Handlers.DeleteClearedThenBootStartsFresh |
| src/WiFiConfig.cpp:453-454 | on a marker mismatch the never-initialised `ssid` and `password` stack buffers are committed under a valid marker and passed to `WiFi.begin` | blank storage and an SSID buffer whose first byte is not NUL: the device tries to join a network named by stack garbage, and so does every later boot | zero-initialise both buffers (as `handlePostDisconnect` does), so a fresh device attempts no join and enters provisioning mode | medium, not executed | Boot.FirstBootPersistsGarbage | Boot.FreshDeviceProvisions |
| src/WiFiConfig.cpp:343 | GET `/settings` fills `jsonBuffer.as<JsonObject>()` of an empty `DynamicJsonDocument`, a null reference: every `createNestedObject` through it fails | any registry with at least one group: the body is `null` instead of an object holding the groups | start from `jsonBuffer.to<JsonObject>()`, so the groups' `toJson` fill a real object | medium, not executed | Handlers.GetSettingsAnswersNull | Handlers.HandleGetSettingsObject |

# Smart-relay server core, modelled in Dafny

This project models the logic of an Express/Prisma server that drives
ESP32 smart relays. Devices register, poll every 30 seconds for a queued
relay command and for news of a newer schedule, and report their status.
Administrators publish versioned rule sets ("schedules"). Each publication
is compiled into an "edge list", the relay transitions over the next
fourteen days. The older in-memory API is also covered: one relay boolean
and one rule list guarded by a duplicate-window check.

The database is an immutable `Store` of three maps (devices, schedules and
edge lists) keyed by row id. Every service call is a function from the
store and its inputs to a `Step`: the new store plus either a result or an
error. Timestamps are integer milliseconds, and the current time is a
parameter. Ids the database or `crypto` would invent are also parameters;
the database's id parameters carry a freshness precondition.

Module layout, following the program:

| file | module | models |
|---|---|---|
| wrappers.dfy | `Wrappers` | `Option`, `Result` |
| errors.dfy | `Errors` | the errors the services throw, with their messages, and the two the database raises |
| text.dfy | `Text` | JavaScript `trim`, ASCII case-insensitive `contains`, integer printing, code-point string order |
| sorting.dfy | `Sorting` | a stable sort for any total preorder, for `Array.prototype.sort` and `orderBy` |
| clock.dfy | `Clock` | the two `HH:MM` regular expressions |
| core_types.dfy, relay_service.dfy | `CoreTypes`, `RelayService` | the in-memory relay |
| legacy_schedule_schema.dfy, legacy_schedule_service.dfy | `LegacyScheduleSchema`, `LegacyScheduleService` | the in-memory schedule and its duplicate-window check |
| trim_middleware.dfy | `TrimMiddleware` | the body-trimming middleware |
| schedule_schemas.dfy, device_schemas.dfy | `ScheduleSchemas`, `DeviceSchemas` | the Zod request schemas |
| store.dfy | `Store` | rows, the store, the device timings, and the invariants `Consistent`, `ChipIdsUnique` and `ReferencesValid` |
| polling_services.dfy | `PollingServices` | polling, the relay-command queue, connectivity |
| device_services.dfy | `DeviceServices` | the device registry |
| schedule_services.dfy | `ScheduleServices` | publication, the edge compiler, schedule and edge-list queries |
| protocol.dfy | `Protocol` | properties that span the services |

`Consistent` is a store invariant the model states; the server code does not spell it out.
It says that versions are never negative, that a device past version 0
has the edge list of its current version, and that no schedule row or edge
list is ahead of its device. Every write operation is proved to keep it.
Under it, the edge list a device downloads is the one for the version its
last poll announced. Two more invariants travel with it. `ChipIdsUnique` says
no two devices share a chip id. `ReferencesValid` stands for the database's
foreign keys: every schedule row and edge list names a device on file. The
empty store satisfies all three, and every write keeps all three, so the
calls can be chained in any order.

Removing a device follows the database's default referential action for a
required relation, Restrict. While any schedule row or edge list names the
device, the delete is refused and nothing changes. Since no operation
deletes edge lists, a device that has published once is never removed.

Per-rule expansion is a parameter. `RuleCompilers` holds one function per
rule kind, and `StubCompilers` instantiates it with the empty expansions
the server ships. The sorting, permutation and stability facts are proved
for every choice of expansions.

## Model

| member | source | states |
|---|---|---|
| PollingServices.HandleDevicePolling | src/modules/polling/services.ts:12-81 | An unknown device fails with "Device not found" and the store is unchanged. Otherwise a relay command is present iff one is queued, its action is "on" iff the queued value is true, and it carries the given command id. A schedule pointer is present iff the stored version exceeds the reported one (0 when absent); it then holds that version, `hasNewSchedule` and `/devices/{id}/schedule/compiled`. The poll stamps `lastSeenAt`, clears the queue, and changes nothing else (the schedule version included). The config is 30/300 and `timestamp == serverTime == now`. |
| PollingServices.SetPendingRelayCommand | src/modules/polling/services.ts:87-95 | A missing device is a not-found error. Otherwise only that device's queued command changes, and it becomes the given value. |
| PollingServices.Classify | src/modules/polling/services.ts:115-134 | Online iff seen and less than 120000 ms ago. Stale iff never seen or more than 300000 ms ago. `lastSeenAgo` is present iff seen, and it is the floor of the elapsed seconds. |
| PollingServices.GetDeviceConnectivity | src/modules/polling/services.ts:100-136 | Fails iff the device is unknown; otherwise reports the device's name and timestamps with their classification. |
| PollingServices.OnlineIsNotStale | src/modules/polling/services.ts:118-126 | An online device is never stale; a device never seen is offline, stale, and has no `lastSeenAgo`. |
| PollingServices.SecondPollCarriesNoCommand | src/modules/polling/services.ts:39-44 | With no command queued in between, the second of two polls carries no relay command. |
| PollingServices.QueueThenPollTwice | src/modules/polling/services.ts:58-65 | A queued command arrives with the matching action on the next poll and not on the one after. |
| PollingServices.LastQueuedCommandWins | src/modules/polling/services.ts:91-94 | Queuing two commands leaves the same store as queuing only the second. |
| PollingServices.PollKeepsConsistent | src/modules/polling/services.ts:57-65 | Polling keeps the publication invariant, chip-id uniqueness and the foreign keys. |
| PollingServices.SetCommandKeepsConsistent | src/modules/polling/services.ts:91-94 | Queuing a command keeps the publication invariant, chip-id uniqueness and the foreign keys. |
| ScheduleServices.Compile | src/modules/schedules/services.ts:265-308 | The compiled edges are in non-decreasing timestamp order and are a permutation of the per-rule outputs. `validUntil` is the compile time plus 14 days. |
| ScheduleServices.RawEdgesAppend | src/modules/schedules/services.ts:278-290 | The pre-sort edges of a split rule list are the edges of the first part followed by those of the second. |
| ScheduleServices.CompileStable | src/modules/schedules/services.ts:293-295 | Among edges with equal timestamps, the compiled order is the order in which the rules produced them. |
| ScheduleServices.CompileKeepsRuleOrder | src/modules/schedules/services.ts:278-295 | Among simultaneous edges, those of earlier rules precede those of later rules. |
| ScheduleServices.StubsProduceNoEdges | src/modules/schedules/services.ts:311-338 | With the shipped per-rule compilers, every rule set compiles to no edges. |
| ScheduleServices.Publish | src/modules/schedules/services.ts:36-87 | The device's version rises by exactly one. A schedule row and an edge list are added at that version under the new ids, and every other row keeps its value. The response reports both ids, that version, and equal edge counts in the summary and the stats; it counts the rules processed. |
| ScheduleServices.CreateSchedule | src/modules/schedules/services.ts:21-89 | An unknown device fails with "Device not found" and the store is unchanged. Otherwise the device's version rises by one, and the new schedule row has that version with the request's timezone and rules. |
| ScheduleServices.UpdateSchedule | src/modules/schedules/services.ts:149-221 | A missing schedule fails with "Schedule not found" and the store is unchanged. Otherwise the new version is the device's current version plus one, not the edited row's version plus one. Omitted timezone and rules are inherited from the edited row, that row stays as it was, and the rules processed are those of the new row. |
| ScheduleServices.DeleteSchedule | src/modules/schedules/services.ts:226-230 | A missing schedule is a not-found error. Otherwise exactly that row is removed, and devices and edge lists are untouched. |
| ScheduleServices.FormatSchedule | src/modules/schedules/services.ts:343-358 | The response copies the row's fields, and carries the device's id and name iff that device is on file. |
| ScheduleServices.GetScheduleById | src/modules/schedules/services.ts:126-144 | Returns null iff the id is unknown, and otherwise the formatted row. |
| ScheduleServices.ScheduleOrderIsPreorder | src/modules/schedules/services.ts:117 | Device id ascending, then version descending, is a total preorder. |
| ScheduleServices.CollectSchedules | src/modules/schedules/services.ts:97-116 | Picks every row passing the filters, each exactly once, and nothing else. |
| ScheduleServices.GetSchedules | src/modules/schedules/services.ts:94-121 | Returns exactly the rows matching a non-empty device id and a non-zero version, each once. They are ordered by device id ascending and then version descending. |
| ScheduleServices.GetCompiledEdgeList | src/modules/schedules/services.ts:235-260 | Returns null iff no edge list of the device matches the version (0 or absent means any). Otherwise it returns a matching list of the greatest version, with its fields copied. |
| ScheduleServices.PublishKeepsConsistent | src/modules/schedules/services.ts:39-66 | A publication keeps the publication invariant, chip-id uniqueness and the foreign keys. |
| ScheduleServices.PublishBecomesLatest | src/modules/schedules/services.ts:36-63 | After a publication its edge list is the device's newest. |
| ScheduleServices.CreateKeepsInvariants | src/modules/schedules/services.ts:21-66 | Creating a schedule keeps all three store invariants. |
| ScheduleServices.UpdateKeepsInvariants | src/modules/schedules/services.ts:149-198 | Under the invariants the edited row's device is on file, as `existingSchedule.device` assumes, and the update keeps all three invariants. |
| ScheduleServices.DeleteKeepsInvariants | src/modules/schedules/services.ts:226-230 | Deleting a schedule keeps all three store invariants. |
| ScheduleServices.ListedSchedulesShowTheirDevice | src/modules/schedules/services.ts:107-116 | Under the foreign keys, every schedule in a listing or lookup carries its device's id and name. |
| ScheduleServices.StubPublicationReport | src/modules/schedules/services.ts:77-86 | With the shipped compilers a publication reports zero edges in both counts, counts every rule, and spans 14 days. |
| ScheduleServices.TwoCreatesAdvanceByTwo | src/modules/schedules/services.ts:36 | Two publications for one device raise its version by two. The second one's version is one past the first's, and the first row survives. |
| Protocol.PublishThenPoll | src/modules/polling/services.ts:47-55 | After a publication, a poll reporting an older version is pointed at the new one; a poll reporting it (or later) is not. |
| Protocol.FirstPublicationAnnounced | src/modules/polling/services.ts:48-49 | A device that reports no version hears of any publication. |
| Protocol.LatestEdgeListIsCurrent | src/modules/schedules/services.ts:239-248 | Under the publication invariant, a device past version 0 always has an edge list to fetch, and the newest one is its current version. |
| Protocol.DeleteDeviceThenUpdate | src/modules/schedules/services.ts:155-166 | After a device removal, refused or not, every remaining schedule row's device is still on file. An update of any row can therefore follow, and the invariants survive both calls. |
| Protocol.OnlineNotionsNest | src/modules/devices/services.ts:21-25 | Connectivity-online implies view-online, and view-online implies not stale. |
| Protocol.OnlineNotionsDiffer | src/modules/devices/services.ts:23-24 | A device last seen three minutes ago is online in the device view but offline and not stale in the connectivity report. |
| DeviceServices.FormatDevice | src/modules/devices/services.ts:20-40 | `isOnline` iff last seen less than 300000 ms ago; the other fields are copied. |
| DeviceServices.RegisterDevice | src/modules/devices/services.ts:42-83 | A registered chip id fails with "already registered" and the store is unchanged. Otherwise exactly one device is added, at version 0 with nothing queued or seen. Its timezone is the request's, or "UTC" when that is empty. The response holds success, the token and config 30/300. |
| DeviceServices.UpdateDeviceStatus | src/modules/devices/services.ts:85-97 | Sets last-seen and last-status to now and stores the report; nothing else changes. |
| DeviceServices.GetDeviceById | src/modules/devices/services.ts:102-112 | Returns null iff the id is unknown, and otherwise the formatted device. |
| DeviceServices.GetDeviceByChipId | src/modules/devices/services.ts:117-127 | Returns null iff no device has the chip id; otherwise a device with that chip id. |
| DeviceServices.NewerFirstIsPreorder | src/modules/devices/services.ts:148 | Newest `createdAt` first is a total preorder. |
| DeviceServices.CollectMatching | src/modules/devices/services.ts:137-147 | Picks every device passing the search, each exactly once, and nothing else. |
| DeviceServices.ListDevices | src/modules/devices/services.ts:132-152 | Returns exactly the devices whose name or chip id contains the term, ignoring case, or all devices for an absent or empty term. Each appears once, newest first. |
| DeviceServices.UpdateDevice | src/modules/devices/services.ts:157-171 | A missing device is a not-found error. Otherwise the name and timezone change only when supplied, and every other field and device is unchanged. |
| DeviceServices.DeleteDevice | src/modules/devices/services.ts:176-180 | A missing device is a not-found error. A device that a schedule row or edge list still names is refused, and nothing changes. The call succeeds iff the device exists and nothing names it, and then exactly that device row is removed. |
| DeviceServices.RegisterKeepsInvariants | src/modules/devices/services.ts:45-64 | Registration keeps chip ids unique, the publication invariant and the foreign keys. |
| DeviceServices.StatusKeepsConsistent | src/modules/devices/services.ts:89-96 | A status report keeps all three store invariants. |
| DeviceServices.UpdateKeepsInvariants | src/modules/devices/services.ts:161-168 | A settings update keeps all three store invariants. |
| DeviceServices.DeleteKeepsInvariants | src/modules/devices/services.ts:176-180 | Removing a device keeps all three store invariants, so no schedule row or edge list is ever left naming a missing device. |
| DeviceServices.PublishedDeviceIsPermanent | src/modules/devices/services.ts:176-180 | Under the publication invariant, removing a device that has published is always refused and changes nothing. |
| ScheduleSchemas.ParseAction | src/modules/schedules/schemas.ts:14 | The action is on iff "on" and off iff "off"; anything else is rejected. |
| ScheduleSchemas.ParseRule | src/modules/schedules/schemas.ts:4-41 | An accepted rule is valid, and its variant is the one named by `type`. Every field the variant declares is taken from the request unchanged; a countdown without `oneTime` gets true. An unknown `type`, a missing name or a missing action is rejected. |
| ScheduleSchemas.ParseRuleMeaning | src/modules/schedules/schemas.ts:4-41 | A request object parses to a rule iff the rule is valid and the object carries it. Carrying means the object has the rule's tag and each field its variant declares; fields the variant does not declare are ignored. |
| ScheduleSchemas.RuleRoundTrip | src/modules/schedules/schemas.ts:4-41 | A rule sent as a request object parses back to itself iff it meets its variant's bounds. |
| ScheduleSchemas.RuleBoundsExamples | src/modules/schedules/schemas.ts:23-33 | 1440 minutes is accepted and 1441 rejected. A countdown of 10080 is accepted and defaults `oneTime` to true; 0 is rejected. An empty name is rejected. |
| ScheduleSchemas.ParseRules | src/modules/schedules/schemas.ts:47-48 | A list parses iff each element does, element by element. |
| ScheduleSchemas.ParseCreate | src/modules/schedules/schemas.ts:44-51 | Accepted iff the device id and timezone are non-empty and there are 1 to 50 rules that all parse. The accepted body keeps the device id and timezone, and its rules are exactly the parsed rules. |
| ScheduleSchemas.RulesRoundTrip | src/modules/schedules/schemas.ts:47-48 | A rule list sent as request objects parses back to itself iff every rule is valid. |
| ScheduleSchemas.CreateRoundTrip | src/modules/schedules/schemas.ts:44-51 | A create body parses back to itself iff its device id and timezone are non-empty and it has 1 to 50 valid rules. |
| ScheduleSchemas.ParseUpdate | src/modules/schedules/schemas.ts:54-57 | Both fields are optional. A present timezone must be non-empty and is kept. Present rules must be 1 to 50 rules that all parse, and they become exactly the parsed rules. |
| ScheduleSchemas.UpdateRoundTrip | src/modules/schedules/schemas.ts:54-57 | An update body parses back to itself iff a present timezone is non-empty and present rules are 1 to 50 valid ones. |
| ScheduleSchemas.EmptyUpdateAccepted | src/modules/schedules/schemas.ts:54-57 | `{}` is accepted; an empty timezone or an empty rule list is rejected. |
| Errors.MessagesIdentifyErrors | src/modules/devices/services.ts:50 | The four messages the services throw ("Device not found", "Schedule not found", "Device with chip ID … already registered", "Duplicate rule windows detected") are equal iff the errors are equal, chip id included. |
| Clock.StrictClockTimeMeaning | src/schemas/schedule.schema.ts:3 | The strict pattern accepts exactly the two-digit-padded `HH:MM` with hour 0 to 23 and minute 0 to 59. |
| Clock.ClockTimeMeaning | src/modules/schedules/schemas.ts:8-13 | The loose pattern accepts exactly `HH:MM`, plus `H:MM` for hours 0 to 9. |
| Clock.ClockTextMatches | src/schemas/schedule.schema.ts:3 | Printing an in-range time gives text the strict pattern accepts, and reading it back gives the same hour and minute. |
| Clock.StrictIsClockTime | src/modules/schedules/schemas.ts:10 | Every strictly formatted time is also loosely valid. |
| Clock.ClockTimeExamples | src/modules/schedules/schemas.ts:20-22 | "7:05", "07:05" and "23:59" are accepted; "24:00", "7:5" and "12:60" are rejected; the strict pattern rejects "7:05". |
| DeviceSchemas.ParseRegister | src/modules/devices/schemas.ts:3-7 | Accepted iff the chip id has 1 to 32 characters and the name 1 to 255. The timezone defaults to "UTC". |
| DeviceSchemas.RegisterRoundTrip | src/modules/devices/schemas.ts:3-7 | A request parses back to itself iff its lengths are in bounds. |
| DeviceSchemas.ParseStatus | src/modules/devices/schemas.ts:9-15 | The relay state is required. Signal strength is in [-100, 0], and uptime and free heap are non-negative, when present. Temperature is unchecked. |
| DeviceSchemas.StatusRoundTrip | src/modules/devices/schemas.ts:9-15 | A report parses back to itself iff it is in bounds. |
| DeviceSchemas.ParseUpdate | src/modules/devices/schemas.ts:17-20 | A present name has 1 to 255 characters; a present timezone may be anything. |
| DeviceSchemas.DeviceSchemaExamples | src/modules/devices/schemas.ts:3-20 | The defaults and bounds at sample points. |
| LegacyScheduleSchema.LegacyRuleMeaning | src/schemas/schedule.schema.ts:5-10 | A rule is valid iff its id is non-empty, its days are a non-empty list of 0 to 6, and start and end are strict times, checked independently. |
| LegacyScheduleSchema.LegacyBodyExamples | src/schemas/schedule.schema.ts:5-14 | An empty body and an overnight window are accepted. An empty id, empty days, day 7, "7:00" and 33 rules are rejected. |
| LegacyScheduleService.FindDuplicateWindow | src/services/schedule.service.ts:16-23 | Reports a duplicate iff some `day-start-end` key occurs twice across all rules' days. |
| LegacyScheduleService.SaveSchedule | src/services/schedule.service.ts:14-26 | Fails iff a key repeats, and then the stored schedule is unchanged. Otherwise the stored schedule becomes exactly the body, which is returned. |
| LegacyScheduleService.GetSchedule | src/services/schedule.service.ts:10-12 | Returns the stored schedule and leaves it unchanged. |
| LegacyScheduleService.WindowKeyInjective | src/services/schedule.service.ts:19 | For schema-valid windows, equal keys mean equal windows. |
| LegacyScheduleService.DuplicateKeyIffRepeatedWindow | src/services/schedule.service.ts:16-22 | For a valid body, keys repeat iff some (day, start, end) window repeats. |
| LegacyScheduleService.InitialScheduleAccepted | src/services/schedule.service.ts:4-8 | The initial schedule (r1, days 1 to 5, 22:00 to 06:00) is schema-valid and has no duplicate window. |
| LegacyScheduleService.RepeatedDayIsDuplicate | src/services/schedule.service.ts:18-20 | A day listed twice in one rule is a duplicate. |
| LegacyScheduleService.RuleIdIgnored | src/services/schedule.service.ts:19 | Two rules that differ only in id are a duplicate. |
| LegacyScheduleService.OverlapAccepted | src/services/schedule.service.ts:15 | Overlapping but non-identical windows are accepted. |
| LegacyScheduleService.KeyCollidesOutsideSchema | src/services/schedule.service.ts:19 | Without the schema, two different windows can share a key. |
| RelayService.SetRelay | src/services/relay.service.ts:7-10 | The state becomes `data.on`, and the response is `{ok: true, relayOn: data.on}`. |
| RelayService.GetRelay | src/services/relay.service.ts:12-14 | Returns the state and leaves it unchanged. |
| RelayService.GetAfterSet | src/services/relay.service.ts:7-14 | A read after a write sees the written value. |
| RelayService.LastSetWins | src/services/relay.service.ts:8 | Of two writes the last wins. |
| RelayService.InitiallyOff | src/services/relay.service.ts:5 | The relay starts off. |
| TrimMiddleware.TrimBody | src/middlewares/trim.ts:3-15 | The key set is unchanged. Excepted and non-string values are unchanged; other strings are trimmed and have no surrounding whitespace. |
| TrimMiddleware.TrimBodyIdempotent | src/middlewares/trim.ts:9-10 | Running the middleware twice equals running it once. |
| TrimMiddleware.TrimIsShallow | src/middlewares/trim.ts:9 | A nested object keeps its padded strings. |
| TrimMiddleware.TrimHonoursExceptions | src/middlewares/trim.ts:9-10 | A padded string is trimmed unless its key is excepted. |
| TrimMiddleware.TrimPaddedX | src/middlewares/trim.ts:10 | `" x "` trims to `"x"`. |
| Text.Trim | src/middlewares/trim.ts:10 | The result has no leading or trailing whitespace and is the input with a whitespace prefix and suffix removed. |
| Text.TrimIdempotent | src/middlewares/trim.ts:10 | Trimming twice equals trimming once. |
| Sorting.SortBy | src/modules/schedules/services.ts:293-295 | The result is sorted and is a permutation of the input. |
| Sorting.SortStable | src/modules/schedules/services.ts:293-295 | The sort is stable: every run of tied elements keeps its input order. |

## Left out

- Prisma I/O and transactions: each `$transaction` is one atomic transition, with no rollback machinery.
- Concurrency: create and update read the version outside their transaction, and a poll reads and clears the command in two steps. Only the sequential behaviour is modelled.
- Timezone projection and real rule expansion: the server never uses the timezone, and its per-rule compilers are empty stubs. The expansions are a parameter, and nothing about DST, overnight or countdown timing is claimed.
- Randomness and hashing: the command id, the API token and its SHA-256 hash are opaque parameters.
- Wall-clock details: `compilationTimeMs` is not modelled. The creation times of new rows and `generatedAt` are the `now` parameter, which stands in for both `Date.now()` and the database default. ISO-8601 formatting is not modelled.
- `updatedAt` is not modelled; the database maintains it.
- The device client (fetch with a timeout) is not part of this model.
- HTTP plumbing is not part of this model: controllers, routes, the app and server, the async handler, the error middleware, the Zod `validate` wrapper and the exception classes.
- The polling query schema relies on Zod's `coerce`. Only the `?? 0` default of the reported version is modelled.
- The status service returns hard-coded readings and is not part of this model.
- Zod `z.number()` accepts non-integers for days, minutes and versions. The model uses integers.
- Zod string lengths count UTF-16 code units, while the model counts characters.
- The case-insensitive search folds ASCII letters only, and SQL `ILIKE` wildcards in the term are treated literally.
- String order for `orderBy deviceId` is code-point order rather than a database collation.
- Ties under `orderBy` (equal `createdAt`, or equal device id and version) come out in an order the database leaves unspecified. The model fixes one order: stable with respect to an unordered scan.
- DeviceServices.DeleteDevice: the database schema and its referential actions are not part of this model. The model assumes Prisma's default for a required relation, Restrict. Under Cascade the device's schedules and edge lists would be removed with it instead.
- ScheduleServices.UpdateSchedule requires the edited row's device to exist. `ReferencesValid` guarantees this, and every write keeps it.
- The database's own error wording (P2025, P2003) is not modelled; `Errors.Message` covers only the messages the services throw.
- JSON numbers in request bodies are integers in the model, and a request body that is not an object is not modelled.

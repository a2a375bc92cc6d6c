# Uponor X265 Companion: the polling coordinator

A Dafny model of the data coordinator of the Uponor X265 Companion integration
for Home Assistant. Every 30 seconds the coordinator asks the X265 controller for
the names of all its variables and for all their values, keeps the relevant
ones, and merges them into three dictionaries that are only ever added to:

- per-thermostat records keyed `C<i>_T<j>`, each holding an attribute map;
- a shared system map (controller temperatures and status flags);
- a custom-name table (`cust_..._name` entries).

It also keeps two timestamps: the last successful update and the last response.
They decide whether a failed cycle is tolerated (cached data is served) or
raised, and whether the integration reports itself available.

Files, one module each:

- `wrappers.dfy`: `Option`.
- `text.dfy`: the Python string operations the coordinator uses: `int()` on a
  string, `split("_")`, `"_".join`, `split("_", 1)`, `replace`, `in`,
  `startswith`, `endswith`. The splitting and joining operations come with
  round-trip lemmas, and `int()` with a lemma on what text it accepts and one
  that reads back the text of any integer.
- `constants.dfy`: `VARIABLE_MAPPING`, `SYSTEM_VARIABLE_MAPPING`,
  `SCAN_INTERVAL`, `UNAVAILABLE_TIME` and the 32767 "no sensor" sentinel.
- `convert.dfy`: `_convert_value`, `_convert_temperature` and
  `_convert_temperature_offset`.
- `relevance.dfy`: `_filter_relevant_variables` as a method with a loop,
  proved against the function `Filtered`.
- `translate.dfy`: `_process_data` and the three `_process_*_data` steps as
  functions on a `Tables` value, plus `get_custom_name`. They specify the
  class methods, and the lemmas about a poll are stated over them.
- `availability.dfy`: the failure-tolerance decision and `is_available` on
  the two timestamps.
- `coordinator.dfy`: the class `UponorCompanionCoordinator`. Its fields are
  the source's fields. `ProcessData`, the three `Process*Data` methods and
  `Refresh` (the body of `_async_update_data`) update them in place. Each
  method is proved to produce exactly the state the matching function gives
  from the old state.

Python values are modelled as follows. A raw controller value is a string.
Python `int()` on an ASCII string becomes `ParseInt`: surrounding tab, line
feed, vertical tab, form feed, carriage return or space, an optional sign, and
digits with single underscores between them. It returns `None` where Python
raises `ValueError`, except on text longer than Python's digit limit (see
"Left out"). A stored reading is a `Value`: an int, a bool, an exact real or a
string. One poll is a sequence of key/value pairs in dictionary order. Time is
a whole number of seconds, passed in as `now`.

All paths in the table are relative to the repository root. `coordinator.py`
and `const.py` live in `custom_components/uponor_x265_companion/`.

## Model

| member | source | states |
|---|---|---|
| `Constants.VariableMappingInjective` | custom_components/uponor_x265_companion/const.py:179-211 | no two raw attributes map to the same normalized name |
| `Constants.AggregatesMapToThemselves` | custom_components/uponor_x265_companion/const.py:194-196 | the three controller aggregates are keys of the attribute table and map to their own names |
| `Constants.OutputModuleEntry` | custom_components/uponor_x265_companion/const.py:213-220 | `stat_out_module_com_lost` is a system-table key without the `sys_` prefix; it is the only key mapped to `output_module_lost`; no attribute-table entry and no aggregate has that name |
| `Constants.AvailabilityWindowInScans` | custom_components/uponor_x265_companion/const.py:10-11 | `k` scan intervals are inside the availability window exactly when `k < 10` |
| `Text.ParseIntToString` | custom_components/uponor_x265_companion/coordinator.py:214 | `int()` applied to the decimal text of any integer gives that integer back |
| `Text.ParseIntAccepts` | custom_components/uponor_x265_companion/coordinator.py:214 | `int()` succeeds only on text of whitespace, signs, digits and underscores holding at least one digit |
| `Text.SeparatorNotSkipped` | custom_components/uponor_x265_companion/coordinator.py:214 | the separator characters 28-31 are not skipped as whitespace: a number behind one is a `ValueError` |
| `Text.JoinSplit` | custom_components/uponor_x265_companion/coordinator.py:145-151 | joining the pieces of `split("_")` with `_` gives the key back |
| `Text.SplitJoin` | custom_components/uponor_x265_companion/coordinator.py:145-151 | splitting the join of underscore-free pieces gives the pieces back |
| `Text.SplitOnceUnique` | custom_components/uponor_x265_companion/coordinator.py:172-176 | `split("_", 1)` on `a + "_" + b` with `a` free of underscores gives exactly `a` and `b` |
| `Text.SplitOnce` | custom_components/uponor_x265_companion/coordinator.py:172-176 | there is no second part exactly when the key has no `_`; otherwise the first part has no `_` and the parts reassemble the key |
| `Text.ReplaceCharIsSplitJoin` | custom_components/uponor_x265_companion/coordinator.py:290 | `replace("_", " ")` equals splitting at `_` and joining with a space |
| `Convert.ConvertTemperature` | custom_components/uponor_x265_companion/coordinator.py:239-251 | absent exactly for the sentinel and for unparseable text; otherwise converting the result back to tenths of a degree Fahrenheit gives the raw reading |
| `Convert.ConvertTemperatureOffset` | custom_components/uponor_x265_companion/coordinator.py:253-265 | absent exactly for the sentinel and for unparseable text; otherwise the result times 18 is the raw reading (no 32-degree shift) |
| `Convert.OffsetIsTemperatureDifference` | custom_components/uponor_x265_companion/coordinator.py:247-248 | the offset formula is the difference of two temperature conversions |
| `Convert.CelsiusStrictlyIncreasing` | custom_components/uponor_x265_companion/coordinator.py:247-248 | the conversion preserves and reflects the order of readings |
| `Convert.CelsiusFixture` | custom_components/uponor_x265_companion/coordinator.py:247-248 | a reading of 680 (68.0 °F) converts to 20.0 °C |
| `Convert.SpecialAttributesAreMapped` | custom_components/uponor_x265_companion/const.py:179-211 | every attribute `_convert_value` handles specially is a key of the attribute table |
| `Convert.ConvertValue` | custom_components/uponor_x265_companion/coordinator.py:211-237 | the sentinel gives `None` for every kind, text included. Otherwise `None` only for an unparseable numeric kind. Int kinds give the parsed int, temperatures and the offset give values that invert to the reading, text kinds give the raw string. Every other attribute gives `int != 0` as a bool, or the raw string when unparseable |
| `Convert.SeparatorReadingKeptAsText` | custom_components/uponor_x265_companion/coordinator.py:213-237 | a text or flag reading behind a separator character 28-31 is stored as the raw string, even when its digits spell the sentinel |
| `Relevance.Filtered` | custom_components/uponor_x265_companion/coordinator.py:103-123 | a name is in the result exactly when it is in the input and relevant; the result is no longer than the input |
| `Relevance.FilteredIsSubsequence` | custom_components/uponor_x265_companion/coordinator.py:103-123 | the kept names keep their original order |
| `Relevance.FilteredIdempotent` | custom_components/uponor_x265_companion/coordinator.py:103-123 | filtering twice gives the same list as filtering once |
| `Relevance.ControllerPatternsRedundant` | custom_components/uponor_x265_companion/coordinator.py:108-118 | the three `C<i>_<aggregate>` branches accept nothing that the attribute-table branch does not |
| `Relevance.HumidityKeyKeepsEveryRh` | custom_components/uponor_x265_companion/coordinator.py:108 | every name containing `rh` is kept |
| `Relevance.ControllerNameEntryNotCustomName` | custom_components/uponor_x265_companion/coordinator.py:120 | a `cust_Controller<n>_Name` entry fails the `_name` suffix test |
| `Relevance.FilterRelevantVariables` | custom_components/uponor_x265_companion/coordinator.py:103-123 | the loop returns `Filtered` of its input: exactly the relevant names, in order |
| `Translate.GrowsTransitive` | custom_components/uponor_x265_companion/coordinator.py:125-209 | "only adds" composes across steps |
| `Translate.Classify` | custom_components/uponor_x265_companion/coordinator.py:133-141 | thermostat key iff it starts with `C` and contains `_T`; controller key iff it starts with `C` without `_T`; system key iff it starts with `sys_`; ignored otherwise |
| `Translate.ParseThermostatKey` | custom_components/uponor_x265_companion/coordinator.py:145-153 | no result exactly when `split("_")` gives fewer than three parts; otherwise controller and thermostat are underscore-free and the parts reassemble the key |
| `Translate.ParseThermostatKeyOf` | custom_components/uponor_x265_companion/coordinator.py:145-153 | the key `c_th_a` is parsed back into `c`, `th` and `a` |
| `Translate.StoreCustomName` | custom_components/uponor_x265_companion/coordinator.py:128-130 | a `cust_..._name` key is stored with its value; any other key changes nothing; only the name table changes, and validity is kept |
| `Translate.StoreReading` | custom_components/uponor_x265_companion/coordinator.py:163-168 | a mapped attribute with a converted value is written under its normalized name; in every other case the map is unchanged |
| `Translate.ThermostatStep` | custom_components/uponor_x265_companion/coordinator.py:143-168 | a key with fewer than three `_` parts changes nothing. Any other key, whatever its segments (`C1__T1_rh` included), gives the record `<controller>_<thermostat>`: created empty and appended to the order when new, with the reading upserted through `StoreReading`. Every other record and the system and name tables stay as they were, and validity is kept |
| `Translate.ParseFlag` | custom_components/uponor_x265_companion/coordinator.py:193-198 | a flag exactly when the value parses and is not the sentinel; the flag is `value != 0` |
| `Translate.ControllerStep` | custom_components/uponor_x265_companion/coordinator.py:170-198 | a key without `_` changes nothing; an aggregate attribute is stored under its bare name when its temperature converts; a mapped `stat_` attribute is stored as `bool(int(value))` under its normalized name unless unparseable or the sentinel; any other attribute changes nothing; only the system map changes |
| `Translate.SystemStep` | custom_components/uponor_x265_companion/coordinator.py:200-209 | a system-table key with a parseable non-sentinel value is stored as `bool(int(value))` under its mapped name; anything else changes nothing |
| `Translate.ControllerFlagStored` | custom_components/uponor_x265_companion/coordinator.py:190-196 | `C<i>_stat_...` with a mapped attribute stores `bool(int(value))` under the normalized name, or leaves the system map as it was |
| `Translate.AggregateIsNoFlag` | custom_components/uponor_x265_companion/coordinator.py:178-196 | no aggregate attribute starts with `stat_`, so the aggregate and flag branches never both apply |
| `Translate.Dispatch` | custom_components/uponor_x265_companion/coordinator.py:133-141 | a thermostat key goes to the thermostat step, a controller key to the controller step, a `sys_` key to the system step, and any other key changes nothing; routing never removes anything, never touches the name table, keeps validity |
| `Translate.CollectCustomNames` | custom_components/uponor_x265_companion/coordinator.py:127-130 | the first pass changes only the name table, only adds to it, keeps every name the poll does not carry at its old value, and keeps validity |
| `Translate.LastCustomNameKept` | custom_components/uponor_x265_companion/coordinator.py:128-130 | the last value of each `cust_..._name` key of a poll is in the name table after the name pass and after the whole poll |
| `Translate.ApplyAll` | custom_components/uponor_x265_companion/coordinator.py:132-141 | the second pass only adds, never touches the name table, and keeps validity |
| `Translate.Process` | custom_components/uponor_x265_companion/coordinator.py:125-141 | a whole poll only adds: no thermostat, attribute, system entry or name disappears, identity fields never change, the thermostat order only grows at the end |
| `Translate.SentinelKeepsPriorValues` | custom_components/uponor_x265_companion/coordinator.py:166-168 | a sentinel reading writes nothing: system map, names and every existing record are unchanged, and a record it creates is empty |
| `Translate.ThermostatReadingStored` | custom_components/uponor_x265_companion/coordinator.py:143-168 | a key `C.._T.._a` lands in record `C.._T..`. The record is created at the end of the order if new. Only its attribute map changes, by `StoreReading`; every other record is unchanged |
| `Translate.ControllerIndexDropped` | custom_components/uponor_x265_companion/coordinator.py:172-189 | which controller a controller key names does not change the result |
| `Translate.LaterControllerAggregateWins` | custom_components/uponor_x265_companion/coordinator.py:178-189 | of two controller keys in one poll, the later one's aggregate reading is the one kept |
| `Translate.DispatchNeverStoresOutputModuleLost` | custom_components/uponor_x265_companion/coordinator.py:133-141 | no key ever writes `output_module_lost` |
| `Translate.OutputModuleLostNeverStored` | custom_components/uponor_x265_companion/coordinator.py:125-141 | no poll ever stores `output_module_lost`, because its only table key lacks the `sys_` prefix |
| `Translate.CustomNamesLeaveSystem` | custom_components/uponor_x265_companion/coordinator.py:127-130 | the name pass leaves the system map alone |
| `Translate.ApplyAllNeverStoresOutputModuleLost` | custom_components/uponor_x265_companion/coordinator.py:132-141 | the routing pass never stores `output_module_lost` |
| `Translate.PollsAccumulate` | custom_components/uponor_x265_companion/coordinator.py:125-141 | a thermostat attribute stored by one poll is still there after the next poll, whatever the next poll carries |
| `Translate.CustomName` | custom_components/uponor_x265_companion/coordinator.py:275-290 | the thermostat's own name wins, then the controller name, then the id with `_` replaced by spaces |
| `Translate.ControllerNameNeverFound` | custom_components/uponor_x265_companion/coordinator.py:282-287 | on tables built by polling, the controller-name lookup never hits, so the result is the thermostat name or the spaced id |
| `Translate.CustomNameFixtures` | custom_components/uponor_x265_companion/coordinator.py:275-290 | `C1_T1` resolves to its stored name, or else to `C1 T1` |
| `Translate.ParseFixtures` | custom_components/uponor_x265_companion/coordinator.py:214 | `"45"`, `"1"` and `"698"` parse to 45, 1 and 698 |
| `Translate.NoNamesCollected` | custom_components/uponor_x265_companion/coordinator.py:127-130 | keys starting with a controller name are never stored as custom names |
| `Translate.FirstReading` | custom_components/uponor_x265_companion/coordinator.py:155-168 | the first reading on empty tables creates one record holding that reading |
| `Translate.NextReading` | custom_components/uponor_x265_companion/coordinator.py:163-168 | a later reading for the same thermostat is merged into its existing record |
| `Translate.ControllerKeyOf` | custom_components/uponor_x265_companion/coordinator.py:138-139 | `C<i>_<attribute>` with no `T` in the attribute is routed to the controller step, which splits it into `C<i>` and the whole attribute |
| `Translate.AverageRoomReading` | custom_components/uponor_x265_companion/coordinator.py:178-181 | `C<i>_average_room_temperature` is a controller key, stored under its bare name |
| `Translate.TwoReadings` | custom_components/uponor_x265_companion/coordinator.py:132-168 | two readings of one thermostat on empty tables give one record holding both |
| `Translate.ExamplePoll` | custom_components/uponor_x265_companion/coordinator.py:125-189 | a poll of two thermostat readings and an average room temperature gives one record holding both readings, one system entry, and no names |
| `Translate.HumidityReadingFixture` | custom_components/uponor_x265_companion/coordinator.py:163-168 | `rh=45` is stored as humidity 45 |
| `Translate.DemandLedReadingFixture` | custom_components/uponor_x265_companion/coordinator.py:163-168 | `stat_demand_led=1` is stored as demand_led true, next to the humidity already stored |
| `Translate.RoomTemperatureFixture` | custom_components/uponor_x265_companion/coordinator.py:247-248 | a reading of 698 (69.8 °F) converts to 21.0 °C |
| `Availability.IsAvailable` | custom_components/uponor_x265_companion/coordinator.py:297-318 | available exactly when a response exists and less than UNAVAILABLE_TIME has passed since it (strict) |
| `Availability.AfterSuccess` | custom_components/uponor_x265_companion/coordinator.py:70-71 | both timestamps become the same instant |
| `Availability.AfterFailure` | custom_components/uponor_x265_companion/coordinator.py:84-101 | the last success never moves. A raised failure changes nothing; a tolerated one sets the response time to now |
| `Availability.NeverAvailableBeforeFirstResponse` | custom_components/uponor_x265_companion/coordinator.py:300-303 | without a response the integration is unavailable |
| `Availability.FirstFailureRaised` | custom_components/uponor_x265_companion/coordinator.py:87-89 | a failure before any success is raised and leaves the integration unavailable |
| `Availability.AvailableAfterSuccess` | custom_components/uponor_x265_companion/coordinator.py:69-71 | after a success at `s`, available exactly before `s + UNAVAILABLE_TIME` |
| `Availability.ToleratedFailureKeepsAvailable` | custom_components/uponor_x265_companion/coordinator.py:90-96 | a tolerated failure keeps the integration available |
| `Availability.ToleratedIff` | custom_components/uponor_x265_companion/coordinator.py:87 | a failure is tolerated exactly when at most 10 minutes have passed since the last success |
| `Availability.AfterFailures` | custom_components/uponor_x265_companion/coordinator.py:84-101 | a run of failures never moves the last success and keeps the clock consistent |
| `Availability.FailuresStayWithinGrace` | custom_components/uponor_x265_companion/coordinator.py:84-101 | failures keep the last response within 10 minutes of the last success |
| `Availability.OutageBound` | custom_components/uponor_x265_companion/coordinator.py:84-101 | after a success at `s` and only failures since, unavailable from `s + 10 min + UNAVAILABLE_TIME` on |
| `Availability.OutageBoundTight` | custom_components/uponor_x265_companion/coordinator.py:84-101 | that bound is reached: a failure at exactly `s + 10 min` is tolerated and keeps availability until then |
| `Coordinator.SelectRelevant` | custom_components/uponor_x265_companion/coordinator.py:61 | a pair is kept exactly when it was read and its key is among the relevant names, and the kept pairs stay in the order they were read |
| `Coordinator.CycleData` | custom_components/uponor_x265_companion/coordinator.py:46-64 | empty when discovery gave nothing or the read failed; otherwise exactly the read pairs whose key is a relevant discovered name, in the order they were read |
| `Coordinator.CycleDataRelevant` | custom_components/uponor_x265_companion/coordinator.py:54-61 | every processed pair was sent by the controller under a relevant discovered name |
| `Coordinator.UponorCompanionCoordinator.constructor` | custom_components/uponor_x265_companion/coordinator.py:27-40 | empty tables, no timestamps, valid |
| `Coordinator.UponorCompanionCoordinator.ProcessThermostatData` | custom_components/uponor_x265_companion/coordinator.py:143-168 | the fields become `ThermostatStep` of the old tables; the timestamps are unchanged |
| `Coordinator.UponorCompanionCoordinator.ProcessControllerData` | custom_components/uponor_x265_companion/coordinator.py:170-198 | the fields become `ControllerStep` of the old tables; the timestamps are unchanged |
| `Coordinator.UponorCompanionCoordinator.ProcessSystemData` | custom_components/uponor_x265_companion/coordinator.py:200-209 | the fields become `SystemStep` of the old tables; the timestamps are unchanged |
| `Coordinator.UponorCompanionCoordinator.ProcessData` | custom_components/uponor_x265_companion/coordinator.py:125-141 | both loops together give `Process` of the old tables |
| `Coordinator.UponorCompanionCoordinator.Refresh` | custom_components/uponor_x265_companion/coordinator.py:42-101 | with data: the tables become `Process` of the old ones, both times become `now`, and fresh data is returned. Without data: tables unchanged, the clock follows `AfterFailure`, the cycle raises iff the failure escalates, and cached data otherwise. Validity is kept |
| `Coordinator.UponorCompanionCoordinator.GetThermostatData` | custom_components/uponor_x265_companion/coordinator.py:267-269 | the record's attribute map, or an empty map for an unknown id |
| `Coordinator.UponorCompanionCoordinator.GetSystemData` | custom_components/uponor_x265_companion/coordinator.py:271-273 | the system map |
| `Coordinator.UponorCompanionCoordinator.GetCustomName` | custom_components/uponor_x265_companion/coordinator.py:275-290 | on a valid object: the stored thermostat name, else the id with spaces |
| `Coordinator.UponorCompanionCoordinator.Thermostats` | custom_components/uponor_x265_companion/coordinator.py:292-295 | on a valid object: every discovered id exactly once |
| `Coordinator.UponorCompanionCoordinator.IsAvailableAt` | custom_components/uponor_x265_companion/coordinator.py:297-318 | available exactly when a response is less than UNAVAILABLE_TIME old |

## Left out

- The controller client (`jnap.py`: HTTP, session handling, JSON decoding) is not part of this model. Its two calls are the parameters `discovered` and `fetched` of `Refresh`. Empty discovery and a missing read stand for every error those calls raise or swallow.
- Values the controller sends as JSON integers are taken to reach the coordinator as their decimal text. `Text.ParseIntToString` shows that `int()` reads that text back unchanged. Values of other JSON types are not modelled: floats (`int(68.5)` truncates to 68, while `ParseInt("68.5")` is `None`), booleans (`int(True)` is 1), `None` and lists.
- `Text.ParseInt`: does not model Python's limit on the length of integer text (4300 digits by default since Python 3.11, adjustable at run time). Beyond it `int()` raises `ValueError`, so a flag attribute stores the raw string where the model stores a `BoolV`.
- `Convert.ConvertTemperature`, `Convert.ConvertTemperatureOffset`: readings whose magnitude is about 2^1024 or more make `raw_val / 10.0` raise `OverflowError` in the source. It is not caught there, so it ends the cycle through the general `except` of `_async_update_data` with earlier keys of the poll already written. The model converts such readings exactly, and `Refresh` reports that cycle as a success.
- `int()` on strings is modelled for ASCII only: non-ASCII digits and Unicode whitespace are not accepted.
- Temperatures are exact reals. The one-decimal `round(..., 1)` and binary floating point are not modelled. Each conversion is stated through its inverse formula instead.
- `datetime.now()` is read several times in one failure branch; the model reads one `now` per cycle. Sub-second precision is dropped.
- Logging, `async_dispatcher_send`, the `DataUpdateCoordinator` base class, `async`/`await` and the scheduling in `__init__.py` are not modelled. Neither are the entity classes in `sensor.py` and `binary_sensor.py`, which only read the getters.
- The returned snapshot holds copies of the tables. In Python it holds the live dictionaries, so later polls show through it. Aliasing is not modelled.
- A poll is a sequence of pairs. A Python dictionary cannot repeat a key, and the model does not forbid repeats; a repeated key is processed once per occurrence.
- `Coordinator.UponorCompanionCoordinator.GetThermostatData`, `GetSystemData`, `IsAvailableAt`: these getters state only what they return. Their meaning over time is stated by `Translate.PollsAccumulate` and the `Availability` lemmas.

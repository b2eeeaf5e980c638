# R470GP router device tracker — Dafny model

This project models the core of a Home Assistant device tracker for the
TP-Link R470GP router. The router client (`R470GPRouter`) logs in to get a
session token `stok`. It fetches the router's host table and unwraps its
list of single-key wrapper objects into a map keyed by hardware address
(`mac`). Each record is cleaned on the way:

- `_unquote` percent-decodes `connect_date`, `connect_time` and `ssid`;
- `_unique_name` names an anonymous host after its address without dashes;
- `host_is_deprecate` marks a host gone when it is not online and its
  `connect_date` is more than seven days old.

The scanner (`TplinkDeviceScanner`) caches the last non-empty host map.
After each non-empty fetch it registers every host of that map with the
platform, and it answers name and attribute lookups from the cache.

Files:

- `wrappers.dfy`: `Option` and `Result`.
- `records.dfy`: host records (`map<string, Value>`, where a `Value` is a
  string or the boolean `is_deprecate`), the host map, and `RemoveDashes`
  (`str.replace("-", "")`).
- `dates.dfy`: `strptime(.., "%y/%m/%d")` and the ordinal-day arithmetic
  behind `datetime` subtraction.
- `r470gp.dfy`: the per-record clean-up, the host-table loop and the
  `Router` class with its `stok` field.
- `device_tracker.dfy`: the `Scanner` class with its `clientInfos` cache. A
  ghost sequence `seen` records every registration.

Network replies are parameters. The login reply and the host-table reply
are maps, and a failed request is the empty map. `urllib.parse.unquote` is
the function parameter `unquote`. "Now" is the parameter `now`. Time is
counted in microseconds, which is the resolution of `datetime`, on Python's
proleptic-Gregorian ordinal clock. Midnight of a parsed date is
`Ordinal(d) * 86 400 000 000`, so the "more than 7 days" test is exact
integer arithmetic. A `ValueError` from `strptime` is the error
`MalformedDate`. It propagates out of `get_host_info` and `async_update` as
a returned `Err` or `Some(error)`.

The code has no DHCP static-reservation fetch or merge. It also never clears
`stok` after a failed host-table request. The model follows the code on both
points.

## Model

| member | source | states |
|---|---|---|
| `Records.RemoveDashes` | custom_components/R470GP_router/deps/R470GP.py:85 | the set of characters in the result is the input's set without `-`, and a dash-free input is returned unchanged |
| `Records.RemoveDashesCount` | custom_components/R470GP_router/deps/R470GP.py:85 | every character but `-` is kept as often as it occurs in the input, and no dash is kept |
| `Records.RemoveDashesAppend` | custom_components/R470GP_router/deps/R470GP.py:85 | dropping dashes from a concatenation drops them from each part, so the kept characters stay in their order |
| `Dates.ParseDate` | custom_components/R470GP_router/deps/R470GP.py:99-100 | a parsed `%y/%m/%d` date is a real calendar date in 1969..2068, with `/` as the third character |
| `Dates.ParseDateSpellings` | custom_components/R470GP_router/deps/R470GP.py:99-100 | `strptime` reads a string as date `d` exactly when `d` is a real date in 1969..2068 and the string is one of its `%y/%m/%d` spellings (year `YY`, month `MM` or `M`, day `DD`, `D` or space-`D`); every other string raises |
| `Dates.ParseFormat` | custom_components/R470GP_router/deps/R470GP.py:99-100 | every date that a two-digit year can name, written as `YY/MM/DD`, parses back to itself |
| `Dates.RejectsMissingDay` | custom_components/R470GP_router/deps/R470GP.py:99-100 | `YY/02/29` in a non-leap year is rejected (Python raises), not rolled over to 1 March |
| `Dates.YearLength` | custom_components/R470GP_router/deps/R470GP.py:104 | a year has 366 days exactly when it is a Gregorian leap year, and 365 otherwise |
| `Dates.OrdinalNext` | custom_components/R470GP_router/deps/R470GP.py:104 | consecutive calendar days have consecutive ordinals, so a datetime difference counts days |
| `Dates.OrdinalAddDays` | custom_components/R470GP_router/deps/R470GP.py:104 | the ordinal of the date `n` days later is `n` more |
| `R470GP.UnquotedFields` | custom_components/R470GP_router/deps/R470GP.py:69-77 | `_unquote` keeps the key set, decodes `connect_date`, `connect_time` and `ssid` only when they are non-empty, and leaves every other field alone |
| `R470GP.Unquote` | custom_components/R470GP_router/deps/R470GP.py:69-77 | the in-place loop over the three keys gives exactly the decoded record |
| `R470GP.UniqueName` | custom_components/R470GP_router/deps/R470GP.py:79-87 | only `hostname` may change or be added; all other fields are kept |
| `R470GP.UniqueNameRule` | custom_components/R470GP_router/deps/R470GP.py:80-87 | an empty or missing `mac` leaves the record unchanged; a placeholder name (missing, `""`, `---`, `anonymous`) becomes the `mac` without dashes; any other name is kept verbatim |
| `R470GP.UniqueNameIdempotent` | custom_components/R470GP_router/deps/R470GP.py:83-87 | naming twice is the same as naming once |
| `R470GP.HostIsDeprecate` | custom_components/R470GP_router/deps/R470GP.py:90-106 | an online host is never deprecated, whatever its date; otherwise an empty date means deprecated; a malformed date raises; else deprecated iff now minus midnight of the date exceeds 7 days |
| `R470GP.GraceBoundary` | custom_components/R470GP_router/deps/R470GP.py:103-106 | exactly 7 days after midnight of the date a host is kept; one microsecond later it is deprecated |
| `R470GP.GraceInDays` | custom_components/R470GP_router/deps/R470GP.py:99-106 | at midnight 7 calendar days after `connect_date` a host is kept; at midnight 8 days after it is deprecated |
| `R470GP.Filter` | custom_components/R470GP_router/deps/R470GP.py:63-67 | the filtered record keeps string text fields and the same `mac` |
| `R470GP.FilterFields` | custom_components/R470GP_router/deps/R470GP.py:63-67 | `_filter` raises exactly when the decoded date is malformed; it adds `is_deprecate`, computed on the decoded record, and changes no field beyond what `_unquote` and `_unique_name` change |
| `R470GP.FilterHost` | custom_components/R470GP_router/deps/R470GP.py:63-67 | running the three steps in place gives exactly `Filter` |
| `R470GP.FilterWith` | custom_components/R470GP_router/deps/R470GP.py:56-59 | the filter the host-table loop applies is `_filter` on every record, keeps the text fields and keeps `mac` |
| `R470GP.Store` | custom_components/R470GP_router/deps/R470GP.py:59-60 | every stored record sits under its own `mac` |
| `R470GP.StoreOk` | custom_components/R470GP_router/deps/R470GP.py:55-61 | storing succeeds exactly when no record raised |
| `R470GP.StoreKeys` | custom_components/R470GP_router/deps/R470GP.py:55-61 | when storing succeeds, the keys are exactly the `mac`s of all records |
| `R470GP.StoreFirstError` | custom_components/R470GP_router/deps/R470GP.py:55-57 | a returned error is the first one raised, and every earlier record was filtered successfully |
| `R470GP.StoreLastWins` | custom_components/R470GP_router/deps/R470GP.py:59-60 | a later record with the same `mac` overwrites an earlier one |
| `R470GP.StoreStops` | custom_components/R470GP_router/deps/R470GP.py:55-57 | records after the first raising one make no difference |
| `R470GP.CollectKeys` | custom_components/R470GP_router/deps/R470GP.py:54-61 | for a filter that keeps `mac` (as `_filter` does): the table loads exactly when no record raises; its keys are then exactly the `mac` values of all unwrapped records (`""` when missing), and the last record with a given `mac` wins |
| `R470GP.CollectSnoc` | custom_components/R470GP_router/deps/R470GP.py:58-60 | one more record either raises its filter's error or is stored, filtered, under its `mac` over what was collected before |
| `R470GP.CollectStops` | custom_components/R470GP_router/deps/R470GP.py:55-58 | once a record raises, the records after it do not change the result |
| `R470GP.UnwrapHostTable` | custom_components/R470GP_router/deps/R470GP.py:54-61 | the nested loop over wrappers and their items returns exactly the fold `Collect` of the flattened table, stopping at the first raise |
| `R470GP.StoreWrapper` | custom_components/R470GP_router/deps/R470GP.py:57-60 | the inner loop over one wrapper's items extends what was collected from the earlier records by exactly that wrapper's records |
| `R470GP.HostInfoCases` | custom_components/R470GP_router/deps/R470GP.py:44-61 | `{}` when there is no token and login fails, `{}` when the table reply is empty, otherwise the collected table |
| `R470GP.LoginStoresToken` | custom_components/R470GP_router/deps/R470GP.py:32-39 | login succeeds iff the reply is non-empty and the token it leaves is non-empty, and that token is the `stok` sent; a failed login leaves the old token or `""` |
| `R470GP.Router.constructor` | custom_components/R470GP_router/deps/R470GP.py:14-19 | a new client has credentials set and an empty token |
| `R470GP.Router.GetToken` | custom_components/R470GP_router/deps/R470GP.py:21-39 | returns true iff the reply is non-empty with a non-empty `stok`; a non-empty reply sets the token to `stok` or `""`; an empty reply keeps the old token |
| `R470GP.Router.GetHostInfo` | custom_components/R470GP_router/deps/R470GP.py:41-61 | logs in only without a token; the token is unchanged by a failed table request; the result is `HostInfo` of the starting token |
| `DeviceTracker.Scanner.constructor` | custom_components/R470GP_router/device_tracker.py:37-47 | the cache starts empty and nothing has been registered |
| `DeviceTracker.Scanner.ExtraAttributes` | custom_components/R470GP_router/device_tracker.py:73-79 | the stored record for a known device, `{}` for an unknown one |
| `DeviceTracker.Scanner.DeviceName` | custom_components/R470GP_router/device_tracker.py:88-90 | the stored `hostname`, or `""` when the device is unknown or has no hostname |
| `DeviceTracker.Scanner.Update` | custom_components/R470GP_router/device_tracker.py:54-65 | the token is what `get_host_info` leaves; a raise is returned and leaves the cache and the registrations unchanged; an empty fetch keeps the cache and registers nothing; a non-empty fetch replaces the cache wholesale and appends one registration per key |
| `DeviceTracker.Scanner.Register` | custom_components/R470GP_router/device_tracker.py:60-65 | each cached host is registered exactly once, with `mac` = key, `dev_id` = key without dashes, `host_name` = its `hostname` or `""`, and its stored record as attributes |
| `DeviceTracker.Scanner.ScanDevices` | custom_components/R470GP_router/device_tracker.py:54-71 | the update's whole effect, as for `Update`: the token, the raised error, the cache and the registrations (none after an empty or raising fetch); then, unless it raised, the list names each cached key exactly once, which after an empty fetch are the previous keys |
| `DeviceTracker.Keys` | custom_components/R470GP_router/device_tracker.py:70 | the list names every key of the map exactly once |

## Left out

- HTTP transport (`BaseRouter._post`, aiohttp): each reply is a parameter, and a failed request is the empty map. The request URLs, bodies and headers are not modelled. In `_post` (deps/base.py:23), the built `send_header` is never sent.
- `urllib.parse.unquote`: a library call, taken as the uninterpreted parameter `unquote`.
- `datetime.now()`: the parameter `now`, one clock reading for the whole host-table fetch. Python reads the clock once per record that is not online and has a date, so two such records with the same `connect_date` can get different `is_deprecate` values within one poll. The model cannot show that.
- `strptime`: `\d` also matches non-ASCII Unicode digits, which the model does not accept.
- Reply shapes: login replies are modelled as string-valued maps and host-table replies as nested maps. Non-object values under `host_management`, which would make Python raise `AttributeError`, are not modelled.
- R470GP.Filter: non-string values in `mac`, `hostname`, `state`, `connect_date`, `connect_time` or `ssid` are excluded by the precondition `TextFields`. On such values Python would raise `TypeError`/`AttributeError` or compare unequal.
- DeviceTracker.Scanner.Register: the order of registrations, which is dict insertion order in Python, is not modelled. The host map is a Dafny `map`, so only "each key exactly once" is stated.
- DeviceTracker.Keys: the order of the returned list, for the same reason.
- Home Assistant glue: `PLATFORM_SCHEMA`, `async_setup_scanner`, `async_init`, the periodic timer, session creation, and the real `async_see` sink, which is the ghost sequence `seen`. Logging is left out too.
- Async scheduling: each poll is sequential and holds no lock, so it is modelled as plain sequential calls.
- The unused string literal after `get_extra_attributes` (device_tracker.py:80-86) has no effect and is not modelled.

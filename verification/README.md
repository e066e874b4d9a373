# Cloudflare dynamic-DNS updater, modelled in Dafny

This project models the decision logic of `update.py`, a small updater. On each
iteration it looks up the host's public IPv4 address and lists the Cloudflare
zones admitted by the `CLOUDFLARE_FQDNS` setting. It then rewrites every A
record named exactly like a zone whose content differs from that address
(or every such record when `FORCE_UPDATE` is set), either by a write request or by a dry-run log line. Each step is a pure function
of what the network answered, and the proofs relate those functions to reference
readings of `update.py`.

Modules, in the order of the program:

- `Wrappers`: `Option` and `Result`.
- `Text`: Python's `str.strip()` (with the full `str.isspace` set), `str.split(sep)` and the substring test `in`.
- `IpFormat`: `is_valid_ip`. It has two parts:
  - a direct reading of the regular expression `\b(?:[0-9]{1,3}\.){3}[0-9]{1,3}\b` under `re.match`, with backtracking over group widths (`PatternMatches`);
  - the recogniser the rest of the model uses, built from maximal digit runs (`IsValidIp`).

  The two are proved equivalent.
- `PublicIp`: `get_public_ip`. One pass goes over the three lookup services in order, and each service's response becomes a verdict:
  - accept the candidate;
  - pass over it (request error, undecodable JSON, invalid candidate);
  - crash (a JSON body that is not an object, or an `"ip"` that is not a string, raises `AttributeError`, which the loop does not catch).

  The `@retry` decorator makes three such passes.
- `Zones`: `get_zones` over an insertion-ordered dict, plus the split of the `CLOUDFLARE_FQDNS` setting.
- `Records`: `filter_dns_records`, `should_update_record`, the write payload, `update_dns_record`'s dry-run switch, and one zone's pass of `fetch_and_update_zones`. A small model of the provider's records after writes are carried out states what a pass achieves.
- `Cycle`: one iteration of `main` after the network check.

Network answers are parameters:
- each lookup attempt's three service responses;
- the zone listing (`None` when the request fails);
- a map from zone id to record listing (a missing id means the request failed or got a non-200 status).

Writes are returned as `Action` values, not performed.

Facts about `update.py` that the model keeps:
- The comma-separated tokens are the zone-name filter as they are, whitespace included; nothing is grouped by apex domain.
- Records are kept only when their name equals the zone name.
- A failed zone listing is logged and yields an empty dict, so the iteration does nothing; it is not an error.
- A failed address lookup propagates out of `main` and ends the process (`RunCycle` returns `Failure`).
- An empty setting yields the filter `[""]`, not "no filter". The setting's effect is to admit only a zone literally named `""`.

## Model

| member | source | states |
|---|---|---|
| IpFormat.IsValidIpMatchesPattern | update.py:39-42 | the recogniser accepts a string exactly when the pattern, read as a backtracking regular expression anchored at the start only, matches it |
| IpFormat.ScanAgreesWithPattern | update.py:41 | k groups of maximal digit runs of length 1 to 3, separated by dots and closed by a word boundary, are recognised exactly when the regular expression's k remaining groups can match there with some choice of widths |
| IpFormat.TrailingTextIgnored | update.py:42 | `re.match` only anchors the start: anything after an accepted prefix that begins with a non-word character leaves the string accepted |
| IpFormat.ValidFromGroups | update.py:41 | any four groups of one to three digits joined by dots, followed by nothing or a non-word character, are accepted, with no range check on the values |
| IpFormat.WordAfterFourthGroupRejected | update.py:41 | the closing `\b` rejects a word character straight after the fourth group, unless it is a digit that extends a group of fewer than three digits |
| IpFormat.LongRunRejected | update.py:41 | a run of four or more leading digits can never be a group |
| IpFormat.NoLeadingDigitRejected | update.py:41-42 | a string that does not begin with a digit, the empty string included, is rejected |
| IpFormat.LeadingGroups | update.py:41 | after three valid groups and dots, acceptance depends only on the rest forming one final group |
| IpFormat.NextGroup | update.py:41 | a valid group and a dot in front of a string add one group to what the string must hold |
| IpFormat.LastGroup | update.py:41 | a final group followed by nothing or a non-word character closes the pattern |
| IpFormat.TestAddressAccepted | tests/test_update.py:6-7 | `"192.168.1.1"` is accepted |
| IpFormat.NotAnIpRejected | tests/test_update.py:9-10 | `"not_an_ip"` is rejected, and so is `""` |
| IpFormat.LooseFormsAccepted | update.py:41-42 | `"999.999.999.999"` (no octet range check), `"1.2.3.4 x"` (trailing text) and `"1.2.3.4.5"` (the dot after the fourth group is a word boundary) are all accepted |
| IpFormat.LongFirstGroupRejected | update.py:41 | `"1234.1.1.1"` is rejected |
| IpFormat.LetterAfterAddressRejected | update.py:41 | `"1.2.3.4a"` is rejected |
| Text.Strip | update.py:52-54 | the result has no whitespace at either end, and it is the input with whitespace-only margins removed |
| Text.StripUnique | update.py:52-54 | a stripped core with whitespace padding on both sides strips to exactly that core |
| Text.StripIdempotent | update.py:52-54 | stripping twice is stripping once |
| Text.Split | update.py:19 | a split always yields at least one piece, no piece contains the separator, and joining the pieces with the separator gives back the input |
| Text.SplitJoin | update.py:19 | splitting the join of pieces free of the separator gives back exactly those pieces |
| PublicIp.Extract | update.py:49-56 | a plain-text body gives its stripped text; a JSON object without `"ip"` gives `""`; a failed request or an undecodable JSON body is skipped; a JSON service raises exactly when the body is not an object or its `"ip"` is not a string |
| PublicIp.Judge | update.py:49-58 | a service's answer is accepted exactly when its extracted candidate is a valid address, and then with that candidate; it crashes the pass exactly when extraction raises; otherwise it is passed over |
| PublicIp.JudgeRead | update.py:49-58 | the same verdict for a response read as JSON or as text, stated over `Read` |
| PublicIp.NothingUsablePassedOver | update.py:54-58 | a service that neither raises nor gives a valid candidate is passed over |
| PublicIp.NothingUsableExhausted | update.py:47-59 | a pass in which every service fails, is skipped or answers something invalid runs out |
| PublicIp.FallbackAfterInvalid | update.py:47-56 | a text service answering something that is not an address is masked by a later text service with a valid one |
| PublicIp.FirstDecision | update.py:48-59 | a pass runs out of services exactly when every verdict passes over its service; otherwise some verdict decides it and every earlier one passed over |
| PublicIp.DecidedPrefix | update.py:55-56 | once the services so far have decided the pass, later verdicts change nothing |
| PublicIp.RejectedPrefix | update.py:57-58 | services that were all passed over leave the decision to the remaining ones |
| PublicIp.Verdicts | update.py:48 | each service is judged on its own response, in list order |
| PublicIp.VerdictsAppend | update.py:48 | the verdicts of concatenated service lists are the concatenated verdicts |
| PublicIp.SelectIp | update.py:48-59 | a found address is valid and stripped; a pass runs out exactly when every service is passed over; any other outcome is decided by one service, all earlier ones passed over |
| PublicIp.LaterServicesIgnored | update.py:55-56 | after a service has decided the pass, later services are not consulted |
| PublicIp.FailedServicesSkipped | update.py:57-58 | services that are passed over leave the result to the services after them |
| PublicIp.ServicesReadAsListed | update.py:32-36 | in each attempt the ipify and ipinfo responses are read as JSON and the ifconfig.me response as stripped text, in that order |
| PublicIp.JsonServices | update.py:51 | the ipify and ipinfo URLs are read as JSON |
| PublicIp.TextService | update.py:51 | the ifconfig.me URL is read as plain text |
| PublicIp.IfconfigIsText | update.py:35 | `"https://ifconfig.me/ip"` contains neither `ipify` nor `ipinfo` |
| PublicIp.Retry | update.py:45 | the attempts stop at the first that found an address; if none did, the last attempt's outcome is what propagates |
| PublicIp.Resolve | update.py:45-59 | over three attempts, a resolved address is valid and stripped and was found by some attempt; resolution fails exactly when no attempt found one, and then reports the last attempt's outcome |
| PublicIp.FallbackAfterFailure | update.py:48-58 | an unreachable first service is masked by a later text service that returns a valid address |
| PublicIp.FailedRequestRejected | update.py:57-58 | a request error passes over its service |
| PublicIp.ValidTextAccepted | update.py:53-56 | a text service whose body is a valid, unpadded address is accepted with it |
| PublicIp.TextBodyRead | update.py:53-54 | a text service's candidate is its stripped body |
| PublicIp.JsonFieldRead | update.py:51-52 | a JSON service's candidate is its stripped `"ip"` string |
| PublicIp.ValidCandidateAccepted | update.py:55-56 | a valid candidate is accepted as is |
| PublicIp.PassedOver | update.py:57-58 | a first service that is passed over leaves the pass to the rest |
| PublicIp.AcceptedFirst | update.py:55-56 | a first service that accepts settles the pass with its address |
| PublicIp.JsonServiceAnswer | update.py:51-56 | a first JSON service answering with a valid, unpadded `"ip"` settles the pass with that address |
| PublicIp.ValidJsonAccepted | update.py:51-56 | a JSON service whose `"ip"` is a valid, unpadded address is accepted with it |
| PublicIp.FirstJsonServiceWins | tests/test_update.py:15-19 | when ipify first answers `{"ip": "123.45.67.89"}`, the lookup returns `"123.45.67.89"` |
| PublicIp.TestAddressValid | tests/test_update.py:18-19 | `"123.45.67.89"` is a valid, stripped address |
| PublicIp.AttemptOutcome | update.py:48-59 | one attempt over its three responses (ipify and ipinfo read as JSON, then ifconfig.me as text): a found address is valid and stripped, the attempt runs out exactly when all three are passed over, and an accepted ipify answer settles it |
| PublicIp.AttemptProbesServices | update.py:32-36 | probing the services of `IP_SERVICES` in list order decides an attempt exactly as `AttemptOutcome` does |
| PublicIp.GetPublicIp | update.py:45-59 | over the three attempts' responses, a returned address is valid and stripped and was found by some attempt, every earlier one finding none; the lookup fails exactly when no attempt found one, and then reports the last attempt's outcome |
| PublicIp.GetPublicIpProbes | update.py:32-59 | the lookup is the retry over passes that probe `IP_SERVICES` in list order |
| PublicIp.FirstAnswerReturned | update.py:48-56 | a valid, unpadded `"ip"` from ipify on the first attempt is the address returned |
| PublicIp.AllRequestsFail | tests/test_update.py:21-25 | when every request of every attempt fails, resolution fails and returns no address |
| Zones.Lookup | update.py:71 | a key is found exactly when it is among the keys, and with the value stored next to it |
| Zones.Put | update.py:71 | after `zones[name] = id`, `name` maps to `id` and every other key keeps its value; a new key goes to the end and an existing key keeps its place |
| Zones.LastId | update.py:69-71 | the reference: the id of the last listed zone with a given name, present exactly when such a zone is listed |
| Zones.CollectZones | update.py:69-71 | the dict holds, for every admitted name, the id of the last listed zone of that name, and nothing for names that are not admitted |
| Zones.ZoneOrder | update.py:69-71 | the dict iterates names in the order of their first admitted listing, each once |
| Zones.GetZones | update.py:62-74 | a failed listing gives an empty dict; otherwise the keys are exactly the listed names the filter admits, each mapped to its last listed id |
| Zones.FqdnFilter | update.py:19 | the filter is never empty, so never falsy: a zone passes exactly when its name is one of the comma-separated tokens, which join back to the setting |
| Zones.EmptySettingAdmitsOnlyUnnamed | update.py:19 | an empty setting gives the filter `[""]`, so only a zone named `""` can be kept |
| Zones.TokensKeepWhitespace | update.py:19 | `"a.com, b.com"` filters on `"a.com"` and `" b.com"`: tokens are not trimmed |
| Records.FilterRecords | update.py:116-118 | the kept records form a subsequence of the listing, all named exactly like the zone |
| Records.FilterCounts | update.py:116-118 | each record occurs in the filtered listing as often as in the listing if its name is the zone name, and not at all otherwise |
| Records.FilterAppend | update.py:116-118 | filtering a concatenated listing is filtering each part |
| Records.NewPayload | update.py:140-146 | the payload has type `A`, the record's name and TTL, the public address as content, and is proxied only when the record says so |
| Records.Reconcile | update.py:139-151 | a record needs no update exactly when not forced and its content equals the address; a write is issued exactly when the run is not a dry run and an update is needed; any update carries the zone, the record id and the payload |
| Records.ProcessZone | update.py:137-151 | a failed record listing gives no actions; the actions reconcile the listed records named like the zone one for one and in listing order, so every action comes from such a record and every such record is reconciled; updates carry the zone and the address; a dry run never writes; a record left alone already holds the address |
| Records.DryRunLeavesRecords | update.py:79-83 | a dry run leaves the provider's records untouched, so repeating it against the same records plans the same thing again |
| Records.LastWrite | update.py:79-88 | when several writes hit one record, the provider keeps the payload of the last; there is none exactly when no write targets the record |
| Records.ApplyWrites | update.py:79-88 | carrying out a plan keeps every record's id; a record no write targets is unchanged, any other takes the last write's payload |
| Records.WrittenRecordsHoldAddress | update.py:134-147 | once a real pass's writes are carried out, every record named like the zone holds the public address |
| Records.SecondPassQuiet | update.py:121-123 | after a real pass's writes are carried out, a pass that is not forced finds nothing to update |
| Cycle.UpdateZones | update.py:134-151 | every action reconciles a listed record of one of the dict's zones named like that zone, and every such record of every zone is reconciled; there are exactly as many actions as such records; a dry run issues no write |
| Cycle.UpdateZonesAppend | update.py:135-137 | zones are processed one after another: the plan for `a + b` is the plan for `a` followed by the plan for `b` |
| Cycle.UpdateZonesSingle | update.py:135-137 | one zone's plan is that zone's pass over its own record listing |
| Cycle.RunCycle | update.py:154-164 | the iteration fails exactly when no address attempt found one; otherwise the looked-up address is what every update carries, every update names a requested token, every action reconciles a listed record of an admitted zone, every such record is reconciled, and there is one action per such record; a dry run writes nothing; a failed zone listing does nothing |
| Cycle.ActionsRequested | update.py:158 | every update drawn from the filtered zones names one of the setting's tokens |
| Cycle.EmptySettingIdle | update.py:156-162 | with an empty setting and no zone named `""`, an iteration that resolves its address does nothing |

## Left out

- The HTTP layer is left out: headers, the API token, timeouts, status codes of the lookup requests (`requests` does not raise on them) and the write request's response (lines 88-96 only log it). A write action stands for the request being sent.
- The backoff timing of both `@retry` decorators is left out. `get_public_ip`'s retry is modelled as exactly three observed passes.
- The `update_records` retry (lines 160-164) is left out: every failure the model covers is caught inside `fetch_and_update_zones`, so the retry never fires here. Missing record fields (a `KeyError`) are not modelled.
- `is_network_available`, the endless loop and its sleep, environment parsing (`DRY_RUN`, `FORCE_UPDATE`, `SLEEP`), the token check and logging are left out. The settings arrive as a `Config`.
- IpFormat.IsValidIp: only ASCII letters, digits and `_` count as word characters for `\b`. Python's `\w` on `str` patterns also covers other Unicode letters and digits, so such a character straight after the fourth group is rejected by `update.py` and accepted by the model.
- Records.NewPayload: a `proxied` field that is present but JSON `null` passes through as `None` in `update.py`. The model only distinguishes absent from a boolean.
- Decoding of the zone and record listings is not modelled: a missing `"result"` key, non-JSON bodies and zones without a `"name"` field. A listing is either a sequence of zones or records, or a failure.
- For the lookup services, a body that does not decode as JSON is modelled as passing over the service. This follows `requests` 2.27 and later, where that error is a `RequestException`.

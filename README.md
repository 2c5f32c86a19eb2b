# Brocade zoning cleanup scripts: cross-reference and deletion-safety model

These Python scripts help an operator clean up the zoning database of a
Brocade Fibre Channel fabric. A defined configuration holds aliases, zones
and cfgs. The effective configuration holds the zones that are enabled now,
plus the checksum that a save must quote. The scripts work on both:

- `checks.py` decides whether a list of WWNs and a list of zones can be
  deleted safely.
- `wwnsToAliases.py` turns WWNs into the aliases that name them.
- `dryrun.py` issues the deletes without checks and without saving.
- `deleteZoneObject.py` deletes named objects in a batch and saves once the
  operator confirms.
- `putBack.py` restores one object from a saved configuration.
- Three test scripts build the alias-to-zone role cross-reference, select
  its names by prefix, and count zone members.

The model takes each configuration as parsed records. Aliases, zones and cfgs
are Dafny datatypes, and a zone's two member lists are `Option<seq<string>>`
because the document may omit either one. Each file is a sequence of lines.

The switch is modelled as values:

- every REST call the scripts make is a `FabricCall` in a trace;
- every status code is an integer parameter;
- each script's reading of a status code is a predicate.

Python's insertion-ordered `dict` is `Zoning.Dict`. It has a key sequence and
a value map, and `Put` follows Python's rule: a new key goes to the end, and
an existing key keeps its place. A `SortedSet` is a strictly ascending
sequence under `Sorted.Below`, which is Python's code-point order on `str`.
A `SortedList` is `Sorted.SortList`.

The `re.search` of check 1 is `WwnFormat.ContainsWwn`: some offset starts
eight hex pairs separated by colons. `str.strip()` is `Text.Strip`, over
Python's `isspace()` characters.

Loops over a Python `set` run in an order the program does not fix. The
model picks each element with `:|`, and the methods return the order they
used as ghost out-parameters.

Modules, one per source file or shared concept:

- `Zoning`: records, `Dict`, the `"Response"` envelope.
- `Text`: `strip`.
- `Sorted`: the string order, SortedSet and SortedList.
- `WwnFormat`: check 1's pattern.
- `AliasIndex`: `buildAliasToWwn`, `flipAliastoWWN`, `getAliasesFromWwns`.
- `Checks`: `checks.py`.
- `WwnsToAliases`: `wwnsToAliases.py`.
- `ZoneXref`: `buildAliasToZoneXref`.
- `SelectByPrefix`: `testSelectByPrefix.py`.
- `ZoneMemberCount`: `testZoneMemberCount.py`.
- `Fabric`: resources, calls and status readings.
- `ObjectResolver`: the table building and name resolution shared by `putBack.py` and `deleteZoneObject.py`.
- `PutBack`: `putBack.py`.
- `DeleteZoneObject`: `deleteZoneObject.py`.
- `DryRun`: `dryrun.py`.

`buildAliasToWwn` and `flipAliastoWWN` are identical in `checks.py`,
`wwnsToAliases.py` and `dryrun.py`, and `getAliasesFromWwns` is identical in
`checks.py` and `wwnsToAliases.py` (`dryrun.py` has no copy of it), so each is
modelled once and cited at its `checks.py` copy. `buildAliasToZoneXref` is identical in
`testXref.py` and `testSelectByPrefix.py` and is modelled once. The three
copies of `getSetFromFile` differ, so each script's module has its own.

The save carries the checksum that was read before the first change:
`deleteZoneObject.py` (lines 194, 240 and 246) and `putBack.py` (lines 264
and 274) read it once and send that value with the save, without reading it
again after the deletes. `DeleteZoneObject.ChecksumReadBeforeDeletes` states
this.

## Model

| member | source | states |
|---|---|---|
| Zoning.ZoneMembers | checks.py:74-79 | a zone's members are exactly the entries of its `entry-name` and `principal-entry-name` lists, either possibly missing |
| Zoning.LastIndex | checks.py:51-52 | the position of the record whose value a dict keeps under a name: a record with that name, with no later record of the same name; none exactly when no record has the name |
| Zoning.Dict.Put | checks.py:52 | `d[k] = v` keeps the dict well formed, maps k to v, leaves the other keys' values alone, appends a new key and leaves an existing key in place |
| Zoning.UnwrapResponseRoundTrip | putBack.py:76-83 | loading a reply in its `"Response"` envelope and loading the bare configuration give the same configuration |
| Text.Strip | checks.py:41 | `strip()` is empty exactly for an all-whitespace line, and otherwise neither starts nor ends with whitespace |
| Text.StripInfix | checks.py:41 | what `strip()` keeps is a contiguous part of the line, and what it removes on both sides is whitespace only |
| Text.StripIdempotent | checks.py:41 | stripping a stripped line changes nothing |
| Sorted.BelowTransitive | checks.py:103 | the string order that SortedSet keeps is transitive |
| Sorted.BelowTotal | checks.py:103 | any two different strings are ordered one way or the other |
| Sorted.Insert | checks.py:107 | `SortedSet.add` keeps the sequence strictly ascending and adds exactly the new element |
| Sorted.SortedSetOf | checks.py:103-107 | the SortedSet holding a set is strictly ascending and holds exactly the set's strings |
| Sorted.StrictlySortedUnique | checks.py:103-107 | two SortedSets holding the same strings are the same sequence, so the result does not depend on the insertion order |
| Sorted.InsertKeep | testSelectByPrefix.py:77 | adding to a SortedList keeps it non-decreasing and adds exactly one copy of the element |
| Sorted.SortList | testSelectByPrefix.py:77 | `SortedList(xs)` is non-decreasing and a permutation of xs |
| Sorted.SortListOfDistinct | testSelectByPrefix.py:77 | a SortedList of distinct strings is strictly ascending and holds exactly those strings |
| WwnFormat.SurroundedWwnPasses | checks.py:162 | the search is unanchored: text around a WWN does not make the entry fail |
| WwnFormat.ContainsWwn | checks.py:162 | an entry passes exactly when some eight colon-separated pairs of hex digits occur in it, anywhere |
| WwnFormat.CanonicalWwnPasses | checks.py:162 | every canonical WWN (eight hex pairs of either case, joined by colons) passes the format check |
| WwnFormat.MalformedWwnFails | checks.py:162 | every entry shorter than a WWN fails, and so does every entry of a WWN's length lacking a colon at one of the separator positions |
| WwnFormat.FindMalformed | checks.py:161-166 | the first loop flags exactly the entries in which no WWN occurs |
| AliasIndex.Dedup | checks.py:51-52 | the key order of a dict filled by assignment: every name once, and nothing else |
| AliasIndex.DedupKeepsFirstOccurrenceOrder | checks.py:51-52 | a name precedes another in the key order exactly when it first occurs before the other in the records |
| AliasIndex.AliasTable | checks.py:45-54 | `aliasTable` is a well-formed dict |
| AliasIndex.AliasTableStep | checks.py:51-52 | one more alias record is exactly one `aliasTable[name] = members` assignment |
| AliasIndex.AliasTableSpec | checks.py:51-52 | an alias name is a key exactly when some record has it, and maps to the member list of the last record with that name, order and repeats kept |
| AliasIndex.BuildAliasToWwn | checks.py:45-54 | the loop builds `aliasTable`, one assignment per record, keys in first-occurrence order |
| AliasIndex.OccSpec | checks.py:59-62 | walking one alias's member list appends only that alias under a WWN, and appends it at least once exactly when the WWN is in the list |
| AliasIndex.InvertedMembers | checks.py:58-62 | after the first n aliases, the list under a WWN holds exactly those of the n aliases whose member list holds the WWN |
| AliasIndex.AppendUnder | checks.py:59-62 | the inner loop adds a key for every member not yet present, and appends the alias once per occurrence of each member, leaving the other lists as they were |
| AliasIndex.FlipAliasToWwn | checks.py:56-63 | the loop builds `wwnTable` from `aliasTable` |
| AliasIndex.InvertedNonEmpty | checks.py:56-63 | a WWN's list is non-empty exactly when some alias lists the WWN |
| AliasIndex.WwnTableIsInverse | checks.py:56-63 | alias a is listed under WWN x exactly when x is a member of a, and no WWN has an empty list |
| AliasIndex.WwnTableInverts | checks.py:56-63 | `wwnTable` is the relational inverse of `aliasTable`: sound, complete and without empty lists |
| AliasIndex.HasEntryIffListed | checks.py:171 | a WWN is a key of `wwnTable` exactly when some alias lists it, which is what check 2 tests |
| AliasIndex.AliasesForIffListed | checks.py:102-109 | the aliases collected for a set of WWNs are exactly the aliases listing one of those WWNs; WWNs with no key add nothing |
| AliasIndex.FirstAliasUnique | dryrun.py:265-268 | at most one alias is the first, in `aliasTable` order, to list a given WWN |
| AliasIndex.InvertedHead | dryrun.py:140-147 | the head of a WWN's list is the first alias, in `aliasTable` key order, whose member list holds the WWN |
| AliasIndex.WwnTableFirstAlias | dryrun.py:267-268 | `wwnLookupTable[wwn][0]` exists for every key and is the first alias in table order that lists the WWN |
| AliasIndex.GetAliasesFromWwns | checks.py:102-109 | the result is strictly ascending and holds exactly the aliases listed under the given WWNs |
| Checks.GetSetFromFile | checks.py:35-43 | the set of the stripped lines, blank ones included |
| Checks.LineSetEntries | checks.py:35-43 | every entry is stripped, and the empty name is in the set exactly when some line is all whitespace |
| Checks.MemberSetSpec | checks.py:74-79 | a WWN is collected exactly when some zone lists it under `entry-name` or `principal-entry-name` |
| Checks.MemberSetAppend | checks.py:71-79 | one more zone adds exactly its members to the collected set |
| Checks.AddAll | checks.py:75-76 | `for j in list: s.add(j)` adds exactly the list's entries |
| Checks.CollectZonesAndMembers | checks.py:71-79 | the loop collects exactly the zone names and the members of the zones |
| Checks.GetZonesAndWwpnsFromEffectiveConfig | checks.py:65-81 | the zone set is the enabled zones' names; the WWN set is the union of their two member lists, a missing list contributing nothing |
| Checks.GetZonesAndMembersFromDefinedConfig | checks.py:83-100 | the same two sets, taken over the defined zones |
| Checks.Decide | checks.py:159-234 | the checks stop at check 1 exactly when some WWN entry holds no WWN, and pass exactly when every entry is a WWN and a key of the lookup table, every zone to delete is defined, and no zone or WWN to delete is enabled |
| Checks.RunChecks | checks.py:159-247 | main's result is the verdict of the five checks in order: check 1 alone, then checks 2 and 3 together, then checks 4 and 5 together, then the report |
| Checks.MalformedWwnStopsFirst | checks.py:159-168 | the run stops at check 1 exactly when some stripped WWN line holds no WWN, and it reports exactly those entries |
| Checks.UnresolvedStopsAfterCheck3 | checks.py:170-189 | after check 3 the run stops, before checks 4 and 5, exactly when every entry is well formed and either some WWN is listed by no alias or some zone to delete is not defined |
| Checks.AllWellFormedIff | checks.py:161-168 | no entry is flagged exactly when every entry contains a WWN |
| Checks.UnaliasedIff | checks.py:171-172 | the difference with the table's keys is non-empty exactly when some WWN is listed by no alias |
| Checks.UndefinedIff | checks.py:181-182 | the difference with the defined zone names is non-empty exactly when some zone to delete is named by no zone record |
| Checks.ZoneOverlapIff | checks.py:208-210 | the enabled zones' names meet the zones to delete exactly when some enabled zone is named in the zone file |
| Checks.WwnOverlapIff | checks.py:220-222 | the enabled zones' members meet the WWNs to delete exactly when some member of an enabled zone is in the WWN file |
| Checks.OverlapDecides | checks.py:208-234 | once checks 1 to 3 pass, the run stops at checks 4 and 5 exactly when an enabled zone is named in the zone file or a member of an enabled zone is in the WWN file, reporting both overlaps; otherwise it passes |
| Checks.ExitsZeroIffAllChecksPass | checks.py:159-234 | the run exits with 0 or 2, and with 0 exactly when every WWN entry is a WWN that some alias lists, every zone to delete is defined, no enabled zone is to be deleted and no member of an enabled zone is a WWN to delete |
| Checks.BlankWwnLineFailsCheck1 | checks.py:159-168 | a blank line in the WWN file becomes `""`, which fails check 1 |
| Checks.BlankZoneLineStops | checks.py:181-189 | a blank line in the zone file becomes `""`, which fails check 3 and stops the run, although the report leaves the empty name out |
| Checks.SafeVerdictIsSafe | checks.py:208-244 | a run that passes every check deletes no enabled zone and no member of an enabled zone; every WWN has a non-empty alias list that is exactly its aliases; the aliases to delete are sorted and are exactly the aliases of those WWNs |
| Checks.SafeReport | checks.py:236-244 | the printed translation and alias list, under the conditions of a passing run |
| Checks.EnabledZoneScenario | checks.py:208-229 | a defined zone that is still enabled stops the run at check 4 alone, with no WWN overlap reported, even when the lines are padded with whitespace |
| Checks.ScenarioDecision | checks.py:208-234 | checks 4 and 5 are evaluated independently: a zone overlap alone gives a report naming the zone and no WWN |
| WwnsToAliases.GetSetFromFile | wwnsToAliases.py:35-46 | a strictly ascending SortedSet of exactly the non-blank stripped lines |
| WwnsToAliases.NonBlankLinesEntries | wwnsToAliases.py:41-44 | a line contributes exactly when it is not all whitespace; no entry is empty or padded |
| WwnsToAliases.Decide | wwnsToAliases.py:109-131 | the run stops at check 1 exactly when some entry holds no WWN, and at check 2 exactly when every entry is a WWN but some is listed by no alias |
| WwnsToAliases.Run | wwnsToAliases.py:103-134 | main's result is the decision of check 1, then check 2, then the alias lookup |
| WwnsToAliases.AliasesCoverEveryWwn | wwnsToAliases.py:109-134 | aliases are printed exactly when every WWN is well formed and listed by some alias; the list is sorted, holds each alias once, is exactly the aliases of the WWNs, and covers every WWN |
| WwnsToAliases.DecideAccepts | wwnsToAliases.py:117-131 | the decision reaches the lookup exactly when every entry is a WWN that some alias lists |
| WwnsToAliases.FoundAliases | wwnsToAliases.py:68-75 | the aliases found are sorted, are exactly those listing an entry, and every entry has one of them |
| WwnsToAliases.MalformedStopsBeforeAliasCheck | wwnsToAliases.py:109-118 | a non-blank line that holds no WWN ends the run at check 1 |
| WwnsToAliases.MalformedDecided | wwnsToAliases.py:111-118 | a malformed entry is among those check 1 reports |
| WwnsToAliases.BlankLinesIgnored | wwnsToAliases.py:41-44 | appending all-whitespace lines to the file does not change the outcome |
| ZoneXref.Tag | testXref.py:49 | an entry is the three-character role mark followed by the zone name |
| ZoneXref.ParseTagRoundTrip | testXref.py:49-60 | every entry reads back as the role and zone it was made from |
| ZoneXref.TagInjective | testXref.py:49-60 | two entries are equal exactly when their roles and zones are |
| ZoneXref.AddTag | testXref.py:47-49 | `aliasXref[k].add(tag)` creates the key when it is new, and adds exactly that tag under k while keeping every entry list sorted |
| ZoneXref.TagAll | testXref.py:46-49 | an inner loop adds the tag under every name of the list, and the keys stay in first-visit order |
| ZoneXref.AddZone | testXref.py:43-60 | one zone adds exactly its own entries: `<M>` for a standard zone's `entry-name`, `<P>` and `<N>` for a peer zone's two lists, either possibly missing |
| ZoneXref.BuildAliasToZoneXref | testXref.py:38-63 | the build fails exactly when a standard zone has no `entry-name`; otherwise each name holds exactly the entries its zones give it, with keys in visit order |
| ZoneXref.XrefStep | testXref.py:42-60 | one more zone adds its entries and its names, and fails exactly when it is a standard zone without `entry-name` |
| ZoneXref.XrefEntryIff | testXref.py:42-60 | an entry for name j exists exactly when it reads back as a role and a zone whose list for that role holds j, with the zone type matching the role |
| ZoneXref.VisitedIffTagged | testXref.py:42-60 | a name becomes a key exactly when some zone gives it an entry |
| ZoneXref.XrefKeysAndValues | testXref.py:47-60 | each key appears once, the keys are exactly the names some zone lists in a role, and every entry list is non-empty and strictly sorted |
| ZoneXref.OtherTypesIgnored | testXref.py:44-60 | a zone of a type other than 0 or 1 adds no entry and no key, and never fails |
| SelectByPrefix.StartingWith | testSelectByPrefix.py:77 | the comprehension keeps exactly the names that start with the prefix |
| SelectByPrefix.StartingWithDistinct | testSelectByPrefix.py:75-77 | filtering distinct names leaves them distinct |
| SelectByPrefix.SelectSpec | testSelectByPrefix.py:75-80 | the printed names are strictly ascending and are exactly the cross-reference keys that start with the prefix |
| SelectByPrefix.EmptyPrefixSelectsAll | testSelectByPrefix.py:77 | the empty prefix selects every key |
| SelectByPrefix.Outcome | testSelectByPrefix.py:65-80 | main as written: usage only with fewer than two arguments, a failing build, a raise at `argv[2]` with exactly two arguments, and otherwise the selection |
| SelectByPrefix.CheckedOutcome | testSelectByPrefix.py:67-77 | main with the usage test it needs: usage with fewer than three arguments, and never a raise at `argv[2]` |
| SelectByPrefix.ConfigOnlyRaises | testSelectByPrefix.py:67-77 | given only the configuration file, main as written raises, where the checked version prints usage |
| SelectByPrefix.RunSelect | testSelectByPrefix.py:65-80 | main builds the cross-reference and prints exactly the selected keys, sorted, or ends as Outcome says |
| ZoneMemberCount.Written | testZoneMemberCount.py:43-51 | a standard zone records its `entry-name` count with zero principal and non-principal counts; a peer zone records zero members and the sizes of its two lists; both record the zone type |
| ZoneMemberCount.LastCounted | testZoneMemberCount.py:40-51 | the last standard or peer zone of a name is the one whose counts stand |
| ZoneMemberCount.BuildZoneMemberCounts | testZoneMemberCount.py:37-52 | the loop fails exactly when some zone makes it raise; otherwise there is one record per zone name, holding the counts of that name's last standard or peer zone |
| ZoneMemberCount.LastZoneWins | testZoneMemberCount.py:44-51 | a later zone of the same name overwrites the earlier record |
| ZoneMemberCount.OneRecordPerName | testZoneMemberCount.py:40-51 | the keys are distinct and are exactly the zone names |
| ZoneMemberCount.OtherTypeNeedsRecord | testZoneMemberCount.py:51 | a zone of another type whose name has no record yet makes the loop raise |
| ZoneMemberCount.PeerZoneNeedsBothLists | testZoneMemberCount.py:48-49 | a peer zone missing either list makes the loop raise |
| ZoneMemberCount.MainConfigFile | testZoneMemberCount.py:54-60 | main as written: fewer than two arguments give the usage exit; otherwise the configuration is loaded from `"foo.json"` |
| ZoneMemberCount.IntendedConfigFile | testZoneMemberCount.py:54-60 | what main evidently means: the same usage exit, then the file named on the command line |
| ZoneMemberCount.ConfigArgumentIgnored | testZoneMemberCount.py:60 | two runs naming different files read the same file, whereas the intended reading differs |
| Fabric.Uri | putBack.py:246-254 | a resource is the kind's prefix followed by the object name |
| Fabric.ParseUri | putBack.py:246-254 | a resource read back as a kind and a name rebuilds to itself |
| Fabric.UriRoundTrip | putBack.py:246-254 | every resource reads back as the kind and name it was built from |
| Fabric.UriInjective | putBack.py:246-254 | distinct objects live at distinct resources |
| Fabric.StatusReadings | putBack.py:152-197 | a delete is reported unless 204 or 400, a create unless 201, a save at 300 or more; dryrun reports every delete but 204, so the two readings differ only at 400 |
| Fabric.ObjectDeleteReported | putBack.py:152 | a delete is reported as an error unless the answer is 204 or 400 |
| Fabric.CreateReported | putBack.py:173 | a create is reported as an error unless the answer is 201 |
| Fabric.SaveReported | putBack.py:197 | a save is reported as an error when the answer is 300 or more |
| Fabric.NamedDeleteReported | dryrun.py:178 | in `dryrun.py` a delete is reported as an error unless the answer is 204 |
| ObjectResolver.BuildTable | putBack.py:227-241 | a table-filling loop holds, for every name, the snapshot of the last record of that name |
| ObjectResolver.SnapshotsSpec | putBack.py:227-241 | a name has a key exactly when some record has it, and its snapshot is that of the last such record |
| ObjectResolver.Resolve | putBack.py:243-255 | a resolved name's resource is the name under its kind's prefix |
| ObjectResolver.BuildTables | putBack.py:227-241 | the three loops build the alias, zone and cfg tables |
| ObjectResolver.ResolveSpec | putBack.py:243-258 | a name resolves to an alias when an alias has it, to a zone only when no alias has it, to a cfg only when neither does, and to nothing when no record has it; the resource reads back as that kind and name |
| ObjectResolver.ResolvedPayload | putBack.py:247-255 | the payload of a resolved name is the snapshot of the last record of its kind with that name |
| PutBack.RestoreObject | putBack.py:221-277 | an unknown name ends the run with exit status 3 before any call, and a known one ends it normally; otherwise the calls are the effective read, the delete and the create at the resolved resource, then a save with the checksum read first, with each status read as the script reads it |
| DeleteZoneObject.ReadTargets | deleteZoneObject.py:184-186 | the targets are the stripped lines in file order |
| DeleteZoneObject.BlankAndRepeatedLinesKept | deleteZoneObject.py:184-186 | a blank line becomes the target `""`, and a repeated line is a target twice |
| DeleteZoneObject.Confirmed | deleteZoneObject.py:245 | the answer confirms exactly when it is `"Y"` or `"y"` |
| DeleteZoneObject.Commit | deleteZoneObject.py:239-250 | the configuration is saved exactly when the override is set or the answer confirms |
| DeleteZoneObject.DeleteObjects | deleteZoneObject.py:181-250 | the calls are the two reads, one delete per resolving target in order, then the save with the checksum read first exactly when the run commits; the skipped names are as the loop leaves them, and the reported ones are those whose own delete, by position, was answered with neither 204 nor 400 |
| DeleteZoneObject.DeleteEach | deleteZoneObject.py:219-238 | the loop issues the deletes of the resolving targets, skips the rest and reports each delete the switch refuses, each delete answered on its own |
| DeleteZoneObject.ReportedSpec | deleteZoneObject.py:161-165 | a resource is reported exactly when one of its deletes was answered with neither 204 nor 400 |
| DeleteZoneObject.RepeatedTargetAnsweredTwice | deleteZoneObject.py:219-238 | a target listed twice is deleted twice; whenever the first delete is accepted (204 or 400) and the second refused, it is reported once |
| DeleteZoneObject.DeletesFollowTargets | deleteZoneObject.py:219-238 | one delete per resolving target, in target order, of the resource of its kind; every target is deleted or skipped, and the skipped names are exactly the targets that resolve to nothing |
| DeleteZoneObject.SkippedNeverDeleted | deleteZoneObject.py:232-234 | no delete issued is of a skipped name |
| DeleteZoneObject.ChecksumReadBeforeDeletes | deleteZoneObject.py:194-247 | the effective configuration is read once, first, and a save happens only on commit, as the last call, with that checksum |
| DryRun.GetSetFromFile | dryrun.py:149-159 | the set of the non-blank stripped lines |
| DryRun.AliasDeleteFor | dryrun.py:267-268 | the delete for a WWN is of the first alias in table order that lists it |
| DryRun.AliasDeleteIsFirstAlias | dryrun.py:267-268 | that delete is determined by the first alias alone |
| DryRun.SharedFirstAliasDeletedTwice | dryrun.py:265-268 | two WWNs with the same first alias send the same delete twice |
| DryRun.PlanDeletions | dryrun.py:247-274 | the run reads both configurations, deletes one alias per WWN, then one zone per name; it fails exactly when some WWN has no alias, and then deletes no zone; it never saves or creates |
| DryRun.OnlyDeletes | dryrun.py:265-274 | past the two reads the run sends deletes only |
| DryRun.DeleteAliases | dryrun.py:265-269 | the WWN loop deletes `wwnLookupTable[wwn][0]` for each WWN, and fails exactly when some WWN has no entry |
| DryRun.DeleteZones | dryrun.py:270-274 | the zone loop deletes each zone once |

## Left out

- REST sessions (`restLogin`, `restLogout`), the HTTP requests and the JSON error bodies are left out. Calls appear only as `FabricCall` values, and status codes as integer parameters.
- A failed login, a failed logout and a non-200 answer to a configuration read are not modelled; every run starts from configurations already read. What the scripts do on each:
  - a login answered with anything but 200 prints the status and calls `exit()`, ending with status 0, in `dryrun.py` (51-53), `putBack.py` (48-50) and `deleteZoneObject.py` (46-48);
  - a logout answered with anything but 204 prints the status and the script carries on (`dryrun.py` 76-77, `putBack.py` 72-73, `deleteZoneObject.py` 69-70);
  - in `deleteZoneObject.py` a non-200 answer to the effective or defined configuration read prints the status and exits with status 3 (112-115, 136-139);
  - in `putBack.py` (127-131) and `dryrun.py` (96-102, 121-127) a non-200 answer to a configuration read prints the status and the body, then the `return` reads `json_response`, which was never assigned, and raises `UnboundLocalError`.
- `getConfigs.py`, `getEffectiveConfig.py` and `getActiveConfig.py` are not part of this model. They fetch a configuration and write it to a file.
- Command-line parsing (`getopt`, `argparse`), settings from `decouple.config` and usage text are left out. The two argument-count tests that decide behaviour are modelled: `SelectByPrefix.Outcome` and `ZoneMemberCount.MainConfigFile`, each with its usage exit.
- Reading files and `json.load` are left out. Files arrive as sequences of lines, and configurations as parsed records. `Zoning.UnwrapResponse` models the envelope on a small JSON datatype, and `Zoning.UnwrapResponseRoundTrip` states what it does.
- Printing is left out. Reports are returned as sets and sequences rather than text.
- `input()` is left out. The operator's answer is a parameter of `DeleteZoneObject.DeleteObjects`.
- `time.sleep` in `dryrun.py` and the verbose messages are left out. They are timing and output only.
- The order in which Python iterates a `set` is not fixed. The loops pick elements nondeterministically, so no lemma depends on that order.
- The `re` engine is replaced by the fixed-length predicate `WwnFormat.ContainsWwn`. It matches the same language as the pattern.
- `DryRun.PlanDeletions` does not report each delete's status. The reading is `Fabric.NamedDeleteReported`, and `Fabric.StatusReadings` relates it to the other scripts' readings.
- `DryRun.PlanDeletions` does not model the KeyError that ends the run when a WWN has no alias. It stops the trace there and sets `failed`.
- `PutBack.RestoreObject` uses the second `saveConfiguration` of `putBack.py`. The first definition is shadowed, and its test is the same.
- `putBack.py` exits with 3 before logging in. Login and logout are not part of the trace.

## Findings

| source | as written | input that shows it | evidently intended | confidence | as-written member | corrected member |
|---|---|---|---|---|---|---|
| testSelectByPrefix.py:67 | the usage test only demands `len(sys.argv) >= 2`, but line 77 reads `argv[2]` | `["testSelectByPrefix.py", "config.json"]`: the usage test passes and `argv[2]` raises IndexError | usage text and exit 2 unless both the file and the prefix are given | not executed | SelectByPrefix.ConfigOnlyRaises | SelectByPrefix.CheckedOutcome |
| testZoneMemberCount.py:60 | the configuration is loaded from the fixed name `"foo.json"`, although the usage test demands a file argument | `["testZoneMemberCount.py", "a.json"]` and `["testZoneMemberCount.py", "b.json"]` both read `foo.json` | load the file named by `argv[1]` | not executed | ZoneMemberCount.ConfigArgumentIgnored | ZoneMemberCount.IntendedConfigFile |

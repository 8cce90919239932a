# Zabbix authentication settings update and network-discovery status model

This project models two parts of Zabbix in Dafny.

**Authentication settings (`CAuthentication`).**
- `validateUpdate`:
  - checks a request against the per-field input rules (enumerations, ranges, UTF-8 length limits, non-empty flags);
  - fills the two password settings with their schema defaults when they are absent;
  - refuses callers who are not super admins;
  - rejects a password policy whose minimum length is too short for the character classes it requires.
- `update`:
  - compares the supplied fields with the stored `config` row, strictly for the string group and loosely for the "integer" group;
  - writes the row only when something differs;
  - appends an audit entry in every case;
  - returns the keys the caller supplied.

**Network discovery (`discovery.c`).**
- The UP/DOWN state machine of a discovered host and of a discovered service: `status`, `lastup` and `lastdown`, the row writes, and the DISCOVER/LOST/status events given to the event callback.
- Registration of hosts and services in the `dhosts`/`dservices` tables:
  - lookup by value or by address and port;
  - creation only for UP reports;
  - separating a host that has services at several addresses;
  - merging a service's old host into the current one.

Modules:
- `AuthRules` (`auth_rules.dfy`): field rules, the permission check, the password-policy check and `ValidateUpdate` as functions.
- `AuthUpdate` (`auth_update.dfy`): the diff loops as a method and the `config` row, write log and audit log as a class.
- `DiscoveryStatus` (`discovery_status.dfy`): the status transitions and event sequences as functions, with lemmas about them.
- `Discovery` (`discovery.dfy`): the tables, the event log and the id allocator as a class.
  - The C functions that change the tables or the host record are methods of that class, proved against the functions of `DiscoveryStatus`.
  - The SQL statements they issue (row writes, moving services, the two host lookups) are functions on the table maps.
  - A few blocks of a C function are methods of their own, called where the block stands: raising the host when a service comes up (`RaiseHost`), taking over a found service (`TakeOverService`), and the two registration steps of `zbx_discovery_update_service` (`RegisterHostAndService`). `AuthUpdate.AuthenticationStore.StoreChanges` is the conditional `DB::update` of `update` in the same way.
- `Wrappers` (`wrappers.dfy`): `Option` and `Result`.

Modelling choices:
- **Values.** A PHP value is `Int` or `Str`. Strict `!==` is datatype inequality. Loose `!=` is a parameter `looseEq`; lemmas that need a property of it require only reflexivity. `PhpLooseEqual` is a concrete fragment of PHP 8's `==`, used for the finding below.
- **Schema parameters.** The PASSWD_CHECK_* bit positions, the column lengths and the column defaults are defined outside the modelled files, so they are parameters (`Schema`, `ColumnDefaults`). The enumeration constants use their Zabbix values.
- **Database and callback.** The database is a pair of maps from id to row, and `zbx_db_get_maxid` is a counter that returns an unused id. The event callback appends an event (object kind, object id, clock, value) to a sequence; a missing callback is `withCallback == false`.
- **Password defaults.** A missing password setting is checked against the schema default that the validator fills in (CAuthentication.php:175-176), as `AuthRules.EffectiveMinLength` and `AuthRules.EffectiveCheckRules` state.
- **Field groups.** `AuthUpdate.AuthenticationStore.Update` takes the strictly and the loosely compared groups as parameters. `StringFields` and `IntegerFields` are the groups as the source lists them; `CorrectedStringFields` and `CorrectedIntegerFields` are the corrected groups of the finding below.
- **Result of `update`.** `validateUpdate` receives `$auth` by value, so the defaults it fills in do not reach `update`. The result is therefore the key set of the caller's own request.

## Model

| member | source | states |
|---|---|---|
| AuthRules.RuleOf | ui/include/classes/api/services/CAuthentication.php:146-177 | every listed field has a rule and `configid` or any other key has none; the string settings are exactly the API_STRING_UTF8 fields; every enumerated setting is a 0/1 choice; every range, the `passwd_check_rules` range included, is non-empty |
| AuthRules.Satisfies | ui/include/classes/api/services/CAuthentication.php:146-177 | a value meets an API_INT32 list rule iff it is an integer in the list, a range rule iff it is an integer in the range, and an API_STRING_UTF8 rule iff it is a string within the length limit and, with API_NOT_EMPTY, not empty |
| AuthRules.InputAccepted | ui/include/classes/api/services/CAuthentication.php:146-180 | the validator accepts a non-empty object whose every key has a rule that its value satisfies |
| AuthRules.HasBit | ui/include/classes/api/services/CAuthentication.php:189-198 | `(rules & (1 << k)) == (1 << k)`, as bit `k` of the two's complement of `rules`: the parity of `rules / 2^k` |
| AuthRules.HasBitBounds | ui/include/classes/api/services/CAuthentication.php:189-198 | bit `k` is clear for a mask below `1 << k` and set for a mask from `1 << k` up to `2 << k` |
| AuthRules.MaskBelowBits | ui/include/classes/api/services/CAuthentication.php:176 | the OR of `1 << k` over chosen positions below `n` is below `1 << n` and has bit `k` set iff `k` is chosen and below `n` |
| AuthRules.AllRulesMaskHasExactlyTheFlags | ui/include/classes/api/services/CAuthentication.php:176 | PASSWD_CHECK_LENGTH \| CASE \| DIGITS \| SPECIAL \| SIMPLE has exactly the five flag bits set and is at least PASSWD_CHECK_LENGTH |
| AuthRules.LengthFlagWithinAllRules | ui/include/classes/api/services/CAuthentication.php:176 | PASSWD_CHECK_LENGTH alone does not exceed the mask of all rules, so the `passwd_check_rules` range is never empty |
| AuthRules.MayUpdate | ui/include/classes/api/services/CAuthentication.php:183-185 | only the super admin user type may update the settings |
| AuthRules.ValidateInput | ui/include/classes/api/services/CAuthentication.php:146-180 | the input is accepted iff it is a non-empty object whose every key is a known field satisfying its rule; failures are parameter errors; an accepted input keeps every supplied value and gains exactly the two password settings, set to the caller's value or else the schema default |
| AuthRules.WithPasswordDefaults | ui/include/classes/api/services/CAuthentication.php:175-176 | the validated object keeps every supplied value and gains exactly the two password settings, each the caller's value or else the schema default |
| AuthRules.PasswdLengthInsufficient | ui/include/classes/api/services/CAuthentication.php:188-198 | for any minimum length of at least 1, the policy is rejected iff more of CASE/DIGITS/SPECIAL are required than the minimum length |
| AuthRules.ValidateUpdate | ui/include/classes/api/services/CAuthentication.php:145-209 | success iff input accepted, caller is super admin and the effective policy is satisfiable; the error is the input error first, then the permission error, then the password-length error; success yields the stored row |
| AuthRules.LengthOneRejectsTwoClasses | ui/include/classes/api/services/CAuthentication.php:188-194 | with minimum length 1 the policy is rejected iff at least two of CASE/DIGITS/SPECIAL are set |
| AuthRules.LengthTwoRejectsOnlyAllThree | ui/include/classes/api/services/CAuthentication.php:195-198 | with minimum length 2 the policy is rejected iff all three classes are set |
| AuthRules.LongPasswordsNeverRejected | ui/include/classes/api/services/CAuthentication.php:188-198 | from minimum length 3 on no flag combination is rejected |
| AuthRules.MinLengthOutOfRangeRejected | ui/include/classes/api/services/CAuthentication.php:175-180 | a `passwd_min_length` outside 1..255 fails as invalid input for every caller |
| AuthRules.LdapPortOutOfRangeRejected | ui/include/classes/api/services/CAuthentication.php:154-180 | an `ldap_port` outside 0..65535 fails as invalid input |
| AuthRules.AuthenticationTypeOutsideEnumRejected | ui/include/classes/api/services/CAuthentication.php:147-180 | an `authentication_type` other than internal or LDAP fails as invalid input |
| AuthRules.UnknownKeyRejected | ui/include/classes/api/services/CAuthentication.php:146-180 | a key that is not one of the listed fields (`configid` included) fails as invalid input |
| AuthRules.LengthOneCaseDigitsRejected | ui/include/classes/api/services/CAuthentication.php:188-203 | a super admin's well-formed request whose effective policy is length 1 with CASE and DIGITS fails with the password-length error |
| AuthRules.LengthMaxAccepted | ui/include/classes/api/services/CAuthentication.php:175-209 | a super admin's well-formed request with minimum length 255 succeeds whatever flags are set |
| AuthUpdate.GroupsAsWritten | ui/include/classes/api/services/CAuthentication.php:100-115 | both listed groups hold writable columns only and the strict group holds string settings only |
| AuthUpdate.GroupsCorrected | ui/include/classes/api/services/CAuthentication.php:100-115 | the corrected strict group is exactly the string settings and the corrected loose group exactly the other writable columns |
| AuthUpdate.Changes | ui/include/classes/api/services/CAuthentication.php:97-121 | every field of the write set is a supplied field of one of the two groups and carries the supplied value |
| AuthUpdate.CollectChanges | ui/include/classes/api/services/CAuthentication.php:97-120 | a field is collected iff it is supplied and in the strict group with a different value or in the loose group and loosely unequal; it carries the supplied value |
| AuthUpdate.AuthenticationStore.StoreChanges | ui/include/classes/api/services/CAuthentication.php:122-127 | the row takes the differing fields, and a write is issued iff at least one field differs |
| AuthUpdate.AuthenticationStore.Update | ui/include/classes/api/services/CAuthentication.php:94-134 | for any pair of field groups (the source's are `StringFields` and `IntegerFields`): a rejected call changes nothing and returns the error; an accepted one overwrites exactly the fields that differ under their group's comparison, issues a write only when some field differs, appends the audit entry (request plus row key, old row) in every case, and returns the supplied keys |
| AuthUpdate.PasswdSettingsNeverWritten | ui/include/classes/api/services/CAuthentication.php:100-121 | the two password settings are never in the write set, as written or corrected |
| AuthUpdate.UnsuppliedFieldsKept | ui/include/classes/api/services/CAuthentication.php:103-127 | a stored field the caller did not supply keeps its value after the write |
| AuthUpdate.SameValuesWriteNothing | ui/include/classes/api/services/CAuthentication.php:103-127 | when every supplied field equals the stored one, the write set is empty, so no write is issued |
| AuthUpdate.UpdateIdempotent | ui/include/classes/api/services/CAuthentication.php:103-127 | repeating a request against the row it produced writes nothing |
| AuthUpdate.PhpLooseEqualReflexive | ui/include/classes/api/services/CAuthentication.php:117 | the PHP loose-comparison fragment is reflexive, so it meets the lemmas' requirement |
| AuthUpdate.PhpLooseEqual | ui/include/classes/api/services/CAuthentication.php:117 | the loose `!=` of the integer group, negated: integers by value, digit strings numerically with each other and with integers, any other pair only when identical |
| AuthUpdate.LooseSamlComparisonDropsChange | ui/include/classes/api/services/CAuthentication.php:110-120 | as written, changing `saml_sp_entityid` from "1" to "01" is not in the write set and the stored row keeps "1", although the strings differ |
| AuthUpdate.CorrectedGroupsCompareByType | ui/include/classes/api/services/CAuthentication.php:100-120 | with the corrected groups a string setting is written iff strictly different, any other writable column iff loosely different |
| DiscoveryStatus.NextMark | src/libs/zbxdiscovery/discovery.c:429-479 | a record whose status does not change stays as it is, and after a report at a non-zero clock the same report changes nothing |
| DiscoveryStatus.StatusChanges | src/libs/zbxdiscovery/discovery.c:437-458 | a report changes a record when it is UP and the record is DOWN or never up, or it is not UP and the record is UP or never down (the same tests at lines 364 and 400 for services) |
| DiscoveryStatus.HostStatusEvents | src/libs/zbxdiscovery/discovery.c:429-479 | with a callback, one host event when the status does not change and two when it does, all for this host at `now`, the last carrying the reported status; none without a callback |
| DiscoveryStatus.HostMarkAfterService | src/libs/zbxdiscovery/discovery.c:362-391 | the host record changes exactly when `HostRaisedBy` holds (the host is DOWN and the service comes up: DOWN or never up, reported UP), and then it is UP since now |
| DiscoveryStatus.ServiceValueAfter | src/libs/zbxdiscovery/discovery.c:362-406 | a service reported UP carries the reported value; any other report keeps the old one |
| DiscoveryStatus.ServiceStatusEvents | src/libs/zbxdiscovery/discovery.c:352-422 | with a callback, one service status event plus one for a service change plus one for a raised host, all at `now`, the host event a DISCOVER for this host and the last the service's reported status; none without a callback |
| DiscoveryStatus.HostComesUp | src/libs/zbxdiscovery/discovery.c:438-454 | a host reported UP while DOWN or never up becomes UP, up since now, down 0, announced DISCOVER then UP |
| DiscoveryStatus.HostGoesDown | src/libs/zbxdiscovery/discovery.c:456-473 | a host reported DOWN while UP or never down becomes DOWN, down since now, up 0, announced LOST then DOWN |
| DiscoveryStatus.HostOtherwiseUnchanged | src/libs/zbxdiscovery/discovery.c:429-479 | in every other case the host record is unchanged and only the status event is emitted |
| DiscoveryStatus.StatusEventLast | src/libs/zbxdiscovery/discovery.c:415-419 | with a callback both status functions end with exactly one event carrying the reported status, preceded only by DISCOVER/LOST events; without one nothing is emitted |
| DiscoveryStatus.ServiceComesUp | src/libs/zbxdiscovery/discovery.c:362-391 | a service coming up is up since now with the reported value; a DOWN host comes up with it, any other host is unchanged |
| DiscoveryStatus.ServiceStaysUp | src/libs/zbxdiscovery/discovery.c:393-396 | an UP service reported UP keeps its mark and leaves its host alone |
| DiscoveryStatus.ServiceGoesDown | src/libs/zbxdiscovery/discovery.c:398-412 | a service going down is down since now, keeps its value and leaves its host alone |
| DiscoveryStatus.RepeatedReportIsStable | src/libs/zbxdiscovery/discovery.c:437-473 | reporting the same status again (at a non-zero clock) changes nothing more |
| DiscoveryStatus.AlternatesAfter | src/libs/zbxdiscovery/discovery.c:437-473 | after an announcement, the announcements of any later run of reports alternate and do not start with the same one |
| DiscoveryStatus.ChangeEventsAlternate | src/libs/zbxdiscovery/discovery.c:429-479 | over any run of reports with non-zero clocks, DISCOVER and LOST announcements for one object strictly alternate |
| Discovery.WriteHostMark | src/libs/zbxdiscovery/discovery.c:341-345 | writing a host's status columns keeps every key, gives that host the new mark with its rule, and leaves every other host row as it was |
| Discovery.WriteServiceRow | src/libs/zbxdiscovery/discovery.c:307-318 | writing a service's status and value keeps every key and every other row, and changes only the mark and value of that row |
| Discovery.WriteServiceValue | src/libs/zbxdiscovery/discovery.c:325-334 | writing a service's value keeps every key and every other row, and changes only the value of that row |
| Discovery.ServiceRowsAfter | src/libs/zbxdiscovery/discovery.c:352-412 | a service report adds and removes no row and leaves every row but the reported service's as it was |
| Discovery.ServiceReportTouchesOneRow | src/libs/zbxdiscovery/discovery.c:352-412 | a service report writes only its own row: new mark and value on a change, the reported value for an unchanged UP service, and no write at all when that value is the same or the report is an unchanged DOWN |
| Discovery.OwnersDoNotAffectLookup | src/libs/zbxdiscovery/discovery.c:232-238 | moving services between hosts does not change which services a check finds at an address and port |
| Discovery.MoveServices | src/libs/zbxdiscovery/discovery.c:123-127 | moving services keeps every row and changes nothing but owners |
| Discovery.FoundServiceTakenOver | src/libs/zbxdiscovery/discovery.c:271-292 | taking over a found service changes no other row except in its owner, and gives the found row the current host and the DNS name |
| Discovery.ObtainedServiceReport | src/libs/zbxdiscovery/discovery.c:352-412 | after the report on an obtained service, its row has the next mark and the value the report leaves, and every other row differs at most in its owner |
| Discovery.ServiceObtained | src/libs/zbxdiscovery/discovery.c:219-300 | whether found and taken over or newly added, the obtained row belongs to the host at the reported check, address and port with the DNS name, a found row keeps its status and value, and every other row changes at most in its owner |
| Discovery.MoveServicesChangesOwnersOnly | src/libs/zbxdiscovery/discovery.c:123-127 | moving services changes only the owner, and only of the services of the old host (at the given address, if one is given) |
| Discovery.MoveAllEmptiesHost | src/libs/zbxdiscovery/discovery.c:271-281 | after all services of the old host are moved to an existing host, the old host owns none, so deleting it leaves every service with a host |
| Discovery.MoveKeepsLinked | src/libs/zbxdiscovery/discovery.c:115-127 | moving services to an existing host keeps every service attached to an existing host |
| Discovery.FirstById | src/libs/zbxdiscovery/discovery.c:46-87 | the first row of a lookup ordered by id: none iff there is no match, else the least matching id |
| Discovery.DiscoveryDb.HostsByValue | src/libs/zbxdiscovery/discovery.c:46-65 | the lookup by value returns only existing hosts |
| Discovery.DiscoveryDb.HostsByIpPort | src/libs/zbxdiscovery/discovery.c:67-87 | the lookup by address and port returns only existing hosts of this rule |
| Discovery.DiscoveryDb.ServicesAt | src/libs/zbxdiscovery/discovery.c:232-238 | the services of a check at an address and port, whatever host owns them |
| Discovery.DiscoveryDb.HasOtherAddress | src/libs/zbxdiscovery/discovery.c:106-114 | the host has a service at an address other than `ip` (`HasOtherAddressIn` on the service table) |
| Discovery.HostRegistration | src/libs/zbxdiscovery/discovery.c:149-210 | the three outcomes of host registration: a host found by value, or with no service elsewhere, is taken with its stored record and the tables unchanged; a host found by address with services elsewhere is separated into a fresh DOWN host that takes over its services at this address; with none found an UP report adds a fresh DOWN host; otherwise nothing is registered |
| Discovery.HostsAfterTakeOver | src/libs/zbxdiscovery/discovery.c:271-293 | taking over a service deletes its former owner when that is another host, and keeps every other host and its row, the current host included |
| Discovery.ServicesAfterRegistration | src/libs/zbxdiscovery/discovery.c:240-293 | the service table once a service is obtained for a host: a found service gets the host and the DNS name, every other service of its former owner gets the host, and the rest stay; otherwise exactly the new row is added |
| Discovery.DiscoveryDb.FoundHost | src/libs/zbxdiscovery/discovery.c:149-178 | the host found is the least id of the lookup by value when the check is the rule's unique check and that lookup matches, else the least id of the lookup by address and port; none iff both lookups that apply are empty |
| Discovery.DiscoveryDb.GetMaxId | src/libs/zbxdiscovery/discovery.c:117 | the id returned is non-zero and used by no host and no service |
| Discovery.DiscoveryDb.Emit | src/libs/zbxdiscovery/discovery.c:368-373 | an event is handed over (appended) iff there is a callback |
| Discovery.DiscoveryDb.StoreHostMark | src/libs/zbxdiscovery/discovery.c:341-345 | the host table becomes the write of the host record's status columns, and services stay attached to hosts |
| Discovery.DiscoveryDb.StoreServiceRow | src/libs/zbxdiscovery/discovery.c:307-318 | the service table becomes the write of that service's status columns and value, and services stay attached to hosts |
| Discovery.DiscoveryDb.StoreServiceValue | src/libs/zbxdiscovery/discovery.c:325-334 | the service table becomes the write of that service's value, and services stay attached to hosts |
| Discovery.DiscoveryDb.UpdateHostStatus | src/libs/zbxdiscovery/discovery.c:429-480 | the host gets the next mark of its state machine, its row is written iff the status changes, the status events are appended, and services stay attached to hosts |
| Discovery.DiscoveryDb.RaiseHost | src/libs/zbxdiscovery/discovery.c:375-391 | a DOWN host whose service came up is UP since now, its row is written and a DISCOVER event for it is handed over |
| Discovery.DiscoveryDb.UpdateServiceStatus | src/libs/zbxdiscovery/discovery.c:352-422 | the service rows change as the service report dictates, the host rises iff it is DOWN and the service comes up, the events are appended in order (service change, host DISCOVER, service status) |
| Discovery.DiscoveryDb.SeparateHost | src/libs/zbxdiscovery/discovery.c:96-140 | when the host has a service at another address, a new host (DOWN, never up or down) takes over exactly its services at this address; otherwise nothing changes |
| Discovery.DiscoveryDb.RegisterHost | src/libs/zbxdiscovery/discovery.c:149-210 | the host is found by value (unique check) or else by address and port, least id first; a host found by address is separated; with no match a host is created only for an UP report; services stay attached to hosts; the outcome is the matching case of `HostRegistration` |
| Discovery.DiscoveryDb.RegisterService | src/libs/zbxdiscovery/discovery.c:219-300 | with no matching service, one (DOWN, empty value) is created only for an UP report; a found service brings all services of its old host to the current host, the old host is deleted (`HostsAfterTakeOver`), and a changed DNS name is stored |
| Discovery.DiscoveryDb.TakeOverService | src/libs/zbxdiscovery/discovery.c:271-293 | when the found service belonged to another host, all of that host's services move to the current host and the other host is deleted (`HostsAfterTakeOver`); the service then has the given DNS name |
| Discovery.DiscoveryDb.UpdateHost | src/libs/zbxdiscovery/discovery.c:487-495 | nothing happens for an unregistered host; otherwise the host status transition applies |
| Discovery.DiscoveryDb.RegisterHostAndService | src/libs/zbxdiscovery/discovery.c:510-516 | an unregistered host is registered as `HostRegistration` says for the host found (a separated host takes over the services at this address), a registered one is kept with its record; a service is obtained iff a host is and the service is known or reported UP; a found service keeps its mark and value, a new one is DOWN with an empty value; the service table is exactly `ServicesAfterRegistration` of the registered one (the found service and all services of its former owner now belong to the host, or the new row is added), and the host table is the registered one less the service's former owner |
| Discovery.DiscoveryDb.UpdateService | src/libs/zbxdiscovery/discovery.c:502-528 | the host is registered as in `RegisterHostAndService` (which host, its record, both tables); a service is obtained iff a host is and the service is known or reported UP; without one the tables are the registered ones and no event is emitted; with one, the service table is exactly `ServicesAfterRegistration` of the registered one with the report applied (`ServiceRowsAfter`): the service, now the host's at this check, address and port with the DNS name, gets the next mark and the value the report leaves, and every other row keeps its columns except the owner the takeover gives it; the host table is the registered one less the service's former owner, with the host's row raised to UP since now exactly when `HostRaisedBy`; the host's record is the one after the service report, and the service status events are appended |

## Left out

- `CAuthentication::get` and the `CAuthentication` members outside `update`/`validateUpdate`: not part of this model.
- `CApiInputValidator` beyond the rules listed in `validateUpdate`: the acceptance of numeric strings for API_INT32, the check that a string is valid UTF-8, and the error message texts and paths are not modelled. Integers must arrive as `Int` and strings as `Str`.
- `AuthRules.ValidateUpdate`: the stored row is a parameter; `DB::select` and the output field list are not modelled.
- `AuthUpdate.AuthenticationStore.Update`: the result is the set of supplied keys. The order of `array_keys` is not modelled.
- `addAuditBulk` records one entry of (new object, old object). Its storage and formatting are library code that is not part of this model.
- The PASSWD_CHECK_* values, column lengths and column defaults: defined outside the modelled files, so they are parameters.
- SQL text, escaping and string-comparison macros are abstracted as map lookups and updates. Transactions, logging and memory management are left out.
- AuthUpdate.PhpLooseEqual: digit strings whose value exceeds PHP_INT_MAX are compared by number here, whereas PHP compares two such strings as strings; the finding below does not depend on them.
- `Discovery.DiscoveryDb.GetMaxId`: one counter serves both tables, whereas `zbx_db_get_maxid` keeps one per table. Only freshness of the id is modelled.
- `Discovery.DiscoveryDb.RegisterService`: the service row a lookup returns first is an arbitrary match. The source query has no order, so the model does not fix one.
- The event callback's other arguments (event source, nanoseconds, which are always 0, and the trailing null arguments) are not modelled.
- The inter-process helpers in `discovery.c` (sending to the discoverer, queue size, usage statistics and their serialisation) are socket I/O and floating-point work; `zbx_discoverer_init` and the `*_free` functions only manage memory.
- The selenium test, the Go file-exists test and `evalfunc.h` have no logic modelled here.

## Findings

| source | as written | input that shows it | evidently intended | confidence | as-written member | corrected member |
|---|---|---|---|---|---|---|
| ui/include/classes/api/services/CAuthentication.php:110-120 | the six SAML string settings (`saml_idp_entityid` … `saml_nameid_format`) are in the "integers" list and compared with loose `!=` | stored `saml_sp_entityid` "1", request "01": PHP's `"01" != "1"` is false, so the change is not written while `update` reports the field as updated | string settings compared with strict `!==` like the other strings | not executed | AuthUpdate.LooseSamlComparisonDropsChange | AuthUpdate.CorrectedGroupsCompareByType |

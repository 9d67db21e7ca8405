# Wireless LAN daemon: link manager, station tables and their neighbours

This project models the parts of the daemon that keep linked or counted state by hand, and
proves what that state means after any run of calls.

* **Links of multi-link devices** (`src/wld_mld.c`). SSIDs, links, MLDs and groups are objects
  that point at each other and are relinked in place (`MldManager.dfy`). Every routine is
  proved to compute a function on a store (`MldModel.dfy`); the other `Mld*` files prove, for
  every run of calls on that store, that back pointers and lists agree (`MldWellFormed.dfy`),
  that one SSID's call leaves all others alone (`MldRuns.dfy`), that the manager refines a map
  from SSIDs to type and unit (`MldRegistry.dfy`), where each link stands in its list
  (`MldLinkOrder.dfy`), what the change events say (`MldEvents.dfy`), when primary links can go
  stale (`MldPrimary.dfy`), and what a unit beyond one byte breaks (`MldOverflow.dfy`,
  `MldSharing.dfy`, `MldLanguage.dfy`). `MldRadio.dfy` is the reset of all links of a radio, and
  `MldUsability.dfy` is about which AP links may be used together.
* **Station tables** (`src/wld_assocdev.c`, `src/wld_accesspoint.c`, `src/wld_radio.c`). The
  array of stations, its eviction and the cached counters (`AccessPoints.dfy`) are proved
  against tables as values (`StationTable.dfy`). `StationRuns.dfy` holds the laws over runs of one
  access point, `StationTimes.dfy` what becomes of each entry and of the time it is evicted by, and
  `StationOutcomes.dfy` what the association counters count; `RadioTotals.dfy` and `Admission.dfy`
  are about all access points of a radio.
* **Enable flags and status histograms** (`EnableSync.dfy`, `StatusHistogram.dfy`).
* **Arithmetic and words** (`src/wld_util.c`): bit arrays, masks printed as names, the moving
  average, WPS PINs (`LongArray.dfy`, `TupleMask.dfy`, `SignalStats.dfy`, `WpsPin.dfy`).

Where the code does less than its design says, the project states so with exact conditions:

* An MLD's unit is kept in a byte. A registration with a unit of 256 or more always makes a new
  MLD, filed under the low byte. `MldRegistry.HonouredExactlyWhenUnitFits`,
  `MldOverflow.ListsStayAscendingExactly`, `MldOverflow.EventsTellExactly` and
  `MldSharing.KeysStayDistinctExactly` say exactly what is then lost.
* A primary link without an id is not forgotten when it leaves its MLD
  (`MldPrimary.PrimariesStayMembersExactly`, and `MldPrimary.PrimaryDangles` for a run). No caller
  is ever given a link that is not a member (`MldPrimary.PrimaryIsMember`), but the pointer dangles.
* The shared-security check is neither symmetric nor transitive, so an AP MLD can have some
  links usable and others not; `MldUsability.AllOrNothingExactly` says for which configurations,
  with `MldUsability.FallbackSplitsMld` and `MldUsability.MixedModeSplitsMld` as instances.
* A find-or-create for the broadcast address finds nothing and makes an entry whenever there is
  room, so two such calls break the uniqueness of addresses (`AccessPoints.AccessPoint.FindOrCreate`,
  with the run `StationRuns.BroadcastTwice`).
* Two calls change which stations are active without any counter knowing. The handler of a new
  WDS interface writes the active flag itself, so no attempt is made and nothing is recounted
  (`AccessPoints.AccessPoint.WdsConnected`, `StationRuns.RaiseBreaksBoth`). And a station that is
  looked up among a neighbour link's stations is disconnected there without its own access point
  being told (`AccessPoints.AccessPoint.AddDcSta`, `StationRuns.LendingBreaksBoth`). The counter is
  current in all states of a run exactly when it has neither (`StationRuns.RunsStayCountedExactly`).
* The association counters balance in all states of a run exactly when no call of it is one of
  those listed by `StationRuns.Unbalances`: a direct destruction, a raised flag, an event of a
  neighbour's station, or a reset of counters that are not all zero, each under a condition on the
  station and the counters (`StationRuns.CountersAreConservedExactly`). `StationRuns.DestroyBreaksBalance`
  is a run that breaks them.
* The radio's cached total is off by the activations and losses that no synchronisation followed, in
  either direction (`RadioTotals.TotalIsActiveAndGap`, `RadioTotals.TotalStaysCurrent`). When it is
  too high, admission refuses stations for which there is room (`Admission.WrongRefusalExactly`,
  `Admission.RefusedForNobody`). When it is too low, which only a raised flag can make it, admission
  lets in one too many (`Admission.WrongAdmissionExactly`, `Admission.AdmittedTwice`,
  `Admission.NextSafeExactly`).
* A negative bit number tests and sets the bit of its low five bits, but clears nothing
  (`LongArray.SetBit`, `LongArray.ClearBit`).

## Model

| member | source | states |
|---|---|---|
| MldWellFormed.RegisterOk | src/wld_mld.c:325-366 | a registration keeps the store well formed: every MLD is once in the list of its type, links and lists point at each other, no list repeats, addresses are unique |
| MldWellFormed.DeinitLinkOk | src/wld_mld.c:233-262 | removing a link, with the MLD it empties, keeps the store well formed |
| MldWellFormed.SaveConfiguredOk | src/wld_mld.c:558-584 | moving a link inside its list keeps the store well formed |
| MldWellFormed.SetLinkIdOk | src/wld_mld.c:495-521 | setting or resetting a link id keeps the store well formed |
| MldRuns.RunComplete | src/wld_mld.c:233-366 | after every run the store is well formed, no MLD is empty and no link is outside an MLD |
| MldRuns.CallMovesOnlyItsLink | src/wld_mld.c:325-366 | after any run, a call about one SSID changes no other SSID's unit, id or flag, nor the order of the other links of any MLD |
| MldRuns.SetConfiguredAnnounces | src/wld_mld.c:586-594 | the UPDATE names type and unit of the MLD that still holds the link, and follows the move |
| MldRegistry.LinkFollowsLatestRegistration | src/wld_mld.c:325-373 | after any run an SSID has a link exactly when its latest registration asked for one, in an MLD of that type and of that unit as a byte stores it |
| MldRegistry.EmptyExactlyWhenNoneRegistered | src/wld_mld.c:312-373 | after any run no link, no MLD and no list entry is left if and only if no SSID is registered |
| MldRegistry.UnregisteringAllEmpties | src/wld_mld.c:312-373 | unregistering every SSID that has a link, in any order and after any run, leaves nothing for the teardown of the manager to find |
| MldRegistry.HonouredExactlyWhenUnitFits | src/wld_mld.c:197-217 | type and unit are those asked for if and only if the unit is below 256 |
| MldRegistry.RunAscending | src/wld_mld.c:177-217 | with units below 256 each list of MLDs is strictly ascending after every run |
| MldRegistry.MldHoldsItsRegistrations | src/wld_mld.c:325-373 | with units below 256 each MLD holds exactly the SSIDs whose latest registration named its type and unit |
| MldRegistry.MldsHoldTheirOwnExactly | src/wld_mld.c:325-373 | after any run, all MLDs hold exactly their own SSIDs if and only if no two MLDs share type and stored unit |
| MldRegistry.SharedExactlyWhenUnitFits | src/wld_mld.c:83-90 | from an empty manager, two SSIDs registered in turn with one unit share an MLD, and leave the list ascending, if and only if the unit is below 256 |
| MldOverflow.ListsStayAscendingExactly | src/wld_mld.c:197-217 | from ascending lists, a call leads to ascending lists if and only if its unit fits a byte or its stored unit is above those of all surviving MLDs of the type |
| MldOverflow.OverflowOrder | src/wld_mld.c:177-217 | a unit beyond a byte puts its new MLD at the end of the list, whatever unit is stored |
| MldOverflow.EventsTellExactly | src/wld_mld.c:233-252 | the events of a run tell the MLDs of all types and units if and only if every unit that asked for an MLD was below 256 |
| MldSharing.KeysStayDistinctExactly | src/wld_mld.c:197-217 | from MLDs of distinct types and units, a call leads to such MLDs if and only if its unit fits a byte or every MLD under its type and stored unit holds only its own link |
| MldSharing.SharersExactly | src/wld_mld.c:325-373 | while MLDs have distinct types and units, two registered SSIDs share an MLD if and only if their latest registrations name one type and, up to truncation, one unit |
| MldSharing.OverflowersNeverShare | src/wld_mld.c:177-217 | after any run, two SSIDs whose latest registrations named units of 256 or more are in different MLDs |
| MldSharing.OverflowSeparates | src/wld_mld.c:177-217 | failing input: with a registration for the unit plus 256 between them, two registrations for one fitting unit end in different MLDs |
| MldLanguage.StepEmits | src/wld_mld.c:233-366 | the events of each call: a DEL when it takes an MLD's only link, an ADD when it finds no MLD, one UPDATE |
| MldLanguage.CallKeepsLanguageExactly | src/wld_mld.c:233-366 | for units of any size, a call keeps the events of every type and unit in (ADD UPDATE* DEL)* if and only if the type and unit of an MLD that it ends or updates have an open ADD, and those of an MLD that it makes have none |
| MldLanguage.RunKeepsLanguageExactly | src/wld_mld.c:233-366 | the events of a run, of units of any size, are in that language if and only if every call of it comes in turn |
| MldRadio.AllUnconfigured | src/wld_radio.c:240-254 | after the loops no link of the radio is configured, all other links and their order are unchanged, and each link of the radio was announced by one UPDATE |
| MldLinkOrder.LinksAreQueued | src/wld_mld.c:558-584 | after any run every MLD lists its configured links first, and each part in the order in which its links came to it |
| MldLinkOrder.StepPlaces | src/wld_mld.c:558-584 | a call either leaves its link's list and flag alone, or puts the link behind the last configured one or at the end |
| MldEvents.EventsAnnounceMlds | src/wld_mld.c:233-252 | with units below 256, the events of a type and unit end inside an ADD if and only if there is such an MLD, and never go wrong |
| MldEvents.AcceptedKinds | src/wld_mld.c:325-366 | the automaton used for that accepts exactly the prefixes of (ADD UPDATE* DEL)* |
| MldEvents.EventLanguage | src/wld_mld.c:586-594 | with units below 256, the kinds of events of each type and unit form a prefix of (ADD UPDATE* DEL)* |
| MldEvents.MovingTheOnlyLink | src/wld_mld.c:325-366 | moving an MLD's only link to a unit without an MLD emits DEL for the old unit, then ADD for the new |
| MldEvents.UndoneExactlyWhenUnitFits | src/wld_mld.c:233-252 | DEL takes back what ADD announced if and only if the unit is below 256 |
| MldPrimary.PrimaryIsMember | src/wld_mld.c:399-411 | asking for the primary link gives a live member of the caller's own MLD, or nothing when none is primary |
| MldPrimary.PrimaryIsShared | src/wld_mld.c:399-411 | all typed links of one MLD get the same answer |
| MldPrimary.SetPrimaryThenAsk | src/wld_mld.c:388-411 | the link just made primary is the answer for every link of its MLD |
| MldPrimary.SetLinkIdEffect | src/wld_mld.c:495-521 | a typed link takes the id, cut to 16 bits, and becomes configured for non-negative ids while it is enabled; an untyped one loses its id, and, if it had one, its place as primary link |
| MldPrimary.RegisterEffect | src/wld_mld.c:325-366 | a registration leaves the record of a link that stays in its MLD, lets one that moves keep its address without id and flag, and gives a new link neither |
| MldPrimary.StepPrimExactly | src/wld_mld.c:388-521 | after any call an MLD points to the link made primary by it; to none, if its primary link had an id and the call resets it or takes the link away, or if the MLD is new; and otherwise to what it pointed to before |
| MldPrimary.PrimaryStays | src/wld_mld.c:399-412 | after any run, the primary link a caller is given stays the answer after a call about another SSID that makes none primary and does not take the caller away |
| MldPrimary.SetConfiguredEffect | src/wld_mld.c:558-594 | the flag becomes the wanted one only while the link is enabled; id, MLD and primary links stay |
| MldPrimary.PrimariesStayMembersExactly | src/wld_mld.c:233-240 | a call leaves a primary pointer without a member if and only if it takes away a primary link that has no id |
| MldPrimary.PrimaryDangles | src/wld_mld.c:235-254 | a run that leaves a dangling primary pointer: two links of one MLD, the first, without an id, made primary and then unregistered |
| MldPrimary.PrimariesKeepIdsExactly | src/wld_mld.c:388-397 | stored primaries remain members with ids if and only if the call is careful: it makes no link without an id primary and stores no id that reads back as none |
| MldPrimary.CarefulRunsKeepPrimaries | src/wld_mld.c:495-521 | in a careful run every stored primary is absent or a member with an id |
| MldManager.ScanMlds | src/wld_mld.c:177-195 | the scan finds the last MLD with the unit, and the first with a greater one |
| MldManager.MldMgr.FindMldInGroup | src/wld_mld.c:177-195 | the same in the group's own list |
| MldManager.MldMgr.SetMldInGroup | src/wld_mld.c:197-217 | a listed MLD is returned unchanged, otherwise one is put at its place by unit |
| MldManager.MldMgr.GetTargetMld | src/wld_mld.c:219-229 | no MLD for a negative unit or a radio without 11be, else the listed or new one |
| MldManager.MldMgr.IsTypedLink | src/wld_mld.c:168-175 | whether the link's MLD is in the group of its SSID's type, that of access points before that of endpoints |
| MldManager.MldMgr.IsLinkEnabled | src/wld_mld.c:447-454 | that, with SSID and radio both enabled |
| MldManager.MldMgr.SaveLinkConfigured | src/wld_mld.c:558-584 | the objects change as MldModel.SaveConfigured says |
| MldManager.LastConfigured | src/wld_mld.c:572-579 | the reverse walk finds the last configured link other than the one that moves |
| MldManager.Reposition | src/wld_mld.c:567-583 | taking the node out and putting it back gives the list of MldModel.Relink |
| MldManager.MldMgr.SetLinkConfigured | src/wld_mld.c:586-594 | the objects change, and the event is queued, as MldModel.SetConfigured says |
| MldManager.MldMgr.SetAllMldLinksUnconfigured | src/wld_radio.c:240-254 | the objects end up as MldRadio.UnconfigureAll of the store before, over the radio's access points and then its endpoints |
| MldManager.MldMgr.SetPrimaryLink | src/wld_mld.c:388-397 | only an enabled link becomes primary |
| MldManager.MldMgr.GetPrimaryLink | src/wld_mld.c:399-411 | the walk answers with the member the stored pointer is equal to |
| MldManager.MldMgr.SetLinkId | src/wld_mld.c:495-517 | the objects change as MldModel.SetLinkId says |
| MldManager.MldMgr.DeinitMld | src/wld_mld.c:270-277 | an empty MLD leaves its group's list |
| MldManager.MldMgr.TakeLink | src/wld_mld.c:233-252 | the link is reset and leaves its list; an MLD it empties goes, and DEL is sent |
| MldManager.MldMgr.DeinitLink | src/wld_mld.c:254-262 | the link is taken out, its SSID forgets it, and it is freed |
| MldManager.MldMgr.RegisterLink | src/wld_mld.c:325-366 | the object graph ends up representing MldModel.Register of the store before |
| MldManager.MldMgr.UnregisterLink | src/wld_mld.c:368-373 | the object graph ends up representing MldModel.Unregister of the store before |
| MldUsability.CompareSecModes | src/ApMgt/wld_ap_security.c:566-588 | the first fitting row of the table decides, else equality of the modes |
| MldUsability.HasSharedConnectionConf | src/wld_apMld.c:183-219 | the two counters agree exactly when all basic links, itself included, agree with the link |
| MldUsability.CountNeighUsableLinks | src/wld_mld.c:484-493 | the number of usable links in the list, as the specified count |
| MldUsability.UsableIsCounted | src/wld_mld.c:484-493 | for every MLD that count is the number of places in the list whose link is usable |
| MldUsability.CoherentIsAllOrNothing | src/wld_apMld.c:183-219 | if the security check is symmetric and transitive on an MLD's basic links, all of them are usable or none is |
| MldUsability.UsableCount | src/wld_mld.c:484-493 | then the usable count is 0 or the count of basic links |
| MldUsability.SymmetricExactly | src/ApMgt/wld_ap_security.c:590-639 | the check answers the same both ways if and only if the two do not clash over the credential to compare |
| MldUsability.SharedByModes | src/ApMgt/wld_ap_security.c:549-639 | what the table comes to: equal modes, or a mixed mode and one of its two, whose credential is the reference |
| MldUsability.BesideExactly | src/ApMgt/wld_ap_security.c:590-639 | for each mode of a link, the modes and credentials that leave it usable |
| MldUsability.PartExactly | src/ApMgt/wld_ap_security.c:590-639 | two links that can stand beside a third agree both ways if and only if their modes and credentials do not part |
| MldUsability.AllOrNothingExactly | src/wld_apMld.c:183-219 | for every MLD, of one mode or several, usability is all-or-nothing if and only if no three basic links are such that all can stand beside the first while the other two part |
| MldUsability.OneModeExactly | src/ApMgt/wld_ap_security.c:590-639 | in an MLD of one security mode, usability is all-or-nothing if and only if no link has both credentials while all others have its preferred one or only its fallback, and some only the latter; without credentials it always is |
| MldUsability.MixedModeSplitsMld | src/ApMgt/wld_ap_security.c:549-561 | a WPA2, a mixed and a WPA3 link: the mixed one is usable, the others are not, and the count is one |
| MldUsability.FallbackSplitsMld | src/ApMgt/wld_ap_security.c:614-619 | failing input of one mode: with WPA3, a link with an SAE passphrase is usable while one without is not |
| StationTable.DropMoves | src/wld_assocdev.c:433-486 | removals only move the remaining entries towards the front, in order |
| StationTable.CleanupOutcome | src/wld_accesspoint.c:2258-2301 | a successful clean-up keeps active and pending entries and the order, leaves at most the sticky limit plus the pending ones inactive, and removes none newer than an inactive one it keeps for another reason than a pending notification |
| StationTable.NewestStays | src/wld_accesspoint.c:2258-2301 | a clean-up, complete or broken off, leaves a newest inactive entry |
| StationTable.LatestStays | src/wld_accesspoint.c:2258-2301 | an inactive entry that changed after all the others survives every clean-up |
| StationTable.StopsAt | src/wld_accesspoint.c:2293-2297 | an entry the data model holds on to ends the clean-up there: none newer is gone, and no evictable one left is older |
| StationTable.AllButNewest | src/wld_accesspoint.c:2277-2299 | removing the sorted list up to the sticky limit is such a clean-up |
| StationTable.EvictionKeepsInactiveFrom | src/wld_assocdev.c:593-604 | an eviction puts no active entry behind an index behind which none was |
| StationTable.CleanupKeepsActive | src/wld_accesspoint.c:2258-2301 | no clean-up, complete or broken off, changes a count of active entries |
| StationTable.AppendMacs | src/wld_assocdev.c:499-562 | a new entry keeps addresses distinct if and only if none had its address |
| StationTable.LookupFinds | src/wld_assocdev.c:610-622 | with distinct addresses the lookup of an entry's address finds that entry |
| StationTable.FinalizedEnds | src/wld_assocdev.c:1280-1292 | with distinct addresses, finalising leaves no pending notification at the address |
| StationTimes.NextFollows | src/wld_assocdev.c:1217-1440 | every call, entry by entry: only the entry it is about changes, and in no fields but those said; or a pending notification of the created address ends; or the entry is the created one |
| StationTimes.NextPlaces | src/wld_assocdev.c:1217-1440 | a call that neither cleans up nor destroys leaves every entry in its place |
| StationTimes.NextLists | src/wld_accesspoint.c:2258-2301 | an entry is unlisted only by its own destruction, or by a clean-up when it is inactive and has no notification pending |
| StationTimes.TimeIsLastTouch | src/wld_assocdev.c:1217-1409 | in every state of every run the time by which the clean-up evicts is that of the last call that activated, authenticated or disconnected the entry, or of its creation |
| StationTimes.DropKeepsLatest | src/wld_assocdev.c:1325-1372 | a station that disconnects after every inactive one stays listed, with that time |
| StationOutcomes.CountersCountOutcomes | src/wld_assocdev.c:1325-1440 | in every state of every run Success, Disconnect, Fail and FailSecurity are the numbers of connections, disconnections, failures and security failures since the last reset, and the attempts those of all activations |
| StationRuns.NextMoves | src/wld_assocdev.c:1217-1440 | every call leaves ids distinct and authenticated entries active, and keeps the balance of the association counters if and only if it is none of the listed calls that break it |
| StationRuns.NextUnseen | src/wld_accesspoint.c:2151-2172 | a synchronising call leaves no active entry uncounted; any other moves the gap between the active entries and their counter only by raising a flag (up) or losing a station to a neighbour link (down) |
| StationRuns.CounterAndDrift | src/wld_accesspoint.c:2151-2172 | in every state of every run the active entries are those the counter counts plus what has drifted since it was last brought up to date |
| StationRuns.RaiseLaws | src/Plugin/wifiGen_eventHandlers.c:918-938 | after a raised flag the first and the last of the four laws still hold, and each of the others exactly when it had room |
| StationRuns.SuccessesAddUpExactly | src/wld_assocdev.c:1325-1409 | Success = Disconnect + authenticated holds in all states of a run, raised flags or not, if and only if no call destroys an authenticated entry, is a success or a disconnection charged to the wrong access point, or resets unequal counters |
| StationRuns.RaiseBreaksBoth | src/Plugin/wifiGen_eventHandlers.c:918-938 | a WDS event before any attempt: one active and authenticated station, a counter of 0, one success and no attempt |
| StationRuns.LendingBreaksBoth | src/Plugin/wifiGen_eventHandlers.c:861-881 | a station disconnected by a neighbour link's access point: a counter of 1, no active station, a success and no disconnection |
| StationRuns.DestroyBreaksBalance | src/wld_assocdev.c:433-486 | creation, success and direct destruction: a current counter, and association counters out of balance |
| StationRuns.BroadcastTwice | src/wld_assocdev.c:649-665 | two find-or-creates for broadcast with room for both: two entries with one address |
| StationRuns.RunsStayCountedExactly | src/wld_accesspoint.c:2151-2172 | the cached counter is the number of active entries in all states of a run if and only if no call of it raises the flag of an inactive station or loses an active one to a neighbour link |
| StationRuns.CountersAreConserved | src/wld_assocdev.c:1325-1440 | in a run without direct destruction of an active station, raised flags, events of neighbours' stations and resets the counter is current, and Success = Disconnect + authenticated, Success + Fail + unauthenticated <= attempts, Fail + FailSecurity + unfailed <= attempts, attempts <= Success + Fail + FailSecurity + undecided |
| StationRuns.CountersAreConservedExactly | src/wld_assocdev.c:1217-1440 | the four laws hold in all states of a run if and only if no call of it unbalances them, resets, raised flags and neighbours' events included |
| StationRuns.DirectDestroyExactly | src/wld_assocdev.c:433-486 | a direct destruction keeps all four laws if and only if the station is inactive, or failed security without being authenticated, or is undecided while the attempts are accounted for without it |
| StationRuns.DropFrom | src/wld_assocdev.c:1325-1372 | a disconnection at an index leaves nothing active from there on if nothing behind it was |
| StationRuns.AddressesStayDistinct | src/wld_assocdev.c:610-665 | in every state of a run without find-or-create for broadcast, and without direct creation for a listed address, addresses are distinct and each is looked up to its one entry |
| StationRuns.CreationMacsExactly | src/wld_assocdev.c:499-562 | a creation, broadcast included, keeps addresses distinct if and only if the table that finalising the address leaves is full or no longer lists it |
| StationRuns.TableFitsArray | src/wld_assocdev.c:505-509 | in every state of a run the table fits the array |
| RadioTotals.TotalStaysCurrentExactly | src/wld_assocdev.c:455-460 | from a current total the next total is current if and only if a synchronising call finds the other counters adding up, and any other call neither destroys, raises nor loses to a neighbour an active station, nor takes an access point with active stations from the radio |
| RadioTotals.NextGap | src/wld_radio.c:3966-3984 | a synchronising call leaves between the cached total and the active stations only what the other access points do not count; any other call moves that gap by the active stations it takes away or adds |
| RadioTotals.TotalIsActiveAndGap | src/wld_radio.c:3966-3984 | in every state of every run over the access points of a radio, the cached total is the number of stations active in their tables plus a gap of either sign, from the calls since the last synchronisation and the counters stale then |
| RadioTotals.TotalStaysCurrent | src/wld_accesspoint.c:2151-2172 | the total is the number of active stations in all states of a run if and only if no call of it changes the active stations without a synchronisation |
| RadioTotals.CountersStayCurrent | src/wld_accesspoint.c:2151-2172 | in such a run the counter of every access point is current as well |
| AccessPoints.Radio.UpdateActiveDevices | src/wld_radio.c:3966-3984 | the radio's total becomes the sum of its access points' counters |
| AccessPoints.AccessPoint.GetIndex | src/wld_assocdev.c:388-395 | the slot of a listed station, -1 for any other |
| AccessPoints.AccessPoint.FindAssociatedDevice | src/wld_assocdev.c:610-622 | the first entry with the address, or the first active one; none exactly when there is none |
| AccessPoints.AccessPoint.DestroyAssociatedDevice | src/wld_assocdev.c:433-486 | the array is compacted over one entry, the counter follows an active one, the radio's total does not, slots above stay null; an empty slot changes nothing |
| AccessPoints.AccessPoint.Destroy | src/wld_assocdev.c:397-428 | a station goes if the data model releases its object, else nothing changes |
| AccessPoints.AccessPoint.CreateAssociatedDevice | src/wld_assocdev.c:499-562 | after finalising the address, a fresh inactive entry at the end, or nothing exactly when the table is then full |
| AccessPoints.Qsort | src/wld_accesspoint.c:2245-2253 | the order the clean-up relies on: oldest change first |
| AccessPoints.AccessPoint.CleanupStationList | src/wld_accesspoint.c:2258-2301 | success is a complete clean-up; failure means an oldest evictable entry that is left cannot be removed, and only evictable entries no newer than it are gone |
| AccessPoints.AccessPoint.SyncNrDev | src/wld_accesspoint.c:2151-2172 | the counter becomes the number of active entries, and the radio's total the sum |
| AccessPoints.AccessPoint.AddConnectionTry | src/wld_assocdev.c:1217-1245 | the table and the counters after an attempt, and the attempt as a call on the radio: its total is the sum of the counters if the station became active, and untouched if not; nothing happens to an active station, a neighbour's included |
| AccessPoints.AccessPoint.AddConnectionSuccess | src/wld_assocdev.c:1379-1409 | a success, which tries first when the station is inactive, as a call of the access point and on its radio; of a neighbour's station, the success is counted here and the entry changes there |
| AccessPoints.AccessPoint.AddDcSta | src/wld_assocdev.c:1325-1372 | a disconnection or security failure, whose clean-up may evict the station itself, as a call of the access point and on its radio; of a neighbour's station, counters, clean-up and synchronisation are done here and only the entry changes there |
| AccessPoints.AccessPoint.AddSecFailNoDc | src/wld_assocdev.c:1435-1440 | the same after a security failure that keeps the station |
| AccessPoints.AccessPoint.WdsConnected | src/Plugin/wifiGen_eventHandlers.c:918-938 | the station ends active and authenticated, and neither the counter, the attempts nor the radio's total has moved: a raised flag and a success |
| AccessPoints.AccessPoint.ResetCounters | src/wld_assocdev.c:1566-1589 | the four association counters become zero, as a call of the run |
| AccessPoints.AccessPoint.RemoveAll | src/wld_assocdev.c:593-604 | every access stays in the array although it shrinks, no station is active afterwards, each authenticated one is charged as a disconnection and each undecided one as a failure, the sticky limit holds unless an entry cannot be removed, the counter is then zero even if it was stale, unless nothing was active, and the balance and a total that was the sum stay so |
| AccessPoints.AccessPoint.FinalizeDelayedDisassocNotif | src/wld_assocdev.c:1261-1292 | nothing changes unless the first entry with the address has a pending notification; then its flag goes and a clean-up follows |
| AccessPoints.AccessPoint.SetPending | src/wld_assocdev.c:1305-1323 | a pending notification starts or is cleared |
| AccessPoints.AccessPoint.FindAnyDevice | src/wld_assocdev.c:649-656 | nothing for broadcast; a neighbour's first active station with the address that is affiliated here, if there is one; otherwise an own entry exactly when the address is present |
| AccessPoints.AccessPoint.FindMldAssociatedDevice | src/wld_assocdev.c:624-647 | finds a station exactly when the first active one with the address, of some neighbour, is affiliated here |
| AccessPoints.AccessPoint.FindOrCreate | src/wld_assocdev.c:658-665 | an address found here or among the neighbours changes nothing, otherwise it is created; addresses stay distinct, for broadcast exactly when the finalised table is full or does not list it |
| AccessPoints.AccessPoint.GetMaxNbrSta | src/wld_accesspoint.c:2385-2403 | the maximum of Admission.MaxNbrSta on the cached fields |
| AccessPoints.AccessPoint.SetMaxStations | src/wld_accesspoint.c:566-587 | a configured maximum is taken over within its range and clamped to the cap otherwise, as a call on the radio |
| AccessPoints.Radio.SetMaxStations | src/wld_radio.c:1420-1436 | a maximum out of range is refused, as a call on the radio |
| Admission.NextWithinExactly | src/wld_accesspoint.c:2385-2403 | from within the limits, a call leads to a state within them if and only if there is room for a station it makes active, and a maximum it changes covers the stations that are active |
| Admission.RunsWithinExactly | src/wld_accesspoint.c:2385-2403 | all states of a run are within the limits if and only if every call of it does so |
| Admission.RunsStayWithinLimits | src/wld_accesspoint.c:2385-2403 | a run that admits stations only below the maximum computed from the cached fields, raises no flag and changes maxima only to covering ones keeps the active stations within the radio's and each access point's limit, even with totals that are too high |
| Admission.AdmissionIsExact | src/wld_accesspoint.c:2385-2403 | with a current counter and a current total, a station is admitted if and only if the limits still hold after it |
| Admission.MaxNbrSta | src/wld_accesspoint.c:2385-2403 | max(0, min(limit, active + radio maximum - cached total)) when the radio has a maximum, else max(0, limit) |
| Admission.WrongRefusalExactly | src/wld_accesspoint.c:2398-2401 | a station that the limits allow is refused if and only if there is room for it, and its access point's counter is not negative and has reached the limit, or the cached total the radio's maximum |
| Admission.WrongAdmissionExactly | src/wld_accesspoint.c:2398-2401 | a station that the limits do not allow is admitted if and only if the active stations have reached one of them, and the counter is negative, or the counter is below the access point's limit and the total below the radio's maximum |
| Admission.NextSafeExactly | src/wld_accesspoint.c:2151-2172 | from counters and a total that cover the active stations, a call leads to such again if and only if it raises no flag, or both counter and total were above the active stations |
| Admission.RefusedForNobody | src/wld_assocdev.c:433-486 | a run to a radio with a maximum of one, no active station and a cached total of one, which refuses the next station |
| Admission.AdmittedTwice | src/Plugin/wifiGen_eventHandlers.c:918-938 | a run on a radio with a maximum of one that admits a station beside one raised by a WDS event, and ends with two active ones |
| Admission.RunsFromStartStayWithinLimits | src/wld_accesspoint.c:2385-2403 | the same from a radio without access points |
| EnableSync.EnablePair.SyncEnable | src/wld_ssid.c:639-663 | starts, redirects or stops the timer |
| EnableSync.EnablePair.SetSsidEnable | src/wld_ssid.c:679-701 | a write of the SSID's flag |
| EnableSync.EnablePair.SetIntfEnable | src/wld_accesspoint.c:1887-1912 | a write of the interface's flag |
| EnableSync.EnablePair.Expire | src/wld_ssid.c:135-163 | copies in the stored direction, through the handler of the copied write |
| EnableSync.TimerFollowsLastWriter | src/wld_ssid.c:639-701 | after any writes and expiries, the timer runs if and only if the flags differ and the mode copies in the direction of the last effective writer, which is the direction it will copy in |
| EnableSync.ExpirySettles | src/wld_ssid.c:135-163 | one expiry makes both flags the last written value, and no timer is left |
| EnableSync.TimerByMode | src/wld_ssid.c:639-663 | the timer runs if and only if the flags differ and the mode copies the last write: any when mirrored, that of one side in the one-way modes, none without synchronisation |
| EnableSync.IdleMirroredAgrees | src/wld_ssid.c:135-163 | mirrored flags agree whenever no timer runs |
| EnableSync.EnablesAreRises | src/wld_ssid.c:92-104 | the counter of enables is the number of times the SSID's flag rose |
| StatusHistogram.ChangeInfo.UpdateStatusChangeInfo | src/wld_util.c:2283-2294 | the time since the last update is added to one bucket, in 32 bits |
| StatusHistogram.ChangeInfo.SetStatus | src/wld_ssid.c:1057-1063 | charges the old status, then changes it |
| StatusHistogram.ChangeInfo.UpdateRadioState | src/wld_radio.c:4275-4332 | for the histogram, a radio's status step is one such change to the computed status |
| StatusHistogram.RadioStatusExactly | src/wld_radio.c:4275-4332 | each status of a radio by the detailed states, the driver's report and the idleness that give it |
| StatusHistogram.ChangeInfo.GetStatusHistogram | src/wld_ssid.c:1076-1091 | a reading charges the current status first |
| StatusHistogram.BucketsMeasureTime | src/wld_util.c:2283-2294 | each bucket is the number of seconds spent in its status between first and last update, modulo 2^32 |
| StatusHistogram.TimesAddUp | src/wld_util.c:2283-2294 | the times in all statuses make up any interval |
| StatusHistogram.BucketsAddUp | src/wld_util.c:2283-2294 | the buckets add up to the elapsed time while that fits 32 bits |
| SignalStats.StepStaysInRange | src/wld_util.c:1880-1889 | one step keeps the accumulator within 1000 times any range holding it and the sample |
| SignalStats.StepMovesByFactor | src/wld_util.c:1880-1889 | one step moves the accumulator by the given thousandths of its distance to the sample, up to truncation |
| SignalStats.AverageConverges | src/wld_util.c:1880-1889 | under a constant sample the distance, beyond what truncation leaves, shrinks by a twentieth with each step of any run |
| SignalStats.StepFitsInt32 | src/wld_util.c:1880-1889 | with samples of magnitude up to 2147483 no operation of the step overflows |
| SignalStats.FirstStepExactly | src/wld_util.c:1880-1889 | the first step is exact for those samples and for no others |
| SignalStats.SignalHistory.UpdateStationStatsHistory | src/wld_assocdev.c:667-681 | one sample updates extremes, sum, count, mean and accumulator, each cut to its 32 bits; when nothing overflows that is the unbounded update |
| SignalStats.RunsFit | src/wld_assocdev.c:667-681 | while the samples, their sums and their number fit, every update of a run is exact |
| SignalStats.ExtremesAreRecorded | src/wld_assocdev.c:667-681 | minimum and maximum are those of the samples and the initial values |
| SignalStats.MeanBetweenExtremes | src/wld_assocdev.c:667-681 | the mean is the truncated quotient of the sum, between the extremes |
| SignalStats.AverageStaysInRange | src/wld_util.c:1880-1889 | the accumulator stays within 1000 times the recorded range, restarts on zero included |
| LongArray.IsBitSet | src/wld_util.c:818-833 | membership |
| LongArray.SetBit | src/wld_util.c:835-851 | insertion, refused exactly beyond the array |
| LongArray.ClearBit | src/wld_util.c:853-871 | removal, refused beyond the array and for negative numbers |
| LongArray.GetLowestBit | src/wld_util.c:684-715 | the minimum, -1 exactly for the empty set |
| LongArray.GetHighestBit | src/wld_util.c:725-752 | the maximum, -1 exactly for the empty set |
| LongArray.LowestInWord | src/wld_util.c:689-711 | isolating and halving finds the lowest bit of a word |
| LongArray.HighestInWord | src/wld_util.c:729-747 | shifting by halves finds the highest bit of a word |
| LongArray.AreBitsSet | src/wld_util.c:754-762 | non-emptiness |
| LongArray.ClearAllBits | src/wld_util.c:764-771 | the empty set |
| LongArray.IsBitOnlySet | src/wld_util.c:777-794 | equality with the singleton, or with the empty set for a number outside the array |
| LongArray.AreBitsOnlySet | src/wld_util.c:796-816 | subset of the given numbers |
| LongArray.BitOr | src/wld_util.c:935-944 | union |
| TupleMask.GetTupleById | src/wld_util.c:1981-1990 | the first tuple with the id |
| TupleMask.GetTupleByStr | src/wld_util.c:2014-2025 | the first tuple with the name |
| TupleMask.ConvMaskToStr | src/wld_util.c:2096-2122 | prints the named bits; for a readable table the tokens are the names of the printed bits, one for each, in ascending order; reports success if and only if no bit is without a name |
| TupleMask.ConvStrToMask | src/wld_util.c:2059-2090 | the union of the ids of all known names; reports success if and only if nothing is unknown |
| TupleMask.SplitExactly | src/wld_util.c:2059-2090 | the tokens have no comma, and joined by commas give the text back |
| TupleMask.RoundTrip | src/wld_util.c:2059-2122 | printing and parsing gives the mask restricted to named bits |
| TupleMask.PrintAndParse | src/wld_util.c:2059-2122 | the printer reports success if and only if parsing its output gives the mask back |
| TupleMask.NormalForm | src/wld_util.c:2059-2122 | any list of names means the same as its printed normal form |
| WpsPin.GeneratedPinsAreValid | src/wld_util.c:1267-1295 | every generated PIN has eight digits and is accepted |
| WpsPin.PinValidExactly | src/wld_util.c:1328-1344 | a PIN is accepted if and only if it has at most four digits or ends in the check digit of the others |
| WpsPin.PinValidByDigits | src/wld_util.c:1328-1344 | the same by the digits: every second one, from the tens on, counts three times |
| WpsPin.EveryPinIsGenerated | src/wld_util.c:1267-1295 | every accepted eight-digit PIN that starts with no zero is generated, by exactly the seeds with its first seven digits |
| WpsPin.OneWrongDigitIsNoticed | src/wld_util.c:1328-1344 | two accepted PINs above 9999 never differ in exactly one of their eight digits |

## Left out

- MldUsability.CountNeighUsableLinks: AP links only; a link of an endpoint is usable when it is basic. The basic conditions (MLO support, a non-null address) are an input.
- AccessPoints.AccessPoint.FindAnyDevice: the access points of the neighbour links are given as a list.
- AccessPoints.AccessPoint.AddDcSta: a neighbour's station is an active one, as the lookup gives it, of an access point that shares no array with this one; its affiliations are not deactivated.
- AccessPoints.AccessPoint.WdsConnected: without the interface entry of the WDS handler and the refresh of statistics.
- AccessPoints.AccessPoint.ResetCounters: the four association counters; the fast-reconnect counters of the same write are left out.
- AccessPoints.AccessPoint.FinalizeDelayedDisassocNotif: for one access point; the code ends pending notifications of the address on all of them.
- AccessPoints.AccessPoint.GetMaxNbrSta: on unbounded integers; the 32-bit differences of the code are assumed not to overflow.
- AccessPoints.Qsort: a sort with the comparison of s_inactAdCmp, over a sequence; the comparison truncates to int, so change times within 2^31 seconds of each other are assumed.
- MldEvents.EventLanguage: stated for units below 256; MldLanguage.RunKeepsLanguageExactly is the condition for all units.
- SignalStats.SignalHistory.UpdateStationStatsHistory: signed overflow is taken to wrap, and the count must not wrap to zero, where the code divides by it; the rates and times of the same routine are not modelled.
- StatusHistogram.ChangeInfo.UpdateRadioState: one clock reading stands for the two of the code, and what the status is computed from is a parameter.
- MldManager.MldMgr.DeinitMld: of an MLD without links, as every caller in a run has it; teardown of a manager with live links re-enters itself and is not part of this model.
- TupleMask.ConvMaskToStr: a 64-bit mask is the set of its bit positions; null arguments are not part of this model.
- LongArray: words of 32 bits, and the element count is the array's own; wider words, the copying helpers and the mark-all helper are left out.
- Allocation failure, and reuse of a freed link's address by the allocator: a dangling primary pointer equals no later link here.
- Subscribers that call back into the link manager, several vendor managers, and an SSID that changes its radio.
- AccessPoints.AccessPoint.Destroy: whether the data model lets go of an object is a flag of the station, which SetRemovable can change at any time.
- The kick that a leaving access point asks the driver for, and what it announces; RadioTotals keeps the cached total as it is then.
- Marking stations by a seen flag, and the debug clearing of inactive entries: their ascending loops can step over entries that an eviction moved.
- The growth of the station limit after a table was made, roaming kicks, video station counts, how affiliations come and go, and the statistics objects of the data model.
- The SSID handler's unconfiguring of its MLD link is a call of the link manager, not part of EnableSync.
- Enable flags written behind the handlers' backs, mode changes at run time, and the debug trigger of the copy; writes are handled one at a time.
- The data model, transactions, vendor function tables, timers as such, and logging.

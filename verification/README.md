# Verification of baetyl-cloud's deployment core

baetyl-cloud manages edge nodes from the cloud. A namespace holds applications, configs, secrets and
nodes. An application names the nodes it is for by a label selector and refers to configs and secrets
at a version. Each node has a *desire*: the user apps and the system apps it should run, with
versions, and its desired properties. The cloud never recomputes all this from scratch. Each request edits the
desires, a placement index (app and node) and a reference index (app and resource) incrementally, and
nodes then fetch the difference between their report and their desire.

This project models that core and proves that the incremental edits always amount to the full
recompute, or states exactly when they do not, and that what is stored is what the requests asked for. Selector matching is an arbitrary relation between
selectors and labels, so every theorem holds for any matching rule.

## Layout

| file | what it holds |
|---|---|
| `Model`, `Collections`, `AppLists` | entities; sequences as sets; the edits on one app list |
| `Namespace` | the state of a namespace and one transition per request, error paths included |
| `Consistency` | consistency as a full recompute, and how each kind of edit relates to it |
| `AppOperations`, `ResourceOperations`, `NodeOperations` | each request against consistency, as an equivalence |
| `Runs`, `Ledger`, `Schedules`, `RoundTrips` | whole runs of requests; the stored tables as a book of what was asked for; scheduled apps and the selector shown for them; requests that undo each other |
| `Examples` | concrete runs in which consistency fails |
| `Database`, `NodeService`, `ApplicationService`, `Facade` | tables updated in place, and the service, facade and request methods over them, each proved to perform its transition |
| `ReportCache`, `WriteBehind`, `ReadThrough` | the report-time and report caches; each cache as an interleaved state machine |
| `NodeQuota` | the node quota under concurrent creations |
| `Sync`, `NodeProperties` | reports, answers and convergence; property dates |
| `Listing`, `Numerals` | node order, paging, version strings |
| `ConfigView`, `VolumeView`, `Compatibility`, `Ports` | translating configs, volumes and settings between stored and shown form; port rules |

Reading order: `Namespace`, `Consistency`, `Runs`, then `Ledger`: the first two theorems say that derived tables follow the stored ones, the last that the stored ones follow the requests. A class method with `ensures Step(db.View(), outcome) == F(old(db.View()), ...)`
ties imperative code to the transition `F` that the run theorems speak about.

## Where the code falls short of the intended property

Each is an equivalence below (the exact condition), with a concrete failing run in `Examples`, or a
family of inputs in the module named.

* Updating an app never rewrites its stored system flag, but the desire edit uses the flag of the
  request (`AppUpdatedConsistentIff`).
* Deleting a node also deletes labelled configs and secrets its system apps mount, also when another app
  mounts them (`NodeDeletedConsistentIff`, `SharedResourceLost`).
* Resubmitting an app unchanged spends a version when a service has a probe, when registries are not stored
  last, as after creation from a base app, or when other fields are not in the form in which they are shown
  (`ResubmitIdleIff`, `SurvivesIff`, `TwiceIff`); a second time it no longer does, unless there is a probe (`SecondResubmissionIdle`).
* A config or secret update reaches the apps only if its version sorts above the old one as a string;
  versions are seconds followed by random letters, so two updates within a second may not
  (`ResourceUpdatedConsistentIff`).
* Editing a certificate or a registry's description stores a new version of its secret and tells no app
  (`SecretEditedConsistentIff`).
* Deleting a node deletes the system apps it desired, also when another node runs them
  (`NodeDeletedConsistentIff`).
* Creating a node stores its generated apps without telling existing nodes they may match
  (`NodeCreatedConsistentIff`). The shipped templates select by node name and so never do (`ShippedTemplatesPrivate`).
* Cron rows are written outside the transaction: a creation refused for its names strands one, which then
  blocks the name, and an update refused for its names loses or rewrites one (`AppCreatedCrons`, `AppUpdatedCrons`, `AppUpdatedShownIff`).
* A large page number wraps to bounds that cannot slice (`PageBoundsUsableIff`).
* The report map counts entries and rows instead of comparing names (`CachedCoversIff`, `RebuiltCoversIff`).
* A rebuild or a deletion that copies the map before a flush and writes it afterwards, a report overtaken on
  its way to the queue or queued while a flush takes the entry before it, a first time flushed before its node's row is committed,
  and a flush of another namespace each leave a wrong time for good (`NextSafeIff`, `ListedRightIff`, `DeletionRightIff` and the runs beside them); a background fill undoes a report stored since its read (`FillAgreesIff`).
* The default lock excludes nobody, so the node quota can be overshot by the number of requests in
  flight less one (`BoundReached`).
* Config items in other than canonical form, or sharing a slot, do not come back (`ConfigView.RoundTripIff`,
  `LaterValueWins`, `ExtraFieldDropped`); volumes whose secret is gone or mislabelled do not either
  (`VolumeView.RoundTripIff`, `MountedRegistryMoves`).

## Model

| member | source | states |
|---|---|---|
| `Runs.EveryRunConsistent` | service/node.go:158-916 | After every run of careful requests from an empty namespace (careful is the exact per-request condition of NextConsistentIff), each node's two desired app lists are exactly the apps whose selector matches its labels, at their stored versions, once each; the placement index and the reference index are exactly what apps and nodes imply; every stored reference names an existing resource at its current version. |
| `Runs.EveryRunConsistentIff` | service/node.go:158-916 | The converse as well: a run is consistent at every point if and only if every request in it meets its condition. |
| `Runs.NextConsistentIff` | facade/application.go:34-204 | For each of the eleven kinds of request, failed ones included, and whatever order or repetition the tables are listed in, consistency survives if and only if the request meets a condition on the state before it; creating and deleting apps, creating and deleting resources, updating a node and setting properties have none. |
| `Runs.NextCronsIff` | facade/application.go:34-177 | One cron row per waiting app, and no other, survives a request if and only if the request is not a creation that wrote a row, or an update that removed one, and was then refused for its names; a request that mounts something missing is refused before it touches a row. |
| `Runs.EveryRunCrons` | facade/application.go:34-177 | After every careful run without such failures, cron rows exist for exactly the waiting apps. |
| `Runs.EveryRunCronsIff` | facade/application.go:34-177 | In a careful run that holds at every point if and only if no request was such a failure. |
| `Runs.EveryRunReferencesCurrent` | facade/config.go:33-98 | After every careful run each config or secret reference of each stored app names an existing resource and carries its current version. |
| `Runs.EveryRunWaitingIdle` | facade/application.go:34-140 | After every careful run a waiting app is in no node's desire and in no row of the placement index. |
| `Runs.EveryRunRescanAgrees` | service/node.go:738-804 | After every careful run, rescanning any node with its current labels, in whatever order apps are listed, changes nothing but the order inside that node's two app lists: the incremental edits refine the full scan. |
| `Runs.EveryRunAnswersCompared` | service/sync.go:69-146 | After every careful run the answer to any report speaks only of apps, system apps and node properties. |
| `Runs.EveryRunNodesConverge` | service/sync.go:69-146 | After every careful run, whatever a node reports, applying the answer leaves it with exactly the apps whose selector matches its labels, at their stored versions; and the answer to its next report leaves out a list it reports if and only if it reports just that. |
| `Ledger.EveryRunKeepsBook` | facade/application.go:19-204 | Over every careful run the stored tables are an account of the requests: a book that starts blank and is changed by each request on its own (apps as they were asked for, cron rows, labels, properties, resources and their labels) is at every point what the namespace holds, and each request succeeds, or is refused for the reason, that the book says. The book knows nothing of desires, indexes, transactions or the propagation of versions. |
| `Ledger.EveryRunTellsBook` | service/node.go:738-916 | At the end of every careful run each node's two lists are exactly the entries of the book that select its labels in the book, at the versions in the book, once each. |
| `Ledger.NextKept` | api/application.go:72-221 | One request of any kind, accepted or refused, does to the namespace what it does to the book. |
| `Ledger.CreatedEntry` | service/application.go:154-173 | After a successful creation the stored app has the base's volumes and services first, in order, then those of the request, and in everything else, the selector parked, what was asked for; no other app changes. |
| `Ledger.UpdatedEntry` | plugin/database/application.go:63-77 | After an accepted update the stored app has everything that was asked for, the selector parked, under the stored system flag and mode; its version is the new one if and only if any of this differs from what was stored or a service has a probe; no other app changes. |
| `Ledger.EqualAppIff` | plugin/database/entities/application.go:244-386 | The comparison that decides this is equality of two apps up to system flag, mode, version and service types, unless there is a probe. |
| `Ledger.CreationAdmitted` | api/application.go:72-126 | Whether a creation succeeds and which error it gives, told from the book alone. |
| `Ledger.UpdateAdmitted` | api/application.go:129-191 | The same for an update, and what becomes of the cron row. |
| `Ledger.DeleteAppKept` | api/application.go:194-221 | The app and its cron row leave the book; refused if and only if the name is reserved and the app selects a node. |
| `Ledger.UpdateResourceKept` | facade/config.go:33-98 | The new version and label are in the book, and the apps that mount the resource have their new versions if and only if the resource's version sorts above; nothing else changes. |
| `Ledger.DeleteResourceKept` | api/config.go:127-152 | The resource and its label leave the book if and only if no app mounts it. |
| `Ledger.GeneratedEntries` | service/system_app.go:101-165 | Generated apps are all stored, as generated, if and only if everything they mount exists. |
| `Ledger.CreateNodeKept` | api/node.go:209-279 | The new node has the labels asked for and no properties, generated resources with their versions and labels and the generated apps are stored, and a refused creation leaves nothing. |
| `Ledger.UpdateNodeKept` | service/node.go:177-198 | The node has the labels asked for, and its properties and everything else stay. |
| `Ledger.DeleteNodeKept` | api/node.go:384-454 | The node goes with its properties, the system apps that select it, and of the resources these mount only labelled ones, all of them when no volume has two sources. |
| `Ledger.SetPropsKept` | service/node.go:965-1015 | The properties asked for are the node's; refused if and only if there is no such node. |
| `RoundTrips.CreateDeleteRestores` | api/application.go:194-221 | Deleting an app right after creating it, with or without a base, scheduled or not, restores every table and every desire entry for entry; the deletion is refused if and only if the name has the reserved prefix and some node matches, which only callers of the services can meet, because the routes refuse such names on creation and on deletion. |
| `RoundTrips.ResubmitIdleIff` | api/application.go:374-532 | Submitting an app exactly as it is shown, waiting or not, changes nothing anywhere if and only if no service or init service has a probe (probes are compared by address), its registries are stored last, named after their secret and with no other source, its certificates are their volumes' only source, its settings are as the copying between app and services leaves them, and its mode label says its mode. |
| `RoundTrips.SecondResubmissionIdle` | api/application.go:374-532 | Once one such submission of an app without probes has been accepted, the next one changes nothing, whatever was stored before. |
| `RoundTrips.ProbedSpends` | plugin/database/application.go:63-77 | With a probe the resubmission of an app that meets the other conditions is accepted and the row takes the new version with the same volumes and settings; the namespace stays consistent, so every node it is on is told. |
| `RoundTrips.HistoryForgotten` | service/node.go:158-916 | Two careful runs that end with the same apps and nodes end with the same indexes and, up to order, the same desired apps and versions on every node, however they got there. |
| `RoundTrips.UpsertWithout` | service/node.go:869-916 | An entry that was new to the list is removed again without a trace. |
| `RoundTrips.UpsertSame` | service/node.go:869-901 | Refreshing an entry that is already there leaves the list as it is. |
| `Schedules.EveryRunShowsLastSelectorIff` | facade/application.go:19-32 | At every point of a careful run reading an app shows the selector last accepted for it, although a waiting app is stored without one, and cron rows match waiting apps, if and only if no request of the run was refused after it had changed what a cron row says. |
| `Schedules.NextShownIff` | facade/application.go:19-177 | One request of any kind keeps what is shown equal to what was accepted if and only if it is not a misreporting update. |
| `Schedules.AppCreatedShown` | facade/application.go:34-78 | A successful creation makes the submitted selector the one shown, parked or not. |
| `Schedules.AcceptedUpdateShown` | facade/application.go:80-140 | So does an accepted update, across every permitted change of cron status. |
| `Schedules.AppUpdatedShownIff` | facade/application.go:80-140 | An update, accepted or refused, keeps the shown selectors right if and only if it is not an update of a waiting app that was refused for its names after it had changed or dropped the parked selector. |
| `Schedules.RefusedUpdateShownIff` | facade/application.go:80-105 | For an update refused for its names, the same equivalence on the cron table alone. |
| `Consistency.RemovedExact` | service/node.go:903-916 | Removing an app's entry from a matching node's desire keeps both lists exact for the apps without it. |
| `Consistency.RefreshedExact` | service/node.go:869-901 | Refreshing an app's entry on a matching node keeps both lists exact for the apps with it, whether it was new or replaced. |
| `Consistency.WithdrawalExact` | service/node.go:844-867 | Removing an app from all matching nodes' desires keeps every desire exact. |
| `Consistency.DeploymentExact` | service/node.go:807-828 | Refreshing an app on all matching nodes keeps every desire exact. |
| `Consistency.PlacementWith` | service/index.go:71-73 | Rewriting one app's index row is the recomputed placement with that app. |
| `Consistency.PlacementWithout` | service/index.go:71-73 | Emptying the row is the recomputed placement without it. |
| `Consistency.ReferencesWith` | service/index.go:59-90 | Rewriting one app's config and secret rows is the recomputed reference index with that app. |
| `Consistency.LatestIsCurrent` | service/application.go:208-232 | Resolving references keeps which resources are named and leaves none outdated. |
| `Consistency.ValidNamesAre` | service/application.go:234-262 | The naming rules: volume names are distinct, service names are distinct, and everything a service mounts is a volume. |
| `Consistency.MissingDesireEdited` | service/node.go:869-916 | A missing desire is begun by the first app put on the node, with that entry alone, and stays missing when one is taken off. |
| `AppLists.LastIndex` | service/node.go:869-901 | The position found is that of the last entry with the name, or -1 when there is none. |
| `AppLists.UpsertExactly` | service/node.go:869-901 | Inserting or replacing an entry in an exact list gives an exact list for the set with that app's entry replaced, and no name twice. |
| `AppLists.UpsertOrder` | service/node.go:869-901 | The other entries stay where they are, a replaced one too, and a new one comes last. |
| `AppLists.WithoutExactly` | service/node.go:903-916 | Deleting entries by name from an exact list gives an exact list for the remaining set. |
| `AppOperations.AppCreatedConsistent` | api/application.go:72-126 | Creating an app keeps the namespace consistent in every case: success, name in use, invalid names, missing base, missing resource, cron conflict. |
| `AppOperations.AppCreatedCrons` | facade/application.go:34-78 | Cron rows still match waiting apps after a creation if and only if it is not one that wrote the row and was then refused for its names. |
| `AppOperations.OnlyNamesStop` | api/application.go:679-710 | Once validation has found everything the request mounts, only its names, together with those of its base app, can still stop it. |
| `AppOperations.StrandedCronBlocksRetry` | plugin/database/cron.go:29-33 | Once a failed creation has left its cron row, every later creation of a waiting app with that name fails. |
| `AppOperations.AppUpdatedConsistentIff` | api/application.go:129-191 | Updating an app keeps the namespace consistent if and only if it is refused, keeps the system flag, or reaches no node: the flag in the table is never rewritten while the desire edit follows the request. |
| `AppOperations.AppReplacedConsistentIff` | facade/application.go:80-140 | The same equivalence for the transaction part of an update, from any consistent state. |
| `AppOperations.AppReplacedTables` | plugin/database/application.go:63-77 | Placement, references and stored rows are right after every accepted update, even one that flips the flag. |
| `AppOperations.UpdatedDesiresExact` | facade/application.go:80-140 | Withdrawing from the old selector's nodes and deploying to the new one's makes all desires exact when the flag is kept, for every pair of selectors. |
| `AppOperations.FlippedFlagMisplaces` | service/node.go:869-901 | A reached node's desire is wrong as soon as the flag of the request differs from the stored one. |
| `AppOperations.AppUpdatedCrons` | facade/application.go:80-105 | Cron rows match waiting apps after an update if and only if it is not one that removed the row to end a wait and was then refused for its names. |
| `AppOperations.AcceptedUpdateCrons` | facade/application.go:80-140 | An accepted update always keeps them matched. |
| `AppOperations.AppDeletedConsistent` | api/application.go:194-221 | Deleting an app keeps consistency and the cron rows, also when deletion is refused. |
| `ResourceOperations.ResourceUpdatedConsistentIff` | facade/config.go:33-84 | Updating a config or secret always runs to its end; afterwards everything is consistent if and only if the new version sorts above the old one, equals it, or no app uses the resource. |
| `ResourceOperations.AdvancingUpdate` | facade/config.go:60-84 | An advancing version is carried to every app that uses the resource: each is stored with its references at their current versions and at its own new version, every other app is left as it is, and selectors, cron states, indexes and cron rows are untouched, however often the index lists an app. |
| `ResourceOperations.AdvancingUpdateTells` | facade/config.go:60-84 | And every node such an app selects lists it at that new version. |
| `ResourceOperations.PropagationDelivers` | facade/config.go:60-84 | The loop gives the named apps their new versions, once each however often they are named, and leaves the others as they are. |
| `ResourceOperations.PropagationCompletes` | facade/config.go:60-84 | The loop over app names, which may repeat, never stops early and after any prefix leaves only the unvisited apps behind. |
| `ResourceOperations.SecondVisitIdle` | facade/config.go:60-84 | An app that already carries the new version is left exactly as it is. |
| `ResourceOperations.PropagationIdle` | facade/config.go:86-98 | A version that does not sort above the one carried changes nothing at all. |
| `ResourceOperations.IdleUpdateConsistentIff` | facade/config.go:86-98 | Storing such a version leaves the namespace consistent if and only if it equals the old one or nobody uses the resource. |
| `ResourceOperations.UpdateDue` | facade/secret.go:76-88 | With every reference at the old version, an app needs an update if and only if it uses the resource and the new version sorts above. |
| `ResourceOperations.BumpedLatest` | facade/config.go:86-98 | Bumping a reference in place changes versions only, and resolving afterwards hides whether it happened. |
| `ResourceOperations.SecretEditedConsistentIff` | api/certificate.go:73-104 | Editing a certificate or a registry's description keeps the namespace consistent if and only if there is no such secret, its version does not change, or no app mounts it, because no app is told. |
| `ResourceOperations.ResourceCreatedConsistent` | api/config.go:61-90 | Creating a resource keeps the namespace consistent. |
| `ResourceOperations.ResourceDeletedConsistent` | api/config.go:127-152 | Deleting is refused if and only if some stored app refers to the resource, and keeps the namespace consistent, so no reference ever dangles. |
| `NodeOperations.RematchedExact` | service/node.go:773-804 | A rescan lists exactly the matching apps of one flag, once each, in whatever order the table is listed. |
| `NodeOperations.RescanAgrees` | service/node.go:773-804 | In a consistent state a rescan is a permutation of what incremental edits left, and finds the same index row. |
| `NodeOperations.RescanTouchesOneDesire` | service/node.go:177-198 | Updating a node without changing its labels changes nothing but its own desire. |
| `NodeOperations.RescanReordersOnly` | service/node.go:738-766 | And in that desire nothing but the order within the two lists. |
| `NodeOperations.NodeUpdatedConsistent` | service/node.go:177-198 | Updating a node with any labels keeps the namespace consistent. |
| `NodeOperations.NodeUpdatedTakesLabels` | service/node.go:177-198 | The node has the labels asked for and in its two lists exactly the apps that select those; the rest of its desire, every other desire and every other table stay. |
| `NodeOperations.MissingRowNoticedLate` | service/node.go:738-766 | A node without a desire row is refused after its labels have been stored and its index rows cleared. |
| `NodeOperations.NodePlacedConsistent` | service/node.go:738-766 | Writing the rescanned desire and index row of one node makes a consistent state consistent again for the new labels. |
| `NodeOperations.PropsSetConsistent` | service/node.go:965-1015 | Setting node properties keeps the namespace consistent. |
| `NodeOperations.NodeDeletedConsistentIff` | api/node.go:384-454 | Deleting a node also deletes the system apps it desired and labelled resources they mount; the namespace stays consistent if and only if none of those apps matches another node and no other app mounts those resources. |
| `NodeOperations.SweptAreMounted` | api/node.go:1100-1161 | Only labelled resources that the deleted apps mount go, whatever the order of apps and volumes; the rest keep their versions. |
| `NodeOperations.SweptExactly` | api/node.go:1100-1161 | When no volume of theirs has both a config and a secret, exactly those go. |
| `NodeOperations.TwoSourcesSwept` | api/node.go:1109-1153 | Of a volume with both sources nothing goes unless the config is there and labelled; then it goes, and the secret too if labelled. |
| `NodeOperations.SharedResourceLost` | api/node.go:1100-1161 | A labelled resource that a system app of the node and an app that stays both mount always breaks the condition. |
| `NodeOperations.ShippedTemplatesPrivate` | api/node.go:209-222 | Apps that select by the new node's name, as all shipped templates do, match no existing node, because requests label each node with its own name. |
| `NodeOperations.ShippedAppsPrivate` | api/node.go:282-298 | And a node's system apps that select by its name match no other node. |
| `NodeOperations.SystemAppsAre` | api/node.go:435-454 | In a consistent state the system apps deleted are exactly those whose selector matches the node. |
| `NodeOperations.NodeDeletedCrons` | api/node.go:384-414 | Deleting a node keeps cron rows matched with waiting apps. |
| `NodeOperations.NodeCreatedConsistentIff` | api/node.go:209-279 | Creating a node keeps the namespace consistent if and only if it fails or no generated system app matches a node that already exists. |
| `NodeOperations.RowsGeneratedConsistent` | service/system_app.go:101-165 | Storing any number of generated apps that match no existing node keeps everything exact for the existing nodes. |
| `NodeOperations.NodeCreatedCrons` | api/node.go:209-279 | Creating a node keeps cron rows matched with waiting apps. |
| `Examples.FlippingSystemFlagBreaks` | plugin/database/application.go:160-177 | A concrete run: turning a deployed user app into a system app ends inconsistent. |
| `Examples.DeletingNodeBreaksSharedSystemApp` | api/node.go:1100-1161 | A concrete run: deleting one of two nodes that share a system app ends inconsistent. |
| `Examples.DeletingNodeBreaksSharedConfig` | api/node.go:1109-1127 | A concrete run: deleting a node whose private system app mounts a labelled config takes it from under a user app. |
| `Examples.RenewedCertificateIsLost` | api/certificate.go:73-104 | A concrete run: a renewed certificate leaves the app that mounts it at the old version. |
| `Examples.ProbedResubmissionSpends` | plugin/database/entities/application.go:319-332 | A concrete run: resubmitting an app with a probe as it was read spends a version. |
| `Examples.BaseRegistryResubmissionSpends` | service/application.go:154-173 | A concrete run without probes: an app created on top of a base app with a registry stores that registry before its own config; resubmitted as it was read, it spends a version on the changed order. |
| `Examples.GeneratedAppBreaksOtherNode` | service/system_app.go:101-165 | A concrete run with a template that, unlike the shipped ones, does not select by node name: the generated app also matches an existing node and the run ends inconsistent. |
| `Examples.SmallerVersionIsLost` | plugin/database/entities/node.go:185-187 | Concrete runs, one for every second: two config versions of the same second, of which the later sorts below the earlier in its random letters, so that it reaches no app. |
| `Examples.FailedCreationStrandsCron` | facade/application.go:34-78 | A concrete run: a refused creation of a waiting app leaves a cron row without an app. |
| `Examples.FailedUpdateLosesSelector` | facade/application.go:80-105 | A concrete run: a refused update that was to end the wait leaves the app waiting, without its cron row, and shown with an empty selector. |
| `Examples.FailedUpdateRewritesSelector` | facade/application.go:80-105 | A concrete run: a refused update that was to keep the app waiting has rewritten its cron row, and the refused selector is shown. |
| `Database.Tables.Rollback` | facade/application.go:34-48 | Rolling back restores every table of the transaction and leaves the cron rows as they are. |
| `Database.Tables.ListNode` | service/node.go:807-828 | The nodes whose labels match the selector, each once, in some order. |
| `Database.Tables.ListAppsByResource` | service/index.go:63-94 | The apps the reference index lists for a resource, one name for each row, so an app may be listed several times. |
| `Database.Tables.ListShadowByNames` | plugin/database/shadow.go:102-111 | Fresh copies of the existing rows among the names, none missing and none twice. |
| `Database.Tables.UpdateDesires` | plugin/database/shadow.go:152-191 | Each given desire is written, also where no row existed, and no other row changes. |
| `Database.Tables.RefreshNodesIndexByApp` | plugin/database/index.go:46-66 | Delete-then-insert replaces exactly the app's row of the placement index. |
| `Database.Tables.RefreshAppsIndexByNode` | plugin/database/index.go:46-66 | Delete-then-insert replaces exactly the node's column of the placement index. |
| `Database.Tables.RefreshResourceIndexByApp` | plugin/database/index.go:46-66 | Only the config or only the secret rows of one app are deleted, and one row is inserted for each name given, repeated names included. |
| `NodeService.RefreshNodeDesireByApp` | service/node.go:869-901 | The loop that finds the entry and overwrites or appends it performs the specified edit, for a missing desire too. |
| `NodeService.DeleteNodeDesireByApp` | service/node.go:903-916 | The filtering loop performs the specified removal and leaves a missing desire missing. |
| `NodeService.UpdateDesire` | service/node.go:701-711 | Exactly the named nodes that have a desire row are edited. |
| `NodeService.UpdateNodeAppVersion` | service/node.go:807-828 | Every node the selector matches is told, no other row changes, and the names returned are those nodes. |
| `NodeService.DeleteNodeAppVersion` | service/node.go:844-867 | Every node the selector matches loses the entry, no other row changes, and the names returned are those nodes. |
| `NodeService.MatchedNamesAre` | service/node.go:773-804 | The names collected by a scan are those of the listed apps whose selector matches. |
| `NodeService.RematchApplicationsForNode` | service/node.go:773-804 | The scan splits matching apps into the user and the system list and collects their names. |
| `NodeService.GenApps` | service/system_app.go:101-165 | Generated apps are stored with resolved references, stopping at the first failure. |
| `NodeService.CreateNode` | api/node.go:209-279 | The whole request refines the specified transition, with rollback on each failing branch. |
| `NodeService.PlaceNode` | service/node.go:738-766 | The new node's desire and index row come from one scan of all apps, and an existing shadow row refuses it. |
| `NodeService.UpdateNode` | service/node.go:177-198 | The request refines the specified transition, including the index row it has already cleared when the desire row is missing. |
| `NodeService.DeleteSysApps` | api/node.go:1100-1161 | The named apps that exist are removed one after the other, with their references and the labelled resources they mount. |
| `NodeService.SweepVolume` | api/node.go:1109-1153 | A labelled config goes and then a labelled secret; a config that is missing or not labelled ends the cleaning of its volume. |
| `NodeService.SysAppNames` | api/node.go:435-454 | The names read from the desire's system list. |
| `NodeService.DeleteNode` | api/node.go:384-414 | The request refines the specified transition. |
| `NodeService.UpdateNodeProperties` | service/node.go:965-1015 | The desire's side of a property update refines the specified transition. |
| `ApplicationService.ValidName` | service/application.go:234-262 | Accepts if and only if volume names and service names are distinct and every mount names a volume. |
| `ApplicationService.GetConfigsAndSecrets` | service/application.go:208-232 | Succeeds if and only if every referenced resource exists, and then returns the volumes at current versions and the names used. |
| `ApplicationService.GetVolume` | service/application.go:208-232 | One turn of that loop. |
| `ApplicationService.RefreshReferences` | service/application.go:75-94 | The two index refreshes together replace the app's references. |
| `ApplicationService.Create` | service/application.go:75-94 | Which of the outcomes occurs, and what each leaves behind before any rollback. |
| `ApplicationService.Update` | service/application.go:97-121 | Outcome and new row: references resolved; the row is left as it is when nothing compared has changed and no service has a probe, and otherwise written at a new version with the stored system flag and mode. |
| `ApplicationService.Delete` | service/application.go:124-138 | The row and its references go together. |
| `ApplicationService.CreateWithBase` | service/application.go:155-173 | The base app's volumes and services are put first, then the names are checked and the app is stored. |
| `Facade.UpdateNodeAndAppIndex` | facade/application.go:198-204 | Nodes are told and the app's index row becomes the nodes its selector matches. |
| `Facade.DeleteNodeAndAppIndex` | facade/application.go:179-186 | Matching nodes drop the app and its index row is emptied. |
| `Facade.GetApp` | facade/application.go:19-32 | A waiting app is returned with its parked selector, any other as stored. |
| `Facade.CreateApp` | facade/application.go:34-78 | The method with its rollback and its cron row outside it refines the specified transition. |
| `Facade.UpdateApp` | facade/application.go:80-140 | The same for all cron cases and for a changed selector. |
| `Facade.DeleteApp` | facade/application.go:142-177 | Cron row, app row, references, desires and index row are removed together. |
| `Facade.CreateApplication` | api/application.go:72-126 | The request, with its check of what is mounted, its check of the name and its lookup of the base app, refines the specified transition. |
| `Facade.MountsExist` | api/application.go:679-710 | Says whether everything the app mounts exists. |
| `Facade.UpdateApplication` | api/application.go:129-191 | The request, with its check of what is mounted and the rule on cron status changes, refines the specified transition. |
| `Facade.DeleteApplication` | api/application.go:194-221 | A missing app is a success, one with the reserved name prefix that the index still places is refused, any other is deleted. |
| `Facade.NeedUpdateApp` | facade/config.go:86-98 | Says whether some reference carries a smaller version, and bumps exactly those. |
| `Facade.UpdateNodeAndApp` | facade/config.go:60-84 | The loop refines the specified propagation and stops at the first failure, keeping what was done. |
| `Facade.UpdateResource` | facade/config.go:33-54 | The request, with the rule that a system config keeps its label, refines the specified transition for the apps the index lists, in the order and as often as it lists them. |
| `Facade.UpdateCertificate` | api/certificate.go:73-104 | Refused for a missing secret, otherwise stored at a new version without looking for apps that mount it. |
| `Facade.CreateResource` | api/config.go:61-90 | Refused when the name is taken, otherwise stored. |
| `Facade.DeleteResource` | api/secret.go:144-163 | Refused while the index lists an app. |
| `ReportCache.FlushKeepsOverlay` | triggerfunc/trigger.go:129-175 | Moving old enough pending entries into the map changes nothing that a reader who looks at both would see. |
| `ReportCache.Cache.SaveCache` | triggerfunc/trigger.go:129-175 | The loop moves exactly the entries queued before the cut-off and leaves the rest pending. |
| `ReportCache.Cache.ShadowCreateOrUpdateCacheSet` | triggerfunc/trigger.go:38-91 | A report is queued; when the timer has fired and no lock is held the queue is flushed; a lock older than two minutes is removed and nothing else. |
| `ReportCache.Cache.ShadowDeleteCache` | triggerfunc/trigger.go:94-127 | The node leaves map, queue and report cache together, unless there is no map, when nothing changes. |
| `ReportCache.Cache.SetNodeShadowCache` | service/node.go:508-535 | The map is rebuilt from the table, with a zero time for listed nodes only when rows are fewer than nodes. |
| `ReportCache.Cache.GetAllShadowReportTime` | service/node.go:374-405 | The cached map is used if and only if it has at least as many entries as there are nodes. |
| `ReportCache.Cache.GetShadowReportCacheByNames` | service/node.go:407-438 | The eleventh miss bypasses the cache; fewer misses serve cached entries and the table for the rest. |
| `ReportCache.Cache.SetShadowReportCacheByNames` | service/node.go:441-479 | The table's answer, and a background fill if and only if no fill lock is held. |
| `ReportCache.Cache.SetShadowReportCache` | service/node.go:482-505 | Each missed name gets its report or the empty one, and the lock is released. |
| `ReportCache.RebuiltCoversIff` | service/node.go:508-535 | Every listed node gets a time if and only if rows are fewer than nodes or every node has a row. |
| `ReportCache.RebuiltCovers` | service/node.go:508-535 | When rows belong to listed nodes the rebuilt map has exactly the listed nodes, with the stored times. |
| `ReportCache.RebuiltAt` | service/node.go:508-535 | Exactly which names a rebuilt map has, also rows of nodes that are not listed, and which time each has. |
| `ReportCache.CachedCoversIff` | service/node.go:374-405 | A cached map that is long enough to be used covers the listed nodes if and only if its entries for other nodes are exactly its surplus. |
| `ReportCache.TimesUsedCover` | service/node.go:374-405 | Without entries or rows of nodes that are not listed, the map used covers exactly the listed nodes, cached or rebuilt. |
| `ReportCache.LeftoverHidesNode` | service/node.go:374-405 | For any two nodes: an entry left over from one hides that the other is missing. |
| `ReportCache.ServedIff` | service/node.go:407-438 | Reading through the cache equals reading the table if and only if there are more than ten misses or the served entries agree with the table. |
| `ReportCache.ServedWithoutRow` | service/node.go:407-438 | For a name without a row: nothing past ten misses, else what is cached, if anything. |
| `ReportCache.MissedEach` | service/node.go:407-438 | Misses are counted position by position, repeated names included. |
| `ReportCache.StuckLockFreed` | service/node.go:441-479 | A fill lock that is never released is dropped by the first read more than half an hour later, and the next read takes it again. |
| `WriteBehind.TraceSafeIff` | triggerfunc/trigger.go:38-175 | An interleaving of the separate steps of reports, node creations (whose first time is queued before the row is committed or rolled back), deletions, rebuilds, flushes and flushes of other namespaces shows no wrong time at any point, other than while the right one is on its way to the queue, if and only if every step of it is timely. |
| `WriteBehind.NextSafeIff` | triggerfunc/trigger.go:38-175 | The same for one step: storing, reading, evicting, deleting rows, queueing a created node's time and the begin, loads and commit of a flush are always timely; queueing a report, committing a created row, writing a copied map and removing a queue entry have exact conditions. |
| `WriteBehind.ListedRightIff` | service/node.go:508-535 | In every interleaving, a map listed at one point and written at a later one is right about a node if and only if the last time stored for that node in between, if any, is the one listed. |
| `WriteBehind.DeletionRightIff` | triggerfunc/trigger.go:94-127 | In every interleaving, a map read for the deletion of another node and written later is right about a node if and only if the last time stored for it in between, or else the one in the table at the read, is the one that was cached. |
| `WriteBehind.RemovedWasLoaded` | triggerfunc/trigger.go:129-175 | In every interleaving an entry that a flush removes was loaded by that flush before, and was due then. |
| `WriteBehind.DeletedStaysAway` | plugin/database/shadow.go:28-150 | In every interleaving a deleted row stays away until it is stored or created again. |
| `WriteBehind.StaleOnlyWhilePending` | triggerfunc/trigger.go:38-175 | In every interleaving in which no flush commits while a copied map is open, reports of a node are queued in the order stored, a created node's time is still queued when its row is committed, a flush removes the entries it loaded, other names are unqueued only while their row is gone and not being created, and no other namespace interferes, a cached time differs from the stored one only while the stored one is on its way to the queue, queued, or held by the running flush. |
| `WriteBehind.RebuildLosesReport` | service/node.go:508-535 | A run, for any node and times: a rebuild lists the table before and writes its map after a report is stored and flushed, and the old time stays with nothing under way. |
| `WriteBehind.DeletionLosesReport` | triggerfunc/trigger.go:94-127 | The same for the deletion of another node, which reads the map before and writes it after a flush. |
| `WriteBehind.OvertakenReportLost` | plugin/database/shadow.go:137-150 | Two reports stored in one order and queued in the other leave the older time. |
| `WriteBehind.LateReportLost` | triggerfunc/trigger.go:150-162 | A report queued after a flush has loaded the node's entry and before it removes it is removed with it, and the old time stays. |
| `WriteBehind.StolenReportLost` | triggerfunc/trigger.go:21-24 | The queue is shared by all namespaces: a flush of another one takes the entry, and the old time stays. |
| `WriteBehind.EarlyTimeLost` | plugin/database/shadow.go:28-45 | A created node's time is queued and flushed before its row is committed; a rebuild that has not seen the row writes the zero time over it, which stays. |
| `WriteBehind.QueueReport` | triggerfunc/trigger.go:38-91 | The cache object's handling of a stored report is a run of the machine: one queueing step and, when it flushes, a flush entry by entry. |
| `WriteBehind.QueueCreation` | plugin/database/shadow.go:28-45 | The same for a created node's first time, with the row still uncommitted. |
| `WriteBehind.DeleteReport` | triggerfunc/trigger.go:94-127 | Its handling of a deletion is a run: read, unqueue, write, or nothing without a map. |
| `WriteBehind.RebuildTimes` | service/node.go:508-535 | Its rebuild is a run: list, write. |
| `WriteBehind.FlushStepKeepsVisible` | triggerfunc/trigger.go:129-175 | No step of a flush changes what is visible across map, flush and queue, as long as the entry it removes is the one it loaded. |
| `WriteBehind.StepwiseFlushIsAtomic` | triggerfunc/trigger.go:129-175 | A flush taken one entry at a time, in any order, equals the flush specified as one step. |
| `ReadThrough.FillAgreesIff` | service/node.go:441-505 | In every interleaving, once a background fill has written a name that has a row, cache and table agree about it if and only if the last document reported for it since the fill read the table, if any, is the one the fill read. |
| `ReadThrough.TraceAgreesIff` | service/node.go:407-505 | An interleaving of the separate steps of reports, deletions and fills caches no wrong document at any point, other than while the right one is still to be published, if and only if every step is timely. |
| `ReadThrough.NextAgreesIff` | service/node.go:441-505 | The same for one step; only publishing and a fill's write have a condition. |
| `ReadThrough.FillUndoesReport` | service/node.go:482-505 | A run, for any node and documents: a report stored and published between a fill's read and its write is undone for good. |
| `ReadThrough.FillCache` | service/node.go:482-505 | The cache object's fill is a run of those writes, name by name. |
| `ReadThrough.ReadRows` | service/node.go:441-479 | Its read of the table is the machine's read, and it starts a fill if and only if the lock is free. |
| `ReadThrough.PublishReport` | triggerfunc/trigger.go:38-91 | Its handling of a stored report is the machine's publication. |
| `ReadThrough.DropReport` | triggerfunc/trigger.go:94-127 | Its handling of a deletion drops the document, or does nothing without a map of times. |
| `ReadThrough.DeletedStaysAway` | plugin/database/shadow.go:28-150 | In every interleaving a deleted row stays away until its node reports again. |
| `NodeQuota.CheckQuota` | service/quota.go:30-54 | Passes if and only if no counted quantity has reached its limit; a missing or zero limit does not count. |
| `NodeQuota.TraceBounded` | server/admin_server.go:155 | In every interleaving of lock, check, create and unlock with at most h holders the node count exceeds the limit by less than h. |
| `NodeQuota.NextBounded` | common/context.go:224-248 | Every single step keeps the bound that also counts requests already checked. |
| `NodeQuota.NeverPastLimit` | server/admin_server.go:155 | With an exclusive lock no interleaving takes the count past the limit. |
| `NodeQuota.BoundReached` | plugin/default/lock/empty_lock.go:19-25 | For every limit and every h a run reaches the bound, so with the default lock, which excludes nobody, the quota is only as good as the number of requests in flight. |
| `NodeQuota.UnlimitedPasses` | service/quota.go:30-54 | Without a limit, or with limit zero, no check fails. |
| `NodeQuota.RefusedStaysOut` | server/admin_server.go:155 | In every interleaving a request that was refused creates nothing unless it takes the lock again. |
| `NodeQuota.DeletionMakesRoom` | service/quota.go:30-54 | At the limit a check fails, and after one deletion it passes. |
| `Sync.ExtractComparingReport` | service/sync.go:134-146 | Keeps exactly the three compared entries of a report, unchanged. |
| `Sync.NodeShadow.Report` | service/sync.go:69-132 | The report is stored (an init report is merged into the old one) before the check for system apps; the answer is the difference with the desire, or nothing for a node in local mode. |
| `Sync.DiffMentions` | service/sync.go:69-132 | A difference mentions a key if and only if it is wanted with another value, or present and unwanted. |
| `Sync.DiffApplies` | service/sync.go:69-132 | Applying the difference to what a node has gives what is wanted. |
| `Sync.DeltaMentionsIff` | service/sync.go:69-132 | An app list is in the answer if and only if the stored report differs from the desire there. |
| `Sync.DeltaKeysIff` | service/sync.go:134-146 | The answer stays within the compared keys if and only if the desire does, whatever the report holds. |
| `Sync.DeltaApplies` | service/sync.go:69-132 | A node that applies the answer to its compared entries has the desire. |
| `Sync.SyncConverges` | service/node.go:595-661 | Once a node reports what the answer told it, the next answer mentions that app list no more, whatever else was reported before or since; for the init source, which merges its report, the list must be desired. |
| `Sync.ReportedDecides` | service/sync.go:69-132 | For a list that the node reports, the answer leaves it out if and only if what is reported there is what is desired. |
| `Sync.InitKeepsRest` | service/node.go:635-661 | Of a report of the init program the system apps and their statistics are stored, and everything else stays as reported before. |
| `Sync.InitLeavesApps` | service/node.go:635-661 | So the answer to it mentions the user apps if and only if the answer to the stored report does. |
| `Sync.CoreReplaces` | service/node.go:595-633 | A full report is stored as received, with the time of its arrival and without empty or malformed properties; nothing of the old one is left. |
| `Sync.PropsAlwaysSent` | service/sync.go:69-132 | Desired properties are in every answer, whole; undesired ones are mentioned if and only if they are reported. |
| `NodeProperties.TraceDates` | service/node.go:965-1015 | Over every run of property updates, reports and rescans, exactly the desired properties are dated, each with the time at which it was given the value it still has. |
| `NodeProperties.StepKeepsDate` | service/node.go:965-1015 | A step that leaves a property's value leaves its date. |
| `NodeProperties.StepSetsDate` | service/node.go:965-1015 | A property gets a new value only by an update that names it, and is dated by that update. |
| `NodeProperties.Node.UpdateNodeProperties` | service/node.go:965-1015 | The desired properties are replaced and the dates follow the difference with the old ones. |
| `NodeProperties.RefreshMeta` | service/node.go:965-1015 | The loop dates changed properties, forgets removed ones and keeps the rest. |
| `Listing.DefaultListNode` | service/node.go:326-371 | Fails if and only if some node's reporting interval is unreadable; otherwise lists the nodes with online ones first and the old order kept within each group. |
| `Listing.OnlineFirstPermutes` | service/node.go:326-354 | Every order with that property lists each node exactly once. |
| `Listing.OnlineFirstUnique` | service/node.go:326-354 | There is only one such order. |
| `Listing.OnlineWhileFresh` | service/node.go:326-371 | A node is online if and only if it has reported and the report is younger than its interval and twenty seconds, so from then back to the report at every moment. |
| `Listing.Filter.GetLimitOffset` | models/filter.go:46-51 | The offset in 64-bit arithmetic, with page numbers below one taken as one and rewritten. |
| `Listing.Filter.GetPagingParam` | models/filter.go:84-99 | The bounds in 64-bit arithmetic, for every page number, page size and length. |
| `Listing.PageBoundsUsableIff` | models/filter.go:84-99 | The bounds can slice the list if and only if the offset lies beyond it or neither offset nor end has wrapped. |
| `Listing.PageBoundsWrap` | models/filter.go:84-99 | For every length there is a page number whose bounds are negative. |
| `Listing.PageDefaults` | models/filter.go:84-99 | A page number below one is the first page, without a page size the page is the whole list, and an offset beyond the list gives the empty bounds. |
| `Listing.PagesCover` | models/filter.go:84-99 | The first k pages one after the other are the first k times page-size elements of the list, each once and in order, for every list, size and k below the wrap. |
| `ConfigView.CheckItems` | api/config.go:181-211 | Accepts if and only if every item has the fields its kind needs. |
| `ConfigView.CheckElementsExist` | api/config.go:289-296 | True if and only if all named fields are there. |
| `ConfigView.ToConfiguration` | api/config.go:258-287 | The loop builds the stored map in which later items for a slot replace earlier ones. |
| `ConfigView.ToConfigurationView` | api/config.go:221-256 | Fails if and only if some stored content does not decode; otherwise shows exactly one item per slot, in any map order. |
| `ConfigView.RoundTripIff` | api/config.go:221-287 | A validated list of items comes back as the same set if and only if every item is in canonical form and no two different items share a slot. |
| `ConfigView.LaterValueWins` | api/config.go:258-287 | Inputs that do not come back: of two values for one key only the later is shown. |
| `ConfigView.ExtraFieldDropped` | api/config.go:258-287 | Inputs that do not come back: whatever else a kv item carries is dropped. |
| `ConfigView.StoredFrom` | api/config.go:258-287 | Every slot holds the content of some item for that slot, and every known item has a slot. |
| `ConfigView.ShownFrom` | api/config.go:221-287 | What is shown for a slot is some submitted item in normal form. |
| `ConfigView.LastItemStored` | api/config.go:258-287 | What is stored in a slot is the content of the last item for it. |
| `ConfigView.ObjectStored` | api/config.go:258-287 | An object is stored with its address, its checksum, whether to unpack it, and all its fields together with the user. |
| `ConfigView.AcceptedItems` | api/config.go:181-211 | What accepted items are sure to have, field by field. |
| `ConfigView.ForeignObjectShown` | api/config.go:221-256 | Object content without fields is shown as a plain value, and content that does not decode fails the view. |
| `VolumeView.TranslateSecretLikedModelsToSecrets` | api/application.go:615-636 | Certificates become secret volumes in place and registries are appended as secret volumes. |
| `VolumeView.TranslateSecretsToSecretLikedResources` | api/application.go:638-677 | Each stored volume becomes a certificate, a registry or itself by its secret's label, and one whose secret is missing is dropped. |
| `VolumeView.TranslateSecret` | api/application.go:638-677 | One turn of that loop. |
| `VolumeView.RoundTripIff` | api/application.go:615-677 | Hiding and showing gives back the same volumes and registries in order, up to versions and registry details, if and only if every secret named exists with the label that says what it is. |
| `VolumeView.MountedRegistryMoves` | api/application.go:638-677 | Inputs that do not come back: a registry's secret mounted as a plain volume is shown as a registry and not as a volume. |
| `VolumeView.SurvivesIff` | api/application.go:615-677 | The other way round: a stored list that is shown and hidden again is the same list in the same order, up to versions, if and only if its registries come last, named after their secret and with no other source, and its certificates are their volumes' only source. |
| `VolumeView.RehiddenTidy` | api/application.go:615-677 | Whatever has been shown and hidden once is such a list. |
| `VolumeView.ShownResolves` | api/application.go:638-677 | Whatever is shown names a secret that exists with the right label. |
| `VolumeView.RegistriesCounted` | api/application.go:638-677 | Registries come back one for one if and only if all resolve, and some are missing otherwise. |
| `VolumeView.RegistryDetails` | api/application.go:638-677 | The details shown for a registry are those of its secret. |
| `Compatibility.CompatibleAppDeprecatedField` | api/application.go:840-931 | The loops that copy workload, host network, replicas and job between app and services compute the specified settings, each from the values before the call. |
| `Compatibility.TwiceIff` | api/application.go:840-931 | Copying once for the view and once for the request leaves everything that is compared as it was if and only if the app has a workload and its host network, replicas and job are already shared with the services. |
| `Compatibility.TwiceSteady` | api/application.go:840-931 | After two rounds nothing compared changes any more, whatever the settings were. |
| `Compatibility.OnceIsNotEnough` | api/application.go:875-893 | One round is not enough: replicas taken from the first service reach the other services only in the next round. |
| `Compatibility.OldFormIsNewForm` | api/application.go:840-931 | What it is for: an app with all settings on its only service becomes the app with those settings itself. |
| `Compatibility.NewFormReachesServices` | api/application.go:840-931 | Settings of the app reach every service that has none, and the defaults apply when nothing is given. |
| `Compatibility.GivenKept` | api/application.go:840-931 | A setting that is given, on the app or on a service, is never changed. |
| `Numerals.CompareIsNumeric` | common/utils.go:30-41 | For decimal strings without leading zeros, of any length, the result has the sign of the difference of the numbers they denote. |
| `Numerals.SameLength` | common/utils.go:30-41 | For digit strings of equal length, character order is numeric order. |
| `Numerals.LongerIsLarger` | common/utils.go:30-41 | Without leading zeros a longer string denotes a larger number. |
| `Ports.ValidPorts` | api/application.go:712-739 | Accepts if and only if node ports are positive, no number is claimed twice within UDP or within the rest across all services and init services together, and several replicas use no host port. |
| `Ports.AcceptableIff` | api/application.go:712-816 | The rule port by port and pair by pair: positive node ports, no two ports with the same number within UDP or within the rest, no host port with several replicas. |
| `Ports.CheckServices` | api/application.go:714-739 | One of the two loops decides this for its services given the ports already seen. |
| `Ports.Seen.IsValidPort` | api/application.go:780-801 | One service passes if and only if all ports so far and its own are sound together, and its host ports are counted. |
| `Ports.Seen.CheckDuplicatePort` | api/application.go:803-816 | Passes if and only if the number is unclaimed for that protocol, and then claims it. |
| `Ports.OneMore` | api/application.go:780-816 | One more port keeps the whole list sound if and only if it is positive where it must be and its claim is new. |

## Left out

* Requests on one namespace are taken one after the other. Creating and updating apps and nodes and updating
  configs and certificates ask for a namespace lock; deletions, secrets, registries, the creation of configs and
  property updates do not, and the lock that ships by default excludes nobody. Their interleavings are not
  modelled (the quota and the report caches are modelled with interleavings).
* Resubmission is for container apps in kube mode whose request passes the checks that look at the request alone.
  The defaults that decoding a request fills in from field tags are taken to leave alone what was read.
* The desire-version comparison of the shadow table, which matters only under such interleavings.
* Failures of the database, the cache and the other plugins, except those the requests themselves provoke.
* Several namespaces; a base app is taken from the same namespace, so the copying of configs from another one is not modelled.
* Function apps' generated configs, YAML resources, native programs and their volumes, image and object configs' remote contents.
* The PKI certificate that goes with a deleted secret; optional system apps and accelerator changes on node
  update; core app upgrades. They would add cases of the same kind.
* Templates: a created node's system apps and resources are inputs, assumed to have new names, valid names and no schedule.
* Cron times and the firing of schedules, which nothing in the repository triggers.
* Checks on labels, types and syntax that only refuse more requests before the modelled code is reached, and the
  early answer to a config or secret update that changes nothing.
* The error code distinguishes fewer causes than the messages do: a duplicate name and a missing mount are one error.
* Fields of an application that no modelled operation reads are folded into one value that takes part in the comparison deciding whether a version is kept.
* Configs and secrets have the same code twice in the source and are one kind-indexed operation here.
* The dates kept for reported properties, and a missing shadow row when a report arrives.
* Failed cache writes, and several server processes, each with its own queue.
* Filtered node listing, which sorts by other criteria; lock expiry; the quota plugin's acquire and release calls.
* SQL text, Kubernetes storage, object storage, PKI and encryption. The JSON encoding of object items is an arbitrary encoder with its inverse.

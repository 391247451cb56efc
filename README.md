# Campaign model of Mautic's CampaignBundle, in Dafny

This project models the core of `CampaignModel`, the service behind Mautic campaigns:

- `setEvents` rebuilds a campaign's event tree from the builder session. It takes the event
  entries, the reorder map and the deleted ids. It removes deleted events and reuses or creates
  Event entities. Then the closure `setOrderAndParent` walks each event's ancestors, prunes
  events under a deleted ancestor, and sets order and parent on the rest.
- `triggerEvent` fires one campaign event for a lead. It has three gates (anonymous session,
  already applied, known type), then the callable check, the handler lookup and the marshalling
  of the handler's arguments by parameter name.
- `triggerEvents` fires every published event of a lead's campaigns, skipping those already
  logged for the lead. Each success becomes a LeadEventLog row and queues the event for saving.
- `saveEntity` backfills after a save. For a published campaign that triggers existing leads,
  it builds a lead filter per event and fires the event for every lead the filter selects.
- `dispatchEvent` and `createForm` refuse any entity that is not a Campaign.
  `dispatchEvent` maps the four action names to campaign event names.

Modules:

- `PhpValues` (php_values.dfy): PHP values, `empty()`, array keys, `implode` and `explode`.
- `EventTree` (event_tree.dfy): the rebuild as pure functions.
  - The event entities sit in a heap, and a reference is an index into it.
  - The campaign's collection maps keys to references, so two keys can share one entity.
- `EventTreeLemmas` (event_tree_lemmas.dfy): what the rebuild guarantees.
- `EventTreeScenarios` (event_tree_scenarios.dfy): worked rebuilds of a two-event campaign.
- `EventTreeBuild` (event_tree_build.dfy): the imperative version.
  - A `Campaign` class has the entity heap and the collection as fields, plus the entity
    setters as methods.
  - `SetEvents` is written loop by loop, as the PHP is.
  - It is proved equal to `EventTree.Rebuild`.
- `Trigger` (trigger.dfy): `triggerEvent` with the handler registry as an input.
- `Runners` (runners.dfy): `triggerEvents` and the backfill of `saveEntity`.
  - Each is a specification fold and a method with loops proved equal to it.
- `Dispatch` (dispatch.dfy): `dispatchEvent` and `createForm`.

Behaviour of the code that the model keeps, where a reader might expect otherwise:

- **Orders.** `$orders` is captured by value (line 244), so every closure call starts from an
  empty counter: a root gets order 2 and a child 1.01, whatever was placed before. Orders are
  kept in hundredths.
- **Registry key.** The handler registry is looked up by the campaign's type,
  `$campaign->getType()` (lines 372 and 376). The event's own type is not used for the lookup; it is only passed
  on to the handler (line 380).
- **Faults.** Nothing in `triggerEvent` or its callers catches an exception. A handler lookup
  that throws (line 399) ends the whole run of `triggerEvents` or of the backfill, and the
  `saveEntities` call after the loop is never reached.
- **Which events count as existing.** `getEvents()` is taken to return the live collection.
  So an entry whose `id` was just deleted makes a new Event (lines 213-225).
- **Unmatched parent.** The reorder branch skips a child missing from the working array
  ("likely a deleted event", line 303). A missing *ancestor* is not guarded: line 266 calls
  `getParent()` on null, a PHP fatal error, modelled as the outcome `Crashed`.

## Model

| member | source | states |
|---|---|---|
| PhpValues.IsEmpty | app/bundles/CampaignBundle/Model/CampaignModel.php:224 | `empty()` holds exactly of the values whose array key is "" or "0" |
| PhpValues.KeyOf | app/bundles/CampaignBundle/Model/CampaignModel.php:224-225 | only an array or object has no key; an integer is the key "0" exactly when it is 0, and negative integers are exactly those written with a minus sign |
| PhpValues.Join | app/bundles/CampaignBundle/Model/CampaignModel.php:114 | `implode` starts with the first id and holds a comma exactly when it joins two or more comma-free ids |
| PhpValues.SplitJoin | app/bundles/CampaignBundle/Model/CampaignModel.php:110-114 | `explode(',')` of `implode(',', ids)` gives back the ids, when no id contains a comma |
| PhpValues.Explode | app/bundles/CampaignBundle/Model/CampaignModel.php:396 | `explode` always yields at least one part, and two or more once the separator occurs |
| PhpValues.ExplodeJoined | app/bundles/CampaignBundle/Model/CampaignModel.php:395-397 | `Class::method` splits into exactly the class and the method when neither contains a colon |
| EventTree.WithoutRef | app/bundles/CampaignBundle/Model/CampaignModel.php:217 | `removeEvent` leaves a key exactly when it held another entity, and each kept key keeps its entity |
| EventTree.AfterDeletions | app/bundles/CampaignBundle/Model/CampaignModel.php:213-219 | the deletion loop only removes keys and never changes what a kept key holds |
| EventTree.ApplyProperties | app/bundles/CampaignBundle/Model/CampaignModel.php:227-238 | the property loop never changes an entity's id, order or parent, with property names compared as the reserved list spells them (see Left out) |
| EventTree.ReuseTarget | app/bundles/CampaignBundle/Model/CampaignModel.php:224-225 | an entry reuses only an entity of the collection; never without an `id` or with an empty one; a non-empty string id reuses exactly the entity under that key |
| EventTree.MaterializeEntry | app/bundles/CampaignBundle/Model/CampaignModel.php:223-238 | an entry adds a new entity exactly when it reuses none, registers its key exactly when it has a non-reserved key, changes no other entity, and keeps the collection pointing into the entities and the working array in step with its key order |
| EventTree.Materialize | app/bundles/CampaignBundle/Model/CampaignModel.php:222-239 | the session loop only adds entities and keeps the working array in step with its key order |
| EventTree.OrderAndParent | app/bundles/CampaignBundle/Model/CampaignModel.php:244-296 | one closure call keeps the campaign well formed and never adds or drops an entity |
| EventTree.RunCalls | app/bundles/CampaignBundle/Model/CampaignModel.php:298-319 | a run of closure calls keeps the campaign well formed |
| EventTree.OrderedCalls | app/bundles/CampaignBundle/Model/CampaignModel.php:301-307 | every call from the reorder map names a child in the working array and a parent key |
| EventTree.Schedule | app/bundles/CampaignBundle/Model/CampaignModel.php:298-319 | every scheduled call names an event of the working array |
| EventTree.Rebuild | app/bundles/CampaignBundle/Model/CampaignModel.php:211-320 | setEvents keeps the campaign's collection well formed |
| EventTreeLemmas.AfterDeletionsExact | app/bundles/CampaignBundle/Model/CampaignModel.php:213-219 | a key survives the deletion loop exactly when no deleted id present in the collection names the same entity |
| EventTreeLemmas.DeletedIdsRemoved | app/bundles/CampaignBundle/Model/CampaignModel.php:215-218 | every deleted id is gone afterwards; an id that is not a key changes nothing |
| EventTreeLemmas.AssignedSnoc | app/bundles/CampaignBundle/Model/CampaignModel.php:227-234 | one more property pair adds its setter's value exactly when the key is settable and not reserved |
| EventTreeLemmas.ApplyPropertiesEffect | app/bundles/CampaignBundle/Model/CampaignModel.php:227-238 | the loop sets exactly the non-reserved keys that have a setter, attaches the campaign exactly when some key is not reserved, and never sets `id`, `order` or `parent` as spelled in lowercase (see Left out) |
| EventTreeLemmas.MaterializeEntryEffect | app/bundles/CampaignBundle/Model/CampaignModel.php:223-238 | an entry reuses the existing entity exactly when its id is non-empty and a key of the collection, otherwise creates one; it is registered exactly when it has a non-reserved key |
| EventTreeLemmas.RegisteredKeysSnoc | app/bundles/CampaignBundle/Model/CampaignModel.php:237 | one more entry adds its key exactly when it has a non-reserved key |
| EventTreeLemmas.MaterializeRegisters | app/bundles/CampaignBundle/Model/CampaignModel.php:222-239 | the working array's keys are exactly the entries with a non-reserved key |
| EventTreeLemmas.MaterializeKeys | app/bundles/CampaignBundle/Model/CampaignModel.php:222-239 | with distinct keys, the working array lists those entries in session order, each once |
| EventTreeLemmas.ReachesDeletedShift | app/bundles/CampaignBundle/Model/CampaignModel.php:257-268 | a deleted ancestor m+1 steps up is one m steps up from the next ancestor |
| EventTreeLemmas.WalkMeetsDeleted | app/bundles/CampaignBundle/Model/CampaignModel.php:254-269 | the ancestor walk stops on a deleted id exactly when some ancestor in reach has one and every ancestor before it is in the working array |
| EventTreeLemmas.WalkCycleChain | app/bundles/CampaignBundle/Model/CampaignModel.php:257-269 | the walk runs out of fuel exactly when it goes on from each of its first `fuel` states |
| EventTreeLemmas.CycleNeverEnds | app/bundles/CampaignBundle/Model/CampaignModel.php:257-269 | a walk that exhausts a fuel of the heap's size runs out of any fuel: the PHP loop never ends |
| EventTree.Walk | app/bundles/CampaignBundle/Model/CampaignModel.php:254-269 | the ancestor walk ends at the top from no parent, on a deleted id as soon as one is met, or at a key that is neither in the working array nor deleted (the call on null) |
| EventTree.Counters | app/bundles/CampaignBundle/Model/CampaignModel.php:245-283 | the counter array gains the event and parent keys; the parent's counter starts at 1 and grows by 1 for a root or 0.01 for a child; the event's counter starts at the parent's; no other counter changes |
| EventTree.PlacedOrder | app/bundles/CampaignBundle/Model/CampaignModel.php:243-285 | with `$orders` captured by value, a root gets order 2 and any child 1.01, whatever was placed before |
| EventTree.Place | app/bundles/CampaignBundle/Model/CampaignModel.php:285-293 | placing sets the order, removes the parent of a root, sets the parent when the parent key is in the working array and keeps it otherwise; id, properties and campaign stay |
| EventTree.ParentKey | app/bundles/CampaignBundle/Model/CampaignModel.php:314-315 | the no-reorder parent key is "null" without a parent, else the parent's id (the empty key for an unsaved parent) |
| EventTreeLemmas.OrderAndParentEffect | app/bundles/CampaignBundle/Model/CampaignModel.php:244-296 | an event is pruned exactly when an ancestor's id is deleted. Otherwise it gets its order, its parent is set, left or removed as the parent key says, and it is added under its key; nothing else changes |
| EventTreeLemmas.OrderedCallsExact | app/bundles/CampaignBundle/Model/CampaignModel.php:301-307 | the reorder branch calls the closure for exactly the map's entries whose child is in the working array, in order |
| EventTreeLemmas.OrderedCallsAppend | app/bundles/CampaignBundle/Model/CampaignModel.php:301-307 | filtering the reorder map distributes over concatenation |
| EventTreeLemmas.RunCallsStops | app/bundles/CampaignBundle/Model/CampaignModel.php:298-319 | after a fatal error or an endless walk no later call runs |
| EventTreeLemmas.NoReorderSchedule | app/bundles/CampaignBundle/Model/CampaignModel.php:309-318 | without a reorder map, every event of the working array is the child of exactly one call, in the array's order, and each call reads the parent from the entity |
| EventTreeLemmas.MaterializeRefs | app/bundles/CampaignBundle/Model/CampaignModel.php:222-239 | every entity in the working array is an existing one or a new one |
| EventTreeLemmas.OrderAndParentRefs | app/bundles/CampaignBundle/Model/CampaignModel.php:273-295 | a closure call only puts back an entity of the working array |
| EventTreeLemmas.RunCallsRefs | app/bundles/CampaignBundle/Model/CampaignModel.php:298-319 | the calls only add entities of the working array to the collection |
| EventTreeLemmas.ExistingAvoidsDeleted | app/bundles/CampaignBundle/Model/CampaignModel.php:213-219 | no entity left after the deletion loop is one a deleted id named |
| EventTreeLemmas.RebuildNeverRestores | app/bundles/CampaignBundle/Model/CampaignModel.php:211-320 | after setEvents no key holds an entity that a deleted id named |
| EventTreeScenarios.DiffMaterialized | app/bundles/CampaignBundle/Model/CampaignModel.php:222-239 | the diff keeps E1 and creates one Event for the new entry |
| EventTreeScenarios.ScenarioReorder | app/bundles/CampaignBundle/Model/CampaignModel.php:211-320 | with a reorder map, E1 stays a root ordered 2 and the new Event becomes E1's child ordered 1.01 |
| EventTreeScenarios.ScenarioOrphan | app/bundles/CampaignBundle/Model/CampaignModel.php:211-320 | deleting E1 prunes its child E2 from the collection |
| EventTreeScenarios.ScenarioMissingParent | app/bundles/CampaignBundle/Model/CampaignModel.php:254-269 | a child whose parent is not in the diff makes the walk look up a missing key: fatal error, nothing placed |
| EventTreeBuild.Campaign.constructor | app/bundles/CampaignBundle/Model/CampaignModel.php:211-213 | a campaign object holds exactly the given collection |
| EventTreeBuild.Campaign.RemoveEvent | app/bundles/CampaignBundle/Model/CampaignModel.php:217 | removeEvent drops the entity from the collection and changes no entity |
| EventTreeBuild.Campaign.AddEvent | app/bundles/CampaignBundle/Model/CampaignModel.php:295 | addEvent puts the entity under the key |
| EventTreeBuild.Campaign.NewEvent | app/bundles/CampaignBundle/Model/CampaignModel.php:225 | `new Event()` is a fresh entity in no collection |
| EventTreeBuild.Campaign.SetProperty | app/bundles/CampaignBundle/Model/CampaignModel.php:231-234 | a setter changes one property of one entity |
| EventTreeBuild.Campaign.SetCampaign | app/bundles/CampaignBundle/Model/CampaignModel.php:235 | setCampaign attaches one entity |
| EventTreeBuild.Campaign.SetOrder | app/bundles/CampaignBundle/Model/CampaignModel.php:285 | setOrder changes one entity's order |
| EventTreeBuild.Campaign.SetParent | app/bundles/CampaignBundle/Model/CampaignModel.php:289 | setParent changes one entity's parent |
| EventTreeBuild.Campaign.RemoveParent | app/bundles/CampaignBundle/Model/CampaignModel.php:292 | removeParent clears one entity's parent |
| EventTreeBuild.DeleteEvents | app/bundles/CampaignBundle/Model/CampaignModel.php:213-219 | the deletion loop leaves the collection `AfterDeletions` describes |
| EventTreeBuild.ApplyEntry | app/bundles/CampaignBundle/Model/CampaignModel.php:227-238 | the property loop sets what `ApplyProperties` says and registers the entity as the session loop does |
| EventTreeBuild.MaterializeSession | app/bundles/CampaignBundle/Model/CampaignModel.php:222-239 | the session loop builds the working array `Materialize` describes |
| EventTreeBuild.AncestorWalk | app/bundles/CampaignBundle/Model/CampaignModel.php:254-269 | the while loop ends as `Walk` says: at the top, at a deleted id, at a missing key, or in a cycle |
| EventTreeBuild.SetOrderAndParent | app/bundles/CampaignBundle/Model/CampaignModel.php:244-296 | the closure changes the campaign as `OrderAndParent` describes |
| EventTreeBuild.RunReordered | app/bundles/CampaignBundle/Model/CampaignModel.php:298-308 | the reorder branch runs the calls `OrderedCalls` lists |
| EventTreeBuild.PlaceUnderCurrentParent | app/bundles/CampaignBundle/Model/CampaignModel.php:313-317 | one entry of the plain branch, placed under its entity's current parent, changes the campaign as the next call of `RunCalls` does |
| EventTreeLemmas.RunCallsPlainStep | app/bundles/CampaignBundle/Model/CampaignModel.php:313-317 | after calls that all completed, one more plain call is one closure call under the entity's current parent key |
| EventTreeLemmas.RunCallsPrefixFinal | app/bundles/CampaignBundle/Model/CampaignModel.php:309-319 | a loop that made every call, or stopped at a fatal error or an endless walk, ends as the whole sequence of calls does |
| EventTreeBuild.RunInOrder | app/bundles/CampaignBundle/Model/CampaignModel.php:309-318 | the plain branch places each working event under its current parent |
| EventTreeBuild.SetEvents | app/bundles/CampaignBundle/Model/CampaignModel.php:211-320 | setEvents changes the campaign exactly as `Rebuild` describes, so every EventTreeLemmas property holds of it |
| Trigger.LeadOf | app/bundles/CampaignBundle/Model/CampaignModel.php:355-358 | a null lead is replaced by the current lead; a given lead is kept |
| Trigger.Args | app/bundles/CampaignBundle/Model/CampaignModel.php:377-390 | exactly `event`, `lead` and `factory` are set, none of them null, with the lead given and the event's and campaign's ids |
| Trigger.TriggerEvent | app/bundles/CampaignBundle/Model/CampaignModel.php:348-416 | a session that is not anonymous is skipped; a logged pair is skipped when checked; nothing gets past the registry without a callable handler for the campaign's type; a fired handler gets one argument per parameter |
| Trigger.TriggerEventAsWritten | app/bundles/CampaignBundle/Model/CampaignModel.php:372 | with `$availableEvents` never assigned, every call returns false |
| Trigger.TriggerEventHintedAsWritten | app/bundles/CampaignBundle/Model/CampaignModel.php:348 | with the type hint as written, an `Event` entity is rejected before the body runs |
| Trigger.HintRejectsCallers | app/bundles/CampaignBundle/Model/CampaignModel.php:348 | even where the body would return false at its first gate, an `Event` entity fails the hint |
| Trigger.Applied | app/bundles/CampaignBundle/Model/CampaignModel.php:362-365 | an event is applied to a lead exactly when the log holds the pair |
| Trigger.Marshalled | app/bundles/CampaignBundle/Model/CampaignModel.php:402-409 | one argument per parameter, in order: the argument of that name, or null |
| Trigger.Marshal | app/bundles/CampaignBundle/Model/CampaignModel.php:402-409 | the marshalling loop builds `Marshalled` |
| Trigger.HandlerOf | app/bundles/CampaignBundle/Model/CampaignModel.php:392-400 | an array callback names its class and method; a string names a method exactly when it contains `::` |
| Trigger.TriggerGates | app/bundles/CampaignBundle/Model/CampaignModel.php:348-416 | the gates in order; a trigger fires exactly when it passes all and the callback names a method, and faults exactly when a callable plain function name is met |
| Trigger.LoggedNotFiredAgain | app/bundles/CampaignBundle/Model/CampaignModel.php:360-367 | a checked trigger skips an event already logged for the lead |
| Trigger.UncheckedIgnoresLog | app/bundles/CampaignBundle/Model/CampaignModel.php:360 | an unchecked trigger does not depend on the log |
| Trigger.FiredArguments | app/bundles/CampaignBundle/Model/CampaignModel.php:377-409 | a fired handler gets the event summary, the lead (the current one when none was given), the factory, or null, by parameter name |
| Trigger.StaticStringNamesSameMethod | app/bundles/CampaignBundle/Model/CampaignModel.php:393-397 | `Class::method` names the same method as `[Class, method]` |
| Trigger.AsWrittenNeverFires | app/bundles/CampaignBundle/Model/CampaignModel.php:372 | as written, no trigger ever fires: past the first two gates every call stops at the registry lookup |
| Runners.Attempt | app/bundles/CampaignBundle/Model/CampaignModel.php:446-455 | a fired trigger adds one log row and queues the event; a fault ends the run; a skip changes nothing |
| Runners.LeadBatch | app/bundles/CampaignBundle/Model/CampaignModel.php:438-456 | one log row per queued event, all for the lead, and only events not already logged for it |
| Runners.LeadBatchStops | app/bundles/CampaignBundle/Model/CampaignModel.php:438-456 | once a trigger faults, no later event is tried |
| Runners.TriggerEvents | app/bundles/CampaignBundle/Model/CampaignModel.php:423-460 | the loop gathers what `LeadBatch` says and saves exactly when it completed with something queued |
| Runners.RerunFiresNothing | app/bundles/CampaignBundle/Model/CampaignModel.php:438-456 | once a completed run's pairs are in the log, a second run fires nothing |
| Runners.SecondRunFiresNothing | app/bundles/CampaignBundle/Model/CampaignModel.php:423-460 | after writing a completed run's rows to the log, triggerEvents for the same lead fires nothing |
| Runners.FirstFaultSavesNothing | app/bundles/CampaignBundle/Model/CampaignModel.php:438-459 | a first attempted trigger that throws leaves nothing queued, so `saveEntities` is never reached |
| Runners.AppliedNeverRefired | app/bundles/CampaignBundle/Model/CampaignModel.php:441-448 | no row pairs the lead with an event already logged for it |
| Runners.LeadFilter | app/bundles/CampaignBundle/Model/CampaignModel.php:94-116 | the date and campaigns conditions come first; a third, the only `notIn`, appears exactly for an update with logged leads |
| Runners.LeadFilterExclusion | app/bundles/CampaignBundle/Model/CampaignModel.php:94-116 | the filter has the date and campaigns conditions; the `notIn` exclusion appears exactly for an update with logged leads and lists exactly those leads |
| Runners.LeadsBatch | app/bundles/CampaignBundle/Model/CampaignModel.php:124-135 | one log row per queued event, and a faulted run stays as it is |
| Runners.EventsBatch | app/bundles/CampaignBundle/Model/CampaignModel.php:92-136 | one log row per queued event |
| Runners.Backfill | app/bundles/CampaignBundle/Model/CampaignModel.php:86-142 | nothing happens unless the campaign triggers existing leads and is published |
| Runners.LeadsBatchStops | app/bundles/CampaignBundle/Model/CampaignModel.php:124-135 | once a trigger faults, no later lead is tried |
| Runners.EventsBatchStops | app/bundles/CampaignBundle/Model/CampaignModel.php:92-136 | once a trigger faults, no later event is tried |
| Runners.FireForLeads | app/bundles/CampaignBundle/Model/CampaignModel.php:124-135 | the lead loop gathers what `LeadsBatch` says |
| Runners.BackfillEvent | app/bundles/CampaignBundle/Model/CampaignModel.php:94-139 | one pass of the event loop adds that event's lead batch to what `EventsBatch` says of the earlier events; a fault makes the whole backfill end as `EventsBatch` says |
| Runners.BackfillExistingLeads | app/bundles/CampaignBundle/Model/CampaignModel.php:79-143 | the nested loops gather what `Backfill` says and save exactly when they completed with something queued |
| Runners.LeadsBatchNoRepeat | app/bundles/CampaignBundle/Model/CampaignModel.php:124-135 | leads outside the logged list add no repeated pair |
| Runners.EventsBatchNoRepeat | app/bundles/CampaignBundle/Model/CampaignModel.php:92-136 | with the exclusion honoured, no event is logged again for a lead that had it |
| Runners.BackfillSkipsLoggedLeads | app/bundles/CampaignBundle/Model/CampaignModel.php:79-143 | updating a campaign never logs an event again for a lead that already had it, when the lead query honours `notIn` |
| Runners.SilentEnvironments | app/bundles/CampaignBundle/Model/CampaignModel.php:351-374 | a session that is not anonymous fires nothing, and neither does any session with line 372 as written (type hint of line 348 set aside; see Findings) |
| Runners.SilentLeadBatch | app/bundles/CampaignBundle/Model/CampaignModel.php:438-456 | where nothing fires, triggerEvents gathers nothing |
| Runners.SilentLeadsBatch | app/bundles/CampaignBundle/Model/CampaignModel.php:124-135 | where nothing fires, the lead loop adds nothing |
| Runners.SilentEventsBatch | app/bundles/CampaignBundle/Model/CampaignModel.php:92-136 | where nothing fires, the event loop gathers nothing |
| Runners.SilentRunsLogNothing | app/bundles/CampaignBundle/Model/CampaignModel.php:79-143 | where nothing fires, neither triggerEvents nor the backfill logs, queues or saves anything |
| Dispatch.NameOf | app/bundles/CampaignBundle/Model/CampaignModel.php:177-191 | exactly the four actions have an event name |
| Dispatch.NameActionRoundTrip | app/bundles/CampaignBundle/Model/CampaignModel.php:177-191 | action and event name determine each other |
| Dispatch.DispatchEvent | app/bundles/CampaignBundle/Model/CampaignModel.php:171-204 | refused exactly for a non-Campaign; dispatched exactly for a known action with listeners, with the supplied event or, when that is empty, a new one for the campaign and `$isNew` |
| Dispatch.CreateForm | app/bundles/CampaignBundle/Model/CampaignModel.php:64-71 | refused exactly for a non-Campaign; otherwise a `campaign` form whose options hold `action` exactly when the action is not empty |

## Findings

| source | as written | input that shows it | evidently intended | confidence | as-written member | corrected member |
|---|---|---|---|---|---|---|
| app/bundles/CampaignBundle/Model/CampaignModel.php:372 | `$availableEvents` is never assigned in `triggerEvent`, so `isset` is always false and the method returns false | any anonymous session, any event of a campaign whose type has a registered handler | look the campaign's type up in the registry of available events and fire its handler | high, not executed | Trigger.AsWrittenNeverFires | Trigger.TriggerGates |
| app/bundles/CampaignBundle/Model/CampaignModel.php:348 | the type hint `CampaignEvent` is not imported by the `use` list (lines 12-19), so it names `CampaignEvent` in the model's own namespace; lines 127 and 444 pass `Event` entities | `triggerEvents` for any lead with a published event, or a backfill that finds any lead | hint the `Event` entity the `use` list imports | medium, not executed | Trigger.HintRejectsCallers | Trigger.TriggerGates |

`Trigger.TriggerEventAsWritten` is `triggerEvent` with an empty registry, which is what line 372
reads. `Trigger.TriggerEventHintedAsWritten` adds the type check of line 348, which rejects the
`Event` entities both callers pass: `Trigger.HintRejectsCallers` shows that such a call is a
fatal error even where the body would return false at its first gate. `Runners.FirstFaultSavesNothing`
shows that a run whose first attempted trigger is a fatal error queues, logs and saves nothing.
The runners themselves are modelled over the body, `Trigger.TriggerEvent`, which takes the
registry as an input and accepts the entities; the rest of the model uses it.

## Left out

- Persistence: `parent::saveEntity`, `em->persist`, `saveEntities` and the repositories'
  queries are inputs or flags. `getLeadsForEvent` and the lead query are function parameters.
- The event dispatcher and the form factory: the model says what they are asked for.
  `hasListeners` is a parameter.
- Trigger.TriggerEvent: every invocation of a handler (`invokeArgs`, line 410) is modelled as
  returning. In PHP an exception from the handler's body, or `invokeArgs($this, ...)` on a
  non-static method of another class, aborts the run; the model reports such a call as `Fired`,
  and the runners log it and queue the event. Handler bodies are not part of this model. Neither is `CampaignEvents`, whose four names are
  an enumeration here.
- Reflection: `is_callable` and the parameter names are given with each registry entry.
- The clock and the client IP are opaque numbers. Every row of one run gets the same firing
  time, where PHP reads the clock per row.
- `getEvents` (lines 326-338) is not modelled: it dispatches `CAMPAIGN_ON_BUILD` to collect
  the available campaign events and caches them in a `static`; nothing in the core reads it.
  `getEntity` (lines 151-160) returns a new Campaign for a null id and otherwise the one the
  repository loads.
- Concurrency: two requests saving the same campaign are not modelled.
- Floating point: orders are integers in hundredths. No order in the model needs rounding.
  `floor` at line 280 discards its result.
- EventTree.WithoutRef: `removeEvent` removes the entity under every key that holds it. The
  collection's `removeElement` removes only the first such key. Within setEvents the two agree
  unless two keys hold one entity.
- PHP loose comparisons: `in_array` on ids, `$parentId == 'null'` and integer-like keys are
  modelled as string equality on decimal keys. Before PHP 8, `in_array` at line 228 also makes
  an integer property key `0` equal to `'id'`, so that key counts as reserved; the model keeps
  property names as strings and does not. Dispatch.NameOf takes the action as a string: a
  non-string action such as `0` matched `"pre_save"` in the `switch` at line 177 before PHP 8,
  and the model does not capture that.
- EventTree.ApplyProperties: the reserved check at line 228 is case-sensitive, while the setter
  lookup at lines 231-233 ignores case. A key such as `Order` or `PARENT` therefore calls
  `setOrder` or `setParent` with the submitted value (a type error for a `setParent` argument
  that is not an Event). The model stores such a key as a plain property, so its promise that
  id, order and parent stay unchanged holds only for keys spelled as the reserved list spells them.
- EventTreeLemmas.ApplyPropertiesEffect: the same restriction; its clause that `id`, `order` and
  `parent` are never set holds for lowercase keys only.
- `Other` values: arrays and objects submitted as properties are opaque tokens.
- EventTree.Walk: the walk's fuel is the number of entities. Running out is the outcome `Hangs`, and
  `EventTreeLemmas.CycleNeverEnds` proves that the PHP loop never ends then.
- The `Campaign` type hint of `setEvents` is taken as given. The `CampaignEvent` hint of
  `triggerEvent` rejects what lines 127 and 444 pass (Findings); `Trigger.TriggerEvent` models
  the body as if the hint accepted the `Event` entity.
- Fault handling: a fault ends the run. PHP throws and does not catch, so `triggerEvents` and
  the backfill abort and `saveEntities` is never reached.

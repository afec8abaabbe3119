# Event back office: service model

This project models the event service of a small event-management back
office (`EventServicesImpl`). The service does four things:

- It registers participants.
- It associates an event with one stored participant, or with every
  participant embedded in the event.
- It attaches logistics items to an event found by its description, and
  lists the reserved logistics of the events in a date range.
- On a timer, it recomputes the cost of the events an organiser filter
  selects. The cost is the sum of `prixUnit * quantite` over the event's
  reserved logistics.

The three Spring Data repositories become in-memory stores keyed by id. One
`EventServices` object holds them, together with `writes`, the sequence of
`save` calls made so far. With `writes`, a contract can say "saved exactly
once", "the event, then the item" and "nothing saved on failure".

A participant store entry stands for the object the repository hands out.
Changing its event set in place is visible in the store. `writes` shows that
only the event is saved, as in the source.

Java nulls are `Option`s. `Objects.requireNonNull` failures are
`NullPointer` errors. The `IllegalArgumentException`s are
`ParticipantNotFound`, `EventWithoutParticipants` and `EventNotFound`.

A Java `Set` of events held by a participant is a `set` of event ids. A
`Set` that the service iterates is a `seq`: the event's embedded
participants and its logistics set. The `seq` lists the set in its
unspecified iteration order. Logistics items are identified by `idLog`, so
adding an item whose id is already present changes nothing.

The date-range query and the organiser query are inputs: the list of event
ids the repository returns. `RangeQuery` states what an answer of the
inclusive date-range query is.

Modules:

- `Entities`: the values.
- `Cost`: the cost expression and its laws.
- `Association`: adding an event to participants' event sets.
- `Ledger`: logistics sets and the range listing.
- `Services`: the service class.

Two things the code does that a reader might not expect:

- An event whose participant set is empty, not null, is accepted. No
  lookups happen and the event is saved. Only a null set is refused.
- A missing participant or event raises `IllegalArgumentException`, and so
  does a null participant set. A null argument, including a null date,
  raises `NullPointerException` through `Objects.requireNonNull`.

## Model

| member | source | states |
|---|---|---|
| `Cost.Reserved` | src/main/java/tn/esprit/eventsproject/services/EventServicesImpl.java:111 | the filter keeps exactly the items of the set that are reserved, and no more items than the set has |
| `Cost.WithCost` | src/main/java/tn/esprit/eventsproject/services/EventServicesImpl.java:108-115 | the event's new cost is the cost of its reserved logistics, with 0 for a null set; nothing else about the event changes |
| `Cost.ReservedAppend` | src/main/java/tn/esprit/eventsproject/services/EventServicesImpl.java:111 | filtering a concatenation is concatenating the filtered parts |
| `Cost.ReservedIdempotent` | src/main/java/tn/esprit/eventsproject/services/EventServicesImpl.java:111 | filtering the reserved items again changes nothing |
| `Cost.ReservedSingle` | src/main/java/tn/esprit/eventsproject/services/EventServicesImpl.java:111 | a one-item set filters to that item when it is reserved, and to nothing otherwise |
| `Cost.TotalAppend` | src/main/java/tn/esprit/eventsproject/services/EventServicesImpl.java:112-113 | the sum from 0 of line costs splits over a concatenation |
| `Cost.ReservedCostAppend` | src/main/java/tn/esprit/eventsproject/services/EventServicesImpl.java:108-113 | the cost of a concatenation is the sum of the parts' costs |
| `Cost.ReservedCostSingle` | src/main/java/tn/esprit/eventsproject/services/EventServicesImpl.java:108-113 | one item costs `prixUnit * quantite` when reserved and 0 otherwise |
| `Cost.ReservedCostOfReserved` | src/main/java/tn/esprit/eventsproject/services/EventServicesImpl.java:111-113 | non-reserved items contribute nothing: costing only the reserved items gives the same cost |
| `Cost.ReservedCostPermutation` | src/main/java/tn/esprit/eventsproject/services/EventServicesImpl.java:108-113 | any two listings of the same items have the same cost, so the set's iteration order does not matter |
| `Cost.WithCostIdempotent` | src/main/java/tn/esprit/eventsproject/services/EventServicesImpl.java:108-115 | the new cost does not depend on the previous cost, and recomputing gives the same event again |
| `Cost.ReservedOnlyExample` | src/main/java/tn/esprit/eventsproject/services/EventServicesImpl.java:108-113 | one reserved item at 100 x 2 costs exactly 200, as the unit test expects; a non-reserved item at 1000 x 5 beside it is excluded, so the cost stays 200 |
| `Cost.LineCost` | src/main/java/tn/esprit/eventsproject/services/EventServicesImpl.java:112 | a line with zero quantity or zero unit price costs 0; a line with non-negative price and quantity has a non-negative cost |
| `Cost.Total` | src/main/java/tn/esprit/eventsproject/services/EventServicesImpl.java:113 | the sum starts from 0, so an empty listing sums to 0; lines with non-negative costs give a non-negative sum |
| `Cost.ReservedCost` | src/main/java/tn/esprit/eventsproject/services/EventServicesImpl.java:110-113 | a set with no reserved item costs 0; reserved lines with non-negative costs give a non-negative cost |
| `Cost.EventCost` | src/main/java/tn/esprit/eventsproject/services/EventServicesImpl.java:108-113 | a null logistics set, read as the empty set, costs 0, and so does an empty one |
| `Association.EnrolAll` | src/main/java/tn/esprit/eventsproject/services/EventServicesImpl.java:53-60 | the store keeps its ids; every stored participant listed in the event gets the event added to its event set (created if null) and keeps every other field; every other participant is unchanged |
| `Services.Recosted` | src/main/java/tn/esprit/eventsproject/services/EventServicesImpl.java:106-116 | the store keeps its ids; each selected event's cost becomes the cost of its reserved logistics and nothing else about it changes; every other event is unchanged |
| `Services.CostSaves` | src/main/java/tn/esprit/eventsproject/services/EventServicesImpl.java:116 | one event save per listed event, in list order, each of that event with only its cost replaced by the cost of its reserved logistics |
| `Association.Enrol` | src/main/java/tn/esprit/eventsproject/services/EventServicesImpl.java:40-41 | the participant's event set is non-null afterwards and is the old set, or the empty set if it was null, plus the event; nothing else about the participant changes |
| `Association.EnrolPresent` | src/main/java/tn/esprit/eventsproject/services/EventServicesImpl.java:41 | adding an event that the non-null set already holds leaves the participant unchanged |
| `Association.EnrolIdempotent` | src/main/java/tn/esprit/eventsproject/services/EventServicesImpl.java:40-41 | associating the same event twice is associating it once |
| `Association.EnrolAllSymmetric` | src/main/java/tn/esprit/eventsproject/services/EventServicesImpl.java:53-60 | afterwards a stored participant holds the event exactly when the event embeds it or it held the event already; its other event ids are exactly the ones it had |
| `Association.EnrolAllStep` | src/main/java/tn/esprit/eventsproject/services/EventServicesImpl.java:54-59 | handling one more embedded participant is associating that stored participant with the event, even when its id was already handled |
| `Association.EnrolAllPartial` | src/main/java/tn/esprit/eventsproject/services/EventServicesImpl.java:53-56 | stopping after a prefix of the embedded ids leaves only embedded participants associated and every other participant unchanged |
| `Association.EnrolAllIdempotent` | src/main/java/tn/esprit/eventsproject/services/EventServicesImpl.java:53-60 | running the bulk association twice is running it once |
| `Ledger.AddLog` | src/main/java/tn/esprit/eventsproject/services/EventServicesImpl.java:73-74 | afterwards the set holds an item with the new item's id; the old items stay in order; the only item added is the new one, and only if its id was absent |
| `Ledger.AddLogUnique` | src/main/java/tn/esprit/eventsproject/services/EventServicesImpl.java:74 | adding an item keeps the ids in a logistics set unique |
| `Ledger.AddLogIdempotent` | src/main/java/tn/esprit/eventsproject/services/EventServicesImpl.java:74 | adding the same item twice is adding it once |
| `Ledger.WithLog` | src/main/java/tn/esprit/eventsproject/services/EventServicesImpl.java:73-75 | the event's logistics set is non-null afterwards and is the old set, or the empty set if it was null, with the item added; nothing else about the event changes |
| `Ledger.WithLogCost` | src/main/java/tn/esprit/eventsproject/services/EventServicesImpl.java:73-75 | attaching a new item raises the event's next computed cost by the item's line cost when it is reserved, and by nothing otherwise; an item already present leaves the cost unchanged |
| `Ledger.RangeReserved` | src/main/java/tn/esprit/eventsproject/services/EventServicesImpl.java:88-95 | an item is listed exactly when it is reserved and belongs to the logistics set of a returned event; a null set contributes nothing |
| `Ledger.RangeReservedByDate` | src/main/java/tn/esprit/eventsproject/services/EventServicesImpl.java:86-95 | with the range query's answer, the listed items are exactly the reserved items of the stored events whose start date lies in the inclusive range |
| `Services.RecostedIdempotent` | src/main/java/tn/esprit/eventsproject/services/EventServicesImpl.java:106-116 | a second cost run over the same events, with the logistics unchanged, leaves the store as the first run left it and saves the same events again |
| `Services.RecostedCosts` | src/main/java/tn/esprit/eventsproject/services/EventServicesImpl.java:108-115 | after a cost run, each selected event's cost equals the cost of its reserved logistics |
| `Services.AppendReserved` | src/main/java/tn/esprit/eventsproject/services/EventServicesImpl.java:90-94 | the loop appends exactly the reserved items of one event's set, in order, to the list built so far |
| `Services.EventServices.constructor` | src/main/java/tn/esprit/eventsproject/services/EventServicesImpl.java:23-25 | the service starts over the given stores, each entry under its own id, with no saves made |
| `Services.EventServices.AddParticipant` | src/main/java/tn/esprit/eventsproject/services/EventServicesImpl.java:28-31 | a null participant fails and changes nothing; otherwise the participant is saved exactly once and what the store saved is returned |
| `Services.EventServices.AddAffectEvenParticipantById` | src/main/java/tn/esprit/eventsproject/services/EventServicesImpl.java:34-44 | a null event or an unknown id fails, with nothing saved and no participant changed; otherwise the stored participant's set becomes the old set (empty if null) plus the event, and only the event is saved, exactly once |
| `Services.EventServices.AddAffectEvenParticipant` | src/main/java/tn/esprit/eventsproject/services/EventServicesImpl.java:47-63 | a null participant set fails with nothing saved or changed; the call succeeds exactly when every embedded id is stored; then every embedded participant holds the event and the event is saved once; otherwise the error names a missing embedded id, the event is not saved and only embedded participants may have gained the event |
| `Services.EventServices.AddAffectLog` | src/main/java/tn/esprit/eventsproject/services/EventServicesImpl.java:66-79 | null arguments fail; the call succeeds exactly when some stored event has the description; an event with that description gets the item in its set (created if null); the event is saved, then the item, and the item is returned; otherwise nothing changes |
| `Services.EventServices.GetLogisticsDates` | src/main/java/tn/esprit/eventsproject/services/EventServicesImpl.java:82-98 | a null start or end date fails; otherwise the result lists the reserved items of the returned events in order, and an item is in it exactly when it is reserved and belongs to a stored event whose start date lies in the range |
| `Services.EventServices.CalculCout` | src/main/java/tn/esprit/eventsproject/services/EventServicesImpl.java:102-119 | each selected event's cost becomes the sum of `prixUnit * quantite` over its reserved logistics (0 for a null or empty set); every other event is unchanged; one save per listed event, in list order; the participant and logistics stores are unchanged |

## Left out

- The `@Scheduled` trigger of `calculCout` is not modelled. Neither are runs that overlap each other or overlap requests: that is concurrency.
- The repositories' own implementations are left out. `save` is an upsert keyed by the entity's id. The id is taken as given: the store does not assign it.
- `findByDateDebutBetween` and the organiser query are inputs, the lists of event ids they return. The organiser's name, given name and role are not part of the model.
- `findByDescription` picks some stored event with that description. When several events share it, the model lets any of them be the one found.
- Costs use exact reals, not `float`. `Float::sum` rounding is left out, and with it the way the float result depends on the set's iteration order.
- `log.info` calls have no behaviour and are left out.
- The controller and its MockMvc tests are transport only and are left out.
- Java `equals`/`hashCode` identity is not modelled. Events and logistics items are identified by id.
- `Ledger.AddLog`: the model puts a new item last and keeps the old items in their order. A `HashSet` promises neither: the new item goes to its hash bucket, and a resize can reorder the others. So the exact order of the list that `Services.EventServices.GetLogisticsDates` returns for one event is a choice of the model. Membership and cost do not depend on it (`Ledger.RangeReserved`, `Cost.ReservedCostPermutation`).
- An event passed in must list each logistics id at most once, since a set cannot hold an item twice. `Services.EventServices.Valid` keeps this for every stored event.
- The event's own participant set is never updated by the service. The model does not add that link either.
- The Tache enumeration's other constants are not part of this model. `OtherTache` stands for all of them.
- The messages of the `IllegalArgumentException`s are not modelled. The errors carry the missing id or description instead.
- `Services.EventServices.AddAffectEvenParticipant` does not say how far the loop got before a missing id. It only says that the participants changed were embedded ones, each gaining the event. This is because the set's iteration order is unspecified.

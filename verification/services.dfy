/**
  The event service. The three repositories are in-memory stores keyed by
  id, held by one `EventServices` object together with the sequence of
  `save` calls made so far. A participant store entry stands for the object
  the participant repository hands out: changing its event set in place is
  visible in the store, while `writes` shows which entities were saved.
 */
module Services {
  import opened Entities
  import opened Association
  import opened Cost
  import opened Ledger

  /** The event store after the cost computation has run over `selected`. */
  function Recosted(events: map<int, Event>, selected: seq<int>): (r: map<int, Event>)
    ensures r.Keys == events.Keys
    ensures forall id :: id in events && id in selected ==>
      r[id].cout == EventCost(events[id].logistics) && r[id].(cout := events[id].cout) == events[id]
    ensures forall id :: id in events && id !in selected ==> r[id] == events[id]
  {
    map id | id in events :: if id in selected then WithCost(events[id]) else events[id]
  }

  /** The saves the cost computation makes over `selected`: one per listed
      event, in list order, each of the event with its new cost. */
  function CostSaves(events: map<int, Event>, selected: seq<int>): (r: seq<Write>)
    requires Stored(events, selected)
    ensures |r| == |selected|
    ensures forall i :: 0 <= i < |selected| ==>
      && r[i].SaveEvent?
      && r[i].event.cout == EventCost(events[selected[i]].logistics)
      && r[i].event.(cout := events[selected[i]].cout) == events[selected[i]]
  {
    seq(|selected|, i requires 0 <= i < |selected| => SaveEvent(WithCost(events[selected[i]])))
  }

  /** A second cost computation over the same events, with no logistics
      changed in between, leaves the store as the first one left it and
      writes the same events again. */
  lemma RecostedIdempotent(events: map<int, Event>, selected: seq<int>)
    requires Stored(events, selected)
    ensures Stored(Recosted(events, selected), selected)
    ensures Recosted(Recosted(events, selected), selected) == Recosted(events, selected)
    ensures CostSaves(Recosted(events, selected), selected) == CostSaves(events, selected)
  {
    var once := Recosted(events, selected);
    forall id | id in events && id in selected
      ensures WithCost(once[id]) == once[id]
    {
      WithCostIdempotent(events[id], events[id].cout);
    }
  }

  /** After the cost computation every selected event's cost is the cost of
      its reserved logistics. */
  lemma RecostedCosts(events: map<int, Event>, selected: seq<int>)
    requires Stored(events, selected)
    ensures forall i :: 0 <= i < |selected| ==>
      var e := Recosted(events, selected)[selected[i]];
      e.cout == EventCost(e.logistics)
  {
    forall i | 0 <= i < |selected|
      ensures Recosted(events, selected)[selected[i]] == WithCost(events[selected[i]])
    {
      assert selected[i] in selected;
    }
  }

  /** Appends the reserved items of `items` to `acc`, in order: the
      `filter(Logistics::isReserve).forEach(logisticsList::add)` step. */
  method AppendReserved(acc: seq<Logistics>, items: seq<Logistics>) returns (r: seq<Logistics>)
    ensures r == acc + Reserved(items)
  {
    r := acc;
    var j := 0;
    while j < |items|
      invariant 0 <= j <= |items|
      invariant r == acc + Reserved(items[..j])
    {
      assert items[..j + 1] == items[..j] + [items[j]];
      ReservedAppend(items[..j], [items[j]]);
      ReservedSingle(items[j]);
      if items[j].reserve {
        r := r + [items[j]];
      }
      j := j + 1;
    }
    assert items[..j] == items;
  }

  class EventServices {
    var participants: map<int, Participant>
    var events: map<int, Event>
    var logistics: map<int, Logistics>
    var writes: seq<Write>

    /** Every store entry sits under its own id, and every stored event's
        logistics listing holds each id at most once, as a set does. */
    ghost predicate Valid()
      reads this
    {
      && (forall id :: id in participants ==> participants[id].idPart == id)
      && (forall id :: id in events ==> events[id].idEvent == id && UniqueIds(LogisticsOf(events[id])))
      && (forall id :: id in logistics ==> logistics[id].idLog == id)
    }

    constructor (participants0: map<int, Participant>, events0: map<int, Event>,
                 logistics0: map<int, Logistics>)
      requires forall id :: id in participants0 ==> participants0[id].idPart == id
      requires forall id :: id in events0 ==> events0[id].idEvent == id && UniqueIds(LogisticsOf(events0[id]))
      requires forall id :: id in logistics0 ==> logistics0[id].idLog == id
      ensures Valid()
      ensures participants == participants0 && events == events0 && logistics == logistics0
      ensures writes == []
    {
      participants := participants0;
      events := events0;
      logistics := logistics0;
      writes := [];
    }

    /** `addParticipant`: a null participant is refused; otherwise the
        participant is saved once and what the store saved is returned. */
    method AddParticipant(participant: Option<Participant>) returns (r: Result<Participant>)
      requires Valid()
      modifies this
      ensures Valid()
      ensures participant.None? ==> r == Err(NullPointer(ParticipantNull)) && unchanged(this)
      ensures participant.Some? ==>
        && r == Ok(participant.value)
        && participants == old(participants)[participant.value.idPart := participant.value]
        && participants[participant.value.idPart] == r.value
        && writes == old(writes) + [SaveParticipant(participant.value)]
        && events == old(events) && logistics == old(logistics)
    {
      if participant.None? {
        return Err(NullPointer(ParticipantNull));
      }
      var p := participant.value;
      participants := participants[p.idPart := p];
      writes := writes + [SaveParticipant(p)];
      r := Ok(p);
    }

    /** `addAffectEvenParticipant(event, idParticipant)`: an unknown id fails
        with nothing changed and nothing saved; otherwise the stored
        participant's event set (created if null) gains the event and the
        event, not the participant, is saved once. */
    method AddAffectEvenParticipantById(event: Option<Event>, idParticipant: int) returns (r: Result<Event>)
      requires Valid()
      requires event.Some? ==> UniqueIds(LogisticsOf(event.value))
      modifies this
      ensures Valid()
      ensures event.None? ==> r == Err(NullPointer(EventNull)) && unchanged(this)
      ensures event.Some? && idParticipant !in old(participants) ==>
        r == Err(ParticipantNotFound(idParticipant)) && unchanged(this)
      ensures event.Some? && idParticipant in old(participants) ==>
        && r == Ok(event.value)
        && participants == old(participants)[idParticipant := Enrol(old(participants)[idParticipant], event.value.idEvent)]
        && EventsOf(participants[idParticipant]) == EventsOf(old(participants)[idParticipant]) + {event.value.idEvent}
        && events == old(events)[event.value.idEvent := event.value]
        && writes == old(writes) + [SaveEvent(event.value)]
        && logistics == old(logistics)
    {
      if event.None? {
        return Err(NullPointer(EventNull));
      }
      var e := event.value;
      if idParticipant !in participants {
        return Err(ParticipantNotFound(idParticipant));
      }
      var p := participants[idParticipant];
      participants := participants[idParticipant := Enrol(p, e.idEvent)];
      events := events[e.idEvent := e];
      writes := writes + [SaveEvent(e)];
      r := Ok(e);
    }

    /** `addAffectEvenParticipant(event)`: a null participant set is refused
        before any lookup. Otherwise the embedded participants are handled
        one by one in the set's iteration order; the first id missing from the
        store aborts the call, leaving the participants handled so far
        associated and the event unsaved. When every id is stored, each of
        those participants holds the event and the event is saved once. */
    method AddAffectEvenParticipant(event: Option<Event>) returns (r: Result<Event>)
      requires Valid()
      requires event.Some? ==> UniqueIds(LogisticsOf(event.value))
      modifies this
      ensures Valid()
      ensures event.None? ==> r == Err(NullPointer(EventNull)) && unchanged(this)
      ensures event.Some? && event.value.participants.None? ==>
        r == Err(EventWithoutParticipants) && unchanged(this)
      ensures event.Some? && event.value.participants.Some? ==>
        (r.Ok? <==> forall pid :: pid in event.value.participants.value ==> pid in old(participants))
      ensures r.Ok? ==>
        && event.Some? && event.value.participants.Some? && r.value == event.value
        && participants == EnrolAll(old(participants), event.value.participants.value, event.value.idEvent)
        && (forall pid :: pid in event.value.participants.value ==>
              pid in participants && event.value.idEvent in EventsOf(participants[pid]))
        && events == old(events)[event.value.idEvent := event.value]
        && writes == old(writes) + [SaveEvent(event.value)]
        && logistics == old(logistics)
      ensures r.Err? && event.Some? && event.value.participants.Some? ==>
        && r.error.ParticipantNotFound?
        && r.error.idPart in event.value.participants.value
        && r.error.idPart !in old(participants)
        && PartiallyEnrolled(old(participants), participants, event.value.participants.value, event.value.idEvent)
        && events == old(events) && writes == old(writes) && logistics == old(logistics)
    {
      if event.None? {
        return Err(NullPointer(EventNull));
      }
      var e := event.value;
      if e.participants.None? {
        return Err(EventWithoutParticipants);
      }
      var ids := e.participants.value;
      var i := 0;
      while i < |ids|
        invariant 0 <= i <= |ids|
        invariant forall k :: 0 <= k < i ==> ids[k] in old(participants)
        invariant participants == EnrolAll(old(participants), ids[..i], e.idEvent)
        invariant events == old(events) && writes == old(writes) && logistics == old(logistics)
      {
        var pid := ids[i];
        if pid !in participants {
          EnrolAllPartial(old(participants), ids[..i], ids, e.idEvent);
          return Err(ParticipantNotFound(pid));
        }
        EnrolAllStep(old(participants), ids[..i], pid, e.idEvent);
        participants := participants[pid := Enrol(participants[pid], e.idEvent)];
        assert ids[..i + 1] == ids[..i] + [pid];
        i := i + 1;
      }
      assert ids[..i] == ids;
      EnrolAllSymmetric(old(participants), ids, e.idEvent);
      events := events[e.idEvent := e];
      writes := writes + [SaveEvent(e)];
      r := Ok(e);
    }

    /** `addAffectLog`: the event with the given description gets the item in
        its logistics set (created if null); the event is saved, then the
        item, and the saved item is returned. No event with that description
        fails with nothing changed. When several events share the
        description, any one of them may be the one found. */
    method AddAffectLog(item: Option<Logistics>, descriptionEvent: Option<string>) returns (r: Result<Logistics>)
      requires Valid()
      modifies this
      ensures Valid()
      ensures item.None? ==> r == Err(NullPointer(LogisticsNull)) && unchanged(this)
      ensures item.Some? && descriptionEvent.None? ==> r == Err(NullPointer(DescriptionNull)) && unchanged(this)
      ensures item.Some? && descriptionEvent.Some? ==>
        (r.Ok? <==> exists id :: id in old(events) && old(events)[id].description == descriptionEvent.value)
      ensures r.Err? && item.Some? && descriptionEvent.Some? ==>
        r == Err(EventNotFound(descriptionEvent.value)) && unchanged(this)
      ensures r.Ok? ==>
        && item.Some? && descriptionEvent.Some? && r.value == item.value
        && (exists id :: && id in old(events) && old(events)[id].description == descriptionEvent.value
                         && events == old(events)[id := WithLog(old(events)[id], item.value)]
                         && writes == old(writes) + [SaveEvent(events[id]), SaveLogistics(item.value)])
        && logistics == old(logistics)[item.value.idLog := item.value]
        && participants == old(participants)
    {
      if item.None? {
        return Err(NullPointer(LogisticsNull));
      }
      if descriptionEvent.None? {
        return Err(NullPointer(DescriptionNull));
      }
      var l, d := item.value, descriptionEvent.value;
      if !exists id :: id in events && events[id].description == d {
        return Err(EventNotFound(d));
      }
      var id :| id in events && events[id].description == d;
      AddLogUnique(LogisticsOf(events[id]), l);
      var e := WithLog(events[id], l);
      events := events[e.idEvent := e];
      writes := writes + [SaveEvent(e)];
      logistics := logistics[l.idLog := l];
      writes := writes + [SaveLogistics(l)];
      r := Ok(l);
    }

    /** `getLogisticsDates`: a null date is refused; otherwise the reserved
        items of the events the date-range query returns (`found`), event
        after event, each event's items in its set's iteration order. */
    method GetLogisticsDates(dateDebut: Option<Date>, dateFin: Option<Date>, found: seq<int>)
      returns (r: Result<seq<Logistics>>)
      requires dateDebut.Some? && dateFin.Some? ==> RangeQuery(events, found, dateDebut.value, dateFin.value)
      ensures dateDebut.None? ==> r == Err(NullPointer(StartDateNull))
      ensures dateDebut.Some? && dateFin.None? ==> r == Err(NullPointer(EndDateNull))
      ensures dateDebut.Some? && dateFin.Some? ==> r == Ok(RangeReserved(events, found))
      ensures r.Ok? ==> forall x :: x in r.value <==>
        && x.reserve
        && exists id :: id in events && dateDebut.value <= events[id].dateDebut <= dateFin.value
                                     && x in LogisticsOf(events[id])
    {
      if dateDebut.None? {
        return Err(NullPointer(StartDateNull));
      }
      if dateFin.None? {
        return Err(NullPointer(EndDateNull));
      }
      var logisticsList: seq<Logistics> := [];
      var i := 0;
      while i < |found|
        invariant 0 <= i <= |found|
        invariant logisticsList == RangeReserved(events, found[..i])
      {
        var event := events[found[i]];
        if event.logistics.Some? {
          logisticsList := AppendReserved(logisticsList, event.logistics.value);
        }
        assert found[..i + 1][..i] == found[..i];
        i := i + 1;
      }
      assert found[..i] == found;
      RangeReservedByDate(events, found, dateDebut.value, dateFin.value);
      r := Ok(logisticsList);
    }

    /** `calculCout` over the events the organiser query returns
        (`selected`): each one's cost becomes the sum of `prixUnit * quantite`
        over its reserved logistics (0 for a null or empty set), and it is
        saved, in list order. */
    method CalculCout(selected: seq<int>)
      requires Valid()
      requires Stored(events, selected)
      modifies this
      ensures Valid()
      ensures events == Recosted(old(events), selected)
      ensures forall i :: 0 <= i < |selected| ==>
        selected[i] in events && events[selected[i]].cout == EventCost(events[selected[i]].logistics)
      ensures writes == old(writes) + CostSaves(old(events), selected)
      ensures participants == old(participants) && logistics == old(logistics)
    {
      var i := 0;
      while i < |selected|
        invariant 0 <= i <= |selected|
        invariant Valid()
        invariant events == Recosted(old(events), selected[..i])
        invariant writes == old(writes) + CostSaves(old(events), selected[..i])
        invariant participants == old(participants) && logistics == old(logistics)
      {
        var id := selected[i];
        var event := events[id];
        WithCostIdempotent(old(events)[id], old(events)[id].cout);
        assert WithCost(event) == WithCost(old(events)[id]);
        var updated := WithCost(event);
        events := events[id := updated];
        writes := writes + [SaveEvent(updated)];
        assert selected[..i + 1] == selected[..i] + [id];
        assert events == Recosted(old(events), selected[..i + 1]);
        assert CostSaves(old(events), selected[..i + 1]) == CostSaves(old(events), selected[..i]) + [SaveEvent(updated)];
        i := i + 1;
      }
      assert selected[..i] == selected;
      RecostedCosts(old(events), selected);
    }
  }
}

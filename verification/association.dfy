/**
  Association of an event with participants: the stored participant's event
  set, created if it was null, gains the event. Events are identified by id,
  so a participant's event set is a set of event ids.
 */
module Association {
  import opened Entities

  /** The participant after its event set has been created if null and the
      event added to it. */
  function Enrol(p: Participant, idEvent: int): (q: Participant)
    ensures q.events.Some?
    ensures EventsOf(q) == EventsOf(p) + {idEvent}
    ensures q.(events := p.events) == p
  {
    p.(events := Some(EventsOf(p) + {idEvent}))
  }

  /** Adding an event the (non-null) set already holds changes nothing. */
  lemma EnrolPresent(p: Participant, idEvent: int)
    requires p.events.Some? && idEvent in p.events.value
    ensures Enrol(p, idEvent) == p
  {
    assert p.events.value + {idEvent} == p.events.value;
  }

  /** Associating the same event twice is associating it once. */
  lemma EnrolIdempotent(p: Participant, idEvent: int)
    ensures Enrol(Enrol(p, idEvent), idEvent) == Enrol(p, idEvent)
  {
    EnrolPresent(Enrol(p, idEvent), idEvent);
  }

  /** The participant store after every stored participant whose id is
      listed in `ids` has been associated with the event. */
  function EnrolAll(ps: map<int, Participant>, ids: seq<int>, idEvent: int): (r: map<int, Participant>)
    ensures r.Keys == ps.Keys
    ensures forall pid :: pid in ps && pid in ids ==> idEvent in EventsOf(r[pid])
    ensures forall pid :: pid in ps && pid in ids ==> EventsOf(r[pid]) == EventsOf(ps[pid]) + {idEvent}
    ensures forall pid :: pid in ps && pid in ids ==> r[pid].(events := ps[pid].events) == ps[pid]
    ensures forall pid :: pid in ps && pid !in ids ==> r[pid] == ps[pid]
  {
    map pid | pid in ps :: if pid in ids then Enrol(ps[pid], idEvent) else ps[pid]
  }

  /** `after` is `before` with some of the participants in `ids` associated
      with the event and every other participant unchanged: the state left by
      a bulk association that stopped part-way. */
  ghost predicate PartiallyEnrolled(before: map<int, Participant>, after: map<int, Participant>,
                                    ids: seq<int>, idEvent: int)
  {
    && after.Keys == before.Keys
    && forall pid :: pid in before ==>
         after[pid] == before[pid] || (pid in ids && after[pid] == Enrol(before[pid], idEvent))
  }

  /** Membership symmetry: after the bulk association a stored participant
      holds the event exactly when the event lists it or it held the event
      already, and its other event ids are the ones it had. */
  lemma EnrolAllSymmetric(ps: map<int, Participant>, ids: seq<int>, idEvent: int)
    ensures forall pid :: pid in ps ==>
      (idEvent in EventsOf(EnrolAll(ps, ids, idEvent)[pid]) <==> pid in ids || idEvent in EventsOf(ps[pid]))
    ensures forall pid, other :: pid in ps && other != idEvent ==>
      (other in EventsOf(EnrolAll(ps, ids, idEvent)[pid]) <==> other in EventsOf(ps[pid]))
  {
  }

  /** Handling one more participant extends the handled ids by its id; one
      handled already stays as it was. */
  lemma EnrolAllStep(ps: map<int, Participant>, done: seq<int>, pid: int, idEvent: int)
    requires pid in ps
    ensures EnrolAll(ps, done, idEvent)[pid := Enrol(EnrolAll(ps, done, idEvent)[pid], idEvent)]
         == EnrolAll(ps, done + [pid], idEvent)
  {
    EnrolIdempotent(ps[pid], idEvent);
  }

  /** A bulk association that handled only a prefix of `ids` is a partial one. */
  lemma EnrolAllPartial(ps: map<int, Participant>, done: seq<int>, ids: seq<int>, idEvent: int)
    requires done <= ids
    ensures PartiallyEnrolled(ps, EnrolAll(ps, done, idEvent), ids, idEvent)
  {
  }

  /** Running the bulk association twice is running it once. */
  lemma EnrolAllIdempotent(ps: map<int, Participant>, ids: seq<int>, idEvent: int)
    ensures EnrolAll(EnrolAll(ps, ids, idEvent), ids, idEvent) == EnrolAll(ps, ids, idEvent)
  {
    var once := EnrolAll(ps, ids, idEvent);
    forall pid | pid in ids && pid in ps
      ensures Enrol(once[pid], idEvent) == once[pid]
    {
      EnrolIdempotent(ps[pid], idEvent);
    }
  }
}

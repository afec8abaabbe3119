/**
  The entities of the event back office (Participant, Event, Logistics) as
  values, the errors the service raises, and the writes it sends to the
  repositories.

  Java references that may be null are `Option`s; a `Set` held by an entity
  is an `Option` of a Dafny collection, so that "the set was null" and "the
  set was empty" stay distinct, as they are in the service.
 */
module Entities {

  datatype Option<T> = None | Some(value: T)

  /** A calendar day (`LocalDate`), as a day number. */
  type Date = int

  /** The role a participant plays at an event. Only ORGANISATEUR is named by
      the service; the enumeration's other constants are folded into one. */
  datatype Tache = Organisateur | OtherTache

  /** A participant. `events` holds the ids of the events it is associated
      with; events are identified by id. */
  datatype Participant = Participant(
    idPart: int,
    nom: string,
    prenom: string,
    tache: Tache,
    events: Option<set<int>>)

  /** A logistics item: only reserved items count towards an event's cost. */
  datatype Logistics = Logistics(
    idLog: int,
    description: string,
    reserve: bool,
    prixUnit: real,
    quantite: int)

  /** An event. `participants` holds the ids of the participants embedded in
      the event and `logistics` its logistics set, each set listed in its
      (unspecified) iteration order. */
  datatype Event = Event(
    idEvent: int,
    description: string,
    dateDebut: Date,
    dateFin: Date,
    cout: real,
    participants: Option<seq<int>>,
    logistics: Option<seq<Logistics>>)

  /** The exceptions the service throws. `NullPointer` is what
      `Objects.requireNonNull` raises; the other three are the service's
      `IllegalArgumentException`s. */
  datatype Error =
    | NullPointer(message: string)
    | ParticipantNotFound(idPart: int)
    | EventWithoutParticipants
    | EventNotFound(description: string)

  datatype Result<T> = Ok(value: T) | Err(error: Error)

  /** One call of a repository's `save`, in the order the service makes them. */
  datatype Write =
    | SaveParticipant(participant: Participant)
    | SaveEvent(event: Event)
    | SaveLogistics(logistics: Logistics)

  const ParticipantNull := "Participant cannot be null"
  const EventNull := "Event cannot be null"
  const LogisticsNull := "Logistics cannot be null"
  const DescriptionNull := "Event description cannot be null"
  const StartDateNull := "Start date cannot be null"
  const EndDateNull := "End date cannot be null"

  /** A participant's event set, a null set read as empty. */
  function EventsOf(p: Participant): set<int>
  {
    match p.events
    case None => {}
    case Some(s) => s
  }

  /** An event's logistics set, a null set read as empty. */
  function LogisticsOf(e: Event): seq<Logistics>
  {
    match e.logistics
    case None => []
    case Some(s) => s
  }
}

/**
 The page's data model: waves (timelines) of dated events, and user-authored
 connections between events. A calendar date is represented by its
 millisecond timestamp, which is all the core ever uses of it.
 */
module Types {

  datatype Option<T> = None | Some(value: T)

  type EventId = string

  /** One dated occurrence on a wave; `time` is the date's millisecond timestamp. */
  datatype Event = Event(id: EventId, time: int, title: string, detail: Option<string>, isFailure: bool)

  /** A timeline; the order of `events` is the order they were loaded or added in. */
  datatype Wave = Wave(title: string, period: string, predictionTime: Option<string>, events: seq<Event>)

  /** A directed, annotated link between two events, possibly on different waves. */
  datatype Connection = Connection(from: EventId, to: EventId, reason: string)

  /** An integer screen point (a measured card centre or a cursor position). */
  datatype Point = Point(x: int, y: int)

  /** The ids of all events of all the given waves. */
  function EventIds(waves: seq<Wave>): set<EventId>
  {
    set k, e | 0 <= k < |waves| && e in waves[k].events :: e.id
  }
}

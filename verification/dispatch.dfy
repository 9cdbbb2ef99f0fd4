/** The loop over the watcher's events: a `switch` on the event's operation
    that forwards writes to the viewers, re-watches renamed files and only
    reports removals. */
module Dispatch {
  import opened Base

  /** fsnotify's `Op`: a 32-bit mask, one bit per kind of change. */
  type Op = bv32

  const Create: Op := 1
  const Write: Op := 2
  const Remove: Op := 4
  const Rename: Op := 8
  const Chmod: Op := 16

  /** A filesystem notification. */
  datatype Event = Event(name: Path, op: Op)

  /** What the switch does with one event. */
  datatype Outcome =
    | Forwarded(event: Event)     // sent on the channel the viewer sessions read
    | Rewatched(name: Path)       // `Add` after a rename succeeded
    | RewatchFailed(name: Path)   // `Add` after a rename failed: logged only
    | RemoveReported(name: Path)  // "no longer watching" is printed; the list is unchanged
    | Ignored                     // no case matched

  datatype Dispatched = Dispatched(outcome: Outcome, watched: seq<Path>)

  /** One turn of the event loop. The switch compares the whole mask, so an
      event carrying two kinds at once matches no case. `canAdd` is the
      filesystem's answer to `Add`. */
  function Dispatch(e: Event, watched: seq<Path>, canAdd: Path -> bool): (r: Dispatched)
    ensures r.outcome.Forwarded? <==> e.op == Write
    ensures r.outcome.Forwarded? ==> r.outcome.event == e
    ensures r.outcome.RemoveReported? <==> e.op == Remove
    ensures r.outcome.Ignored? <==> e.op != Write && e.op != Rename && e.op != Remove
    ensures e.op == Rename ==> (r.outcome == Rewatched(e.name) <==> canAdd(e.name))
    ensures e.op == Rename && canAdd(e.name) ==> r.watched == Watch(watched, e.name)
    ensures !(e.op == Rename && canAdd(e.name)) ==> r.watched == watched
    ensures NoDuplicates(watched) ==> NoDuplicates(r.watched)
  {
    if e.op == Write then Dispatched(Forwarded(e), watched)
    else if e.op == Rename then
      if canAdd(e.name) then Dispatched(Rewatched(e.name), Watch(watched, e.name))
      else Dispatched(RewatchFailed(e.name), watched)
    else if e.op == Remove then Dispatched(RemoveReported(e.name), watched)
    else Dispatched(Ignored, watched)
  }

  /** A write that arrives together with any other kind of change is not
      forwarded and does not touch the watch list. */
  lemma CombinedWriteIgnored(e: Event, watched: seq<Path>, canAdd: Path -> bool)
    requires e.op & Write != 0 && e.op != Write
    ensures Dispatch(e, watched, canAdd) == Dispatched(Ignored, watched)
  {
  }

  /** The result of running the event loop over a sequence of events. */
  datatype Run = Run(forwarded: seq<Event>, watched: seq<Path>)

  function DispatchAll(events: seq<Event>, watched: seq<Path>, canAdd: Path -> bool): Run
    decreases |events|
  {
    if |events| == 0 then Run([], watched)
    else
      var d := Dispatch(events[0], watched, canAdd);
      var rest := DispatchAll(events[1..], d.watched, canAdd);
      Run((if d.outcome.Forwarded? then [d.outcome.event] else []) + rest.forwarded, rest.watched)
  }

  /** The events with exactly the `Write` mask, in order. */
  function Writes(events: seq<Event>): (r: seq<Event>)
    ensures forall i :: 0 <= i < |r| ==> r[i].op == Write && r[i] in events
  {
    if |events| == 0 then []
    else if events[0].op == Write then [events[0]] + Writes(events[1..])
    else Writes(events[1..])
  }

  /** Over any sequence of events, exactly the pure writes reach the viewers, in
      their order; the watch list never loses a path, stays free of duplicates,
      and gains only renamed paths the filesystem let the watcher add. */
  lemma {:induction false} DispatchAllSpec(events: seq<Event>, watched: seq<Path>, canAdd: Path -> bool)
    ensures DispatchAll(events, watched, canAdd).forwarded == Writes(events)
    ensures watched <= DispatchAll(events, watched, canAdd).watched
    ensures NoDuplicates(watched) ==> NoDuplicates(DispatchAll(events, watched, canAdd).watched)
    ensures forall p :: p in DispatchAll(events, watched, canAdd).watched && p !in watched ==>
      canAdd(p) && Event(p, Rename) in events
    decreases |events|
  {
    if |events| > 0 {
      var d := Dispatch(events[0], watched, canAdd);
      DispatchAllSpec(events[1..], d.watched, canAdd);
      assert forall e :: e in events[1..] ==> e in events;
    }
  }
}

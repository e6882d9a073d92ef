/** `ReadRunIdAsyncHandler` in langchain_emoji/server/emoji/emoji_service.py:
    a callback that remembers the run id of the first chain-start event it
    sees and ignores every other event. */
module RunTracer {
  import opened Wrappers

  /** A UUID, as the 128-bit number it denotes. */
  type Uuid = x: int | 0 <= x < 0x1_0000_0000_0000_0000_0000_0000_0000_0000

  /** The callback events the handler overrides; each carries the run id
      of the step that fired it. */
  datatype Event =
    | ChainStart(runId: Uuid)
    | ChatModelStart(runId: Uuid)
    | RetrieverEnd(runId: Uuid)

  /** The handler's only state, `self.runid`. */
  datatype Tracer = Tracer(runId: Option<Uuid>)

  /** A fresh handler: `self.runid = None`. */
  const Initial: Tracer := Tracer(None)

  /** Reaction to one event. Only a chain start writes, and only while
      nothing is recorded yet (`if not self.runid`; a UUID is always truthy). */
  function Step(t: Tracer, e: Event): (r: Tracer)
    ensures t.runId.Some? ==> r == t
    ensures !e.ChainStart? ==> r == t
    ensures t.runId.None? && e.ChainStart? ==> r.runId == Some(e.runId)
  {
    match e
    case ChainStart(id) => if t.runId.None? then Tracer(Some(id)) else t
    case ChatModelStart(_) => t
    case RetrieverEnd(_) => t
  }

  /** The handler after it has been sent `events` in order. */
  function Observe(t: Tracer, events: seq<Event>): Tracer
    decreases |events|
  {
    if |events| == 0 then t else Observe(Step(t, events[0]), events[1..])
  }

  /** `get_runid()`. */
  function GetRunId(t: Tracer): Option<Uuid> {
    t.runId
  }

  /** Reference definition: the id of the first chain start in `events`. */
  function FirstChainStart(events: seq<Event>): (r: Option<Uuid>)
    ensures r.None? <==> forall i :: 0 <= i < |events| ==> !events[i].ChainStart?
    ensures r.Some? ==> exists i :: 0 <= i < |events| && events[i] == ChainStart(r.value)
                          && forall j :: 0 <= j < i ==> !events[j].ChainStart?
    decreases |events|
  {
    if |events| == 0 then None
    else if events[0].ChainStart? then Some(events[0].runId)
    else
      var r := FirstChainStart(events[1..]);
      assert forall j :: 1 <= j < |events| ==> events[j] == events[1..][j - 1];
      r
  }

  /** A recorded id survives every later event. */
  lemma {:induction false} RecordedIdSticks(t: Tracer, events: seq<Event>)
    requires t.runId.Some?
    ensures Observe(t, events) == t
    decreases |events|
  {
    if |events| > 0 {
      RecordedIdSticks(Step(t, events[0]), events[1..]);
    }
  }

  /** From a fresh handler, the recorded id is that of the first chain
      start, whatever the number and order of the events after it. */
  lemma {:induction false} ObserveRecordsFirstChainStart(events: seq<Event>)
    ensures GetRunId(Observe(Initial, events)) == FirstChainStart(events)
    decreases |events|
  {
    if |events| > 0 {
      var t := Step(Initial, events[0]);
      if events[0].ChainStart? {
        RecordedIdSticks(t, events[1..]);
      } else {
        ObserveRecordsFirstChainStart(events[1..]);
      }
    }
  }

  /** The id stays unset exactly when no chain start was seen. */
  lemma UnsetIffNoChainStart(events: seq<Event>)
    ensures GetRunId(Observe(Initial, events)).None? <==>
              forall i :: 0 <= i < |events| ==> !events[i].ChainStart?
  {
    ObserveRecordsFirstChainStart(events);
  }

  lemma {:induction false} ObserveAppend(t: Tracer, a: seq<Event>, b: seq<Event>)
    ensures Observe(t, a + b) == Observe(Observe(t, a), b)
    decreases |a|
  {
    if |a| > 0 {
      assert (a + b)[1..] == a[1..] + b;
      ObserveAppend(Step(t, a[0]), a[1..], b);
    } else {
      assert a + b == b;
    }
  }

  /** Events arriving after the id is recorded (nested steps, the model
      call, the retriever) never change it. */
  lemma LaterEventsIgnored(a: seq<Event>, b: seq<Event>)
    requires GetRunId(Observe(Initial, a)).Some?
    ensures GetRunId(Observe(Initial, a + b)) == GetRunId(Observe(Initial, a))
  {
    ObserveAppend(Initial, a, b);
    RecordedIdSticks(Observe(Initial, a), b);
  }
}

/** The queues between the SBI handlers and the NGAP server task (context.rs): items are pushed one by one and
    drained all at once. */
module EgressQueues {

  datatype QueueOp<T> = Push(item: T) | Drain

  function QueueAfter<T>(queue: seq<T>, run: seq<QueueOp<T>>): seq<T>
    decreases |run|
  {
    if run == [] then queue
    else match run[0]
      case Push(item) => QueueAfter(queue + [item], run[1..])
      case Drain => QueueAfter([], run[1..])
  }

  /** Everything the drains of the run hand over, batch after batch. */
  function Delivered<T>(queue: seq<T>, run: seq<QueueOp<T>>): seq<T>
    decreases |run|
  {
    if run == [] then []
    else match run[0]
      case Push(item) => Delivered(queue + [item], run[1..])
      case Drain => queue + Delivered([], run[1..])
  }

  function Pushed<T>(run: seq<QueueOp<T>>): seq<T> {
    if run == [] then []
    else (match run[0] case Push(item) => [item] case Drain => []) + Pushed(run[1..])
  }

  /** Conservation: whatever the interleaving, what has been delivered followed by what is queued is what was queued
      followed by what was pushed. Nothing is lost, duplicated or reordered. */
  lemma {:induction false} QueueConserves<T>(queue: seq<T>, run: seq<QueueOp<T>>)
    ensures Delivered(queue, run) + QueueAfter(queue, run) == queue + Pushed(run)
    decreases |run|
  {
    if run == [] {
    } else {
      match run[0] {
        case Push(item) => QueueConserves(queue + [item], run[1..]);
        case Drain => QueueConserves([], run[1..]);
      }
    }
  }
}

/** The critical sections of spdlog's blocking queue, each run with the mutex held. */
module BlockingQueue {
  import opened CircularQueue
  import opened Options

  class MpmcBlockingQueue<T(0)> {
    const q: CircularQ<T>

    constructor (maxItems: nat)
      ensures fresh(q) && fresh(q.v) && q.Valid() && q.maxItems == maxItems + 1 && q.Contents() == []
    {
      q := new CircularQ<T>(maxItems);
    }

    /** One round of enqueue: stores the item, or reports that the caller has to wait for room. */
    method TryEnqueue(item: T) returns (stored: bool)
      requires q.Valid() && q.maxItems > 0
      modifies q, q.v
      ensures q.Valid() && q.maxItems == old(q.maxItems)
      ensures stored <==> |old(q.Contents())| < q.maxItems - 1
      ensures q.Contents() == old(q.Contents()) + if stored then [item] else []
      ensures q.overrunCounter == old(q.overrunCounter)
    {
      var full := q.Full();
      if full {
        return false;
      }
      q.PushBack(item);
      return true;
    }

    method EnqueueNowait(item: T)
      requires q.Valid() && q.maxItems > 0
      modifies q, q.v
      ensures q.Valid() && q.maxItems == old(q.maxItems)
      ensures q.Contents() == Pushed(old(q.Contents()), q.maxItems - 1, item)
      ensures q.overrunCounter == old(q.overrunCounter) + if |old(q.Contents())| < q.maxItems - 1 then 0 else 1
    {
      q.PushBack(item);
    }

    /** One round of dequeue_for: takes the oldest item, or reports that there is none. */
    method TryDequeue() returns (popped: Option<T>)
      requires q.Valid()
      modifies q
      ensures q.Valid() && q.maxItems == old(q.maxItems) && q.overrunCounter == old(q.overrunCounter)
      ensures old(q.Contents()) == [] ==> popped == None && q.Contents() == []
      ensures old(q.Contents()) != [] ==>
                popped == Some(old(q.Contents())[0]) && q.Contents() == old(q.Contents())[1..]
    {
      var empty := q.Empty();
      if empty {
        return None;
      }
      var item := q.Front();
      q.PopFront();
      return Some(item);
    }
  }
}

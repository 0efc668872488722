/** The hand-off buffer of the traffic light: a vector that `send` appends to
    and `receive` takes from the back of, so retrieval is last-in, first-out.
    The mutex and condition variable that guard it are not modelled; a
    `receive` that would block on an empty buffer requires a non-empty one. */
module MessageQueues {

  class MessageQueue<T> {
    /** The buffer, oldest message first. */
    var queue: seq<T>

    constructor ()
      ensures queue == []
    {
      queue := [];
    }

    /** Appends `msg` at the back; every earlier message stays where it was. */
    method Send(msg: T)
      modifies this
      ensures queue == old(queue) + [msg]
      ensures |queue| == |old(queue)| + 1
      ensures forall i :: 0 <= i < |old(queue)| ==> queue[i] == old(queue)[i]
    {
      queue := queue + [msg];
    }

    /** Removes and returns the most recently sent message. */
    method Receive() returns (msg: T)
      requires queue != []
      modifies this
      ensures msg == old(queue)[|old(queue)| - 1]
      ensures queue == old(queue)[..|old(queue)| - 1]
      ensures old(queue) == queue + [msg]
    {
      msg := queue[|queue| - 1];
      queue := queue[..|queue| - 1];
    }
  }

  /** A send immediately followed by a receive hands back the value sent and
      leaves the buffer as it was. */
  method SendReceiveRoundTrip<T>(q: MessageQueue<T>, v: T) returns (r: T)
    modifies q
    ensures r == v
    ensures q.queue == old(q.queue)
  {
    q.Send(v);
    r := q.Receive();
  }
}

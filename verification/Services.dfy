/** What the dispatcher does for the session that processes an event. */
module DispatcherServices {
  import opened Bytes
  import opened Protocol
  import Collections

  class Services {
    var nextTimer: TimerId
    var nextKey: Key
    var verdict: Verdict
    var log: seq<Effect>

    function Ctx(): Ctx
      reads this
    {
      Protocol.Ctx(nextTimer, nextKey, verdict, log)
    }

    constructor (c: Ctx)
      ensures Ctx() == c
    {
      nextTimer, nextKey, verdict, log := c.nextTimer, c.nextKey, c.verdict, c.log;
    }

    method StartTimer(seconds: nat) returns (id: TimerId)
      modifies this
      ensures id == old(nextTimer) && Ctx() == old(Ctx()).Start(seconds)
    {
      id := nextTimer;
      log := log + [Started(id, seconds)];
      nextTimer := nextTimer + 1;
    }

    method SendMessage(p: Packet)
      modifies this
      ensures Ctx() == old(Ctx()).Send(p)
    {
      log := log + [Sent(p)];
    }

    /** A notification for the application, through the queue that it gave. */
    method Enqueue()
      modifies this
      ensures Ctx() == old(Ctx()).Do(Enqueued)
    {
      log := log + [Enqueued];
    }

    /** Call the installer; false stands for the error that it throws. */
    method Call(e: Effect) returns (ok: bool)
      modifies this
      ensures Ctx() == old(Ctx()).Do(e) && ok == Ctx().verdict.Accepts?
    {
      log := log + [e];
      ok := verdict.Accepts?;
    }

    /** Put objects into a rule, each under a fresh key. */
    method AssignKeys(objects: seq<Payload>) returns (m: Objects)
      modifies this
      ensures m == Assign(old(nextKey), objects) && Ctx() == old(Ctx()).TakeKeys(|objects|)
    {
      m := map[];
      for i := 0 to |objects|
        invariant Ctx() == old(Ctx()).TakeKeys(i)
        invariant m == Assign(old(nextKey), objects[..i])
      {
        m := m[nextKey := objects[i]];
        nextKey := nextKey + 1;
        assert objects[..i + 1][..i] == objects[..i];
      }
      assert objects[..|objects|] == objects;
    }
  }

  /** set_reponse_objects: copy the installed objects into the responses of a rule, each under a fresh key. */
  method SetResponseObjects(d: Services, responses: Objects, installed: Objects) returns (m: Objects)
    modifies d
    ensures m == Install(responses, old(d.nextKey), installed) && d.Ctx() == old(d.Ctx()).TakeKeys(|installed|)
  {
    var list := ListObjects(installed);
    var copies := d.AssignKeys(list);
    m := responses + copies;
  }

  /** Delete every request that the check did not name. */
  method KeepChecked(requests: Objects, keys: set<Key>) returns (kept: Objects)
    ensures kept == Keep(requests, keys)
  {
    kept := requests;
    var order := Collections.Ascending(requests.Keys);
    for i := 0 to |order|
      invariant forall k :: k in kept ==> k in requests && kept[k] == requests[k]
      invariant forall j :: 0 <= j < i ==> (order[j] in kept <==> order[j] in keys)
      invariant forall j :: i <= j < |order| ==> order[j] in kept
    {
      if order[i] !in keys {
        kept := kept - {order[i]};
      }
    }
    forall k | k in requests ensures k in kept <==> k in keys {
      assert k in order;
    }
  }

  /** The objects of a map in the order of its iterator. */
  method ListObjects(m: Objects) returns (list: seq<Payload>)
    ensures list == Listing(m)
  {
    list := [];
    var order := Collections.Ascending(m.Keys);
    for i := 0 to |order|
      invariant list == At(m, order[..i])
    {
      list := list + [m[order[i]]];
    }
    assert order[..|order|] == order;
  }

  /** The timer of a session; `session` is the number of its owner. */
  class Timer {
    ghost const session: nat
    var id: TimerId

    constructor (ghost session: nat)
      ensures this.session == session && id == STOPPED
    {
      this.session := session;
      id := STOPPED;
    }

    method Start(d: Services, seconds: nat)
      modifies this, d
      ensures id == old(d.nextTimer) && d.Ctx() == old(d.Ctx()).Start(seconds)
    {
      id := d.StartTimer(seconds);
    }

    /** The message of the timer that ran before stays under way. */
    method Restart(d: Services, seconds: nat)
      modifies this, d
      ensures id == old(d.nextTimer) && d.Ctx() == old(d.Ctx()).Start(seconds)
    {
      id := d.StartTimer(seconds);
    }

    method Stop()
      modifies this
      ensures id == STOPPED
    {
      id := STOPPED;
    }
  }

  /** How a handler ends: with the next state, an exception, or a failed assertion. */
  datatype Flow<State> = To(state: State) | Throws | Halts
}

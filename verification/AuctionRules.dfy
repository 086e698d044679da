/** Auction rules, as the sessions and the installers share them: two maps that are updated in place. */
module AuctionRules {
  import opened Protocol
  import opened Collections
  import opened Bytes

  class AuctionRule {
    var requests: Objects
    var responses: Objects

    function Value(): Rule
      reads this
    {
      Rule(requests, responses)
    }

    constructor ()
      ensures Value() == EMPTY_RULE
    {
      requests, responses := map[], map[];
    }

    method SetRequestObject(key: Key, o: Payload)
      modifies this
      ensures Value() == old(Value()).(requests := old(requests)[key := o])
    {
      requests := requests[key := o];
    }

    method SetResponseObject(key: Key, o: Payload)
      modifies this
      ensures Value() == old(Value()).(responses := old(responses)[key := o])
    {
      responses := responses[key := o];
    }

    /** A deep copy: the objects of both maps are set in a new rule. */
    method Copy() returns (copy: AuctionRule)
      ensures fresh(copy) && copy.Value() == Value()
    {
      copy := new AuctionRule();
      var order := Ascending(requests.Keys);
      for i := 0 to |order|
        invariant fresh(copy) && copy.responses == map[]
        invariant forall k :: k in copy.requests ==> k in requests && copy.requests[k] == requests[k]
        invariant forall j :: 0 <= j < i ==> order[j] in copy.requests
      {
        copy.SetRequestObject(order[i], requests[order[i]]);
      }
      assert copy.requests == requests by {
        assert forall k :: k in requests ==> k in order;
      }
      order := Ascending(responses.Keys);
      for i := 0 to |order|
        invariant fresh(copy) && copy.requests == requests
        invariant forall k :: k in copy.responses ==> k in responses && copy.responses[k] == responses[k]
        invariant forall j :: 0 <= j < i ==> order[j] in copy.responses
      {
        copy.SetResponseObject(order[i], responses[order[i]]);
      }
      assert copy.responses == responses by {
        assert forall k :: k in responses ==> k in order;
      }
    }

    /** Compares sizes, and then each map in one direction only; that decides equality. */
    method Equals(other: AuctionRule) returns (equal: bool)
      ensures equal <==> Value() == other.Value()
    {
      equal := SameObjects(requests, other.requests);
      if equal {
        equal := SameObjects(responses, other.responses);
      }
    }
  }

  /** One of the two comparison loops. */
  method SameObjects(a: Objects, b: Objects) returns (equal: bool)
    ensures equal <==> a == b
  {
    AgreementIsEquality(a, b);
    if |a| != |b| {
      return false;
    }
    var order := Ascending(a.Keys);
    for i := 0 to |order|
      invariant forall j :: 0 <= j < i ==> order[j] in b && a[order[j]] == b[order[j]]
    {
      if order[i] !in b || a[order[i]] != b[order[i]] {
        return false;
      }
    }
    forall k | k in a ensures k in b && a[k] == b[k] {
      assert k in order;
    }
    return true;
  }
}

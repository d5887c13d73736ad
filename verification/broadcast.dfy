/**
 The broadcaster (`broadcaster` in internal/handlers/handlers.go): one response
 is written to every registered connection; a connection whose write fails is
 closed and removed from the registry, and delivery to the others goes on.

 Writes are not performed here: `failing` names the connections whose write
 fails during this broadcast.
 */
module Broadcast {
  import opened Registry

  /** No connection is attempted twice. */
  predicate Distinct(s: seq<ConnId>)
  {
    forall i, j :: 0 <= i < j < |s| ==> s[i] != s[j]
  }

  /** The registry after a broadcast: the failing connections are gone and
      every other entry is as it was. */
  function Prune(clients: Clients, failing: set<ConnId>): (r: Clients)
    ensures r.Keys == clients.Keys - failing
    ensures forall k :: k in r ==> r[k] == clients[k]
  {
    clients - failing
  }

  /** Sends to the registered connections one at a time, in an unspecified
      order; `attempts` is that order and `delivered` the connections whose
      write succeeded. */
  method Broadcaster(clients: Clients, failing: set<ConnId>)
    returns (remaining: Clients, attempts: seq<ConnId>, delivered: set<ConnId>)
    ensures remaining == Prune(clients, failing)
    ensures Distinct(attempts)
    ensures forall k :: k in attempts <==> k in clients
    ensures delivered == clients.Keys - failing
  {
    remaining := clients;
    attempts := [];
    delivered := {};
    var todo := clients.Keys;
    while todo != {}
      invariant todo <= clients.Keys
      invariant Distinct(attempts)
      invariant forall k :: k in attempts <==> k in clients && k !in todo
      invariant remaining.Keys == clients.Keys - (failing - todo)
      invariant forall k :: k in remaining ==> remaining[k] == clients[k]
      invariant delivered == (clients.Keys - todo) - failing
      decreases todo
    {
      var k :| k in todo;
      attempts := attempts + [k];
      if k in failing {
        remaining := remaining - {k};
      } else {
        delivered := delivered + {k};
      }
      todo := todo - {k};
    }
  }
}

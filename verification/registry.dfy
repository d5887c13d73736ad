/**
 The connection registry (`clients` in internal/handlers/handlers.go) and the
 roster computed from it (`getUserList`).

 A connection is an opaque identity; the registry maps each registered
 connection to its displayed username, the empty string meaning "not yet
 announced".
 */
module Registry {
  import Lex

  /** An opaque connection identity, usable as a map key. */
  datatype ConnId = ConnId(id: nat)

  type Clients = map<ConnId, string>

  /** Registration of a freshly upgraded connection with a blank username. */
  function Connect(clients: Clients, c: ConnId): (r: Clients)
    ensures r.Keys == clients.Keys + {c}
    ensures r[c] == ""
    ensures forall k :: k in clients && k != c ==> r[k] == clients[k]
  {
    clients[c := ""]
  }

  /** The roster entry one username contributes: nothing when it is blank. */
  function Named(name: string): multiset<string>
  {
    if name == "" then multiset{} else multiset{name}
  }

  /** Some registered connection; the choice stands for Go's unspecified map
      iteration order. */
  ghost function PickKey(clients: Clients): (k: ConnId)
    requires clients != map[]
    ensures k in clients
  {
    var k :| k in clients; k
  }

  /** The multiset of non-blank usernames, one per registered connection. */
  ghost function Names(clients: Clients): (names: multiset<string>)
    ensures "" !in names
    decreases |clients|
  {
    if clients == map[] then multiset{}
    else
      var k := PickKey(clients);
      assert |clients - {k}| < |clients| by {
        assert (clients - {k}).Keys == clients.Keys - {k};
      }
      Names(clients - {k}) + Named(clients[k])
  }

  /** `Names` does not depend on which key is taken first. */
  lemma {:induction false} NamesRemove(clients: Clients, k: ConnId)
    requires k in clients
    ensures Names(clients) == Names(clients - {k}) + Named(clients[k])
    decreases |clients|
  {
    var j := PickKey(clients);
    if j != k {
      var withoutJ := clients - {j};
      var withoutK := clients - {k};
      var both := clients - {j, k};
      assert withoutJ - {k} == both;
      assert withoutK - {j} == both;
      assert withoutJ.Keys == clients.Keys - {j};
      assert withoutK.Keys == clients.Keys - {k};
      assert Names(clients) == Names(withoutJ) + Named(clients[j]);
      NamesRemove(withoutJ, k);
      assert Names(withoutJ) == Names(both) + Named(clients[k]);
      NamesRemove(withoutK, j);
      assert Names(withoutK) == Names(both) + Named(clients[j]);
    }
  }

  /** A username is in the roster exactly when it is non-blank and some
      registered connection displays it. */
  lemma {:induction false} NamesMembership(clients: Clients, u: string)
    ensures u in Names(clients) <==> u != "" && exists k :: k in clients && clients[k] == u
    decreases |clients|
  {
    if clients != map[] {
      var k := PickKey(clients);
      assert (clients - {k}).Keys == clients.Keys - {k};
      NamesMembership(clients - {k}, u);
      if u != "" && exists j :: j in clients && clients[j] == u {
        var j :| j in clients && clients[j] == u;
        if j != k {
          assert j in clients - {k};
        }
      }
    }
  }

  /** The connections displaying username `u`. */
  ghost function Holders(clients: Clients, u: string): set<ConnId>
  {
    set k | k in clients && clients[k] == u
  }

  lemma HoldersRemove(clients: Clients, k: ConnId, u: string)
    requires k in clients
    ensures clients[k] == u ==> Holders(clients, u) == Holders(clients - {k}, u) + {k}
    ensures clients[k] != u ==> Holders(clients, u) == Holders(clients - {k}, u)
    ensures k !in Holders(clients - {k}, u)
  {
  }

  /** The number of times a username appears in the roster is the number of
      connections displaying it. */
  lemma {:induction false} NamesCount(clients: Clients, u: string)
    requires u != ""
    ensures Names(clients)[u] == |Holders(clients, u)|
    decreases |clients|
  {
    if clients == map[] {
      assert Holders(clients, u) == {};
    } else {
      var k := PickKey(clients);
      var rest := clients - {k};
      assert rest.Keys == clients.Keys - {k};
      NamesCount(rest, u);
      HoldersRemove(clients, k, u);
      assert Names(clients) == Names(rest) + Named(clients[k]);
    }
  }

  /** The names in the order chosen by `Names`, as a sequence. */
  ghost function NameList(clients: Clients): (list: seq<string>)
    ensures multiset(list) == Names(clients)
    decreases |clients|
  {
    if clients == map[] then []
    else
      var k := PickKey(clients);
      assert |clients - {k}| < |clients| by {
        assert (clients - {k}).Keys == clients.Keys - {k};
      }
      NameList(clients - {k}) + (if clients[k] == "" then [] else [clients[k]])
  }

  /** The roster of a registry: its non-blank usernames in sorted order. */
  ghost function Roster(clients: Clients): (users: seq<string>)
    ensures Lex.Sorted(users)
    ensures multiset(users) == Names(clients)
  {
    Lex.SortStrings(NameList(clients))
  }

  /** The roster is the only sorted arrangement of the registry's names. */
  lemma RosterUnique(clients: Clients, users: seq<string>)
    requires Lex.Sorted(users)
    requires multiset(users) == Names(clients)
    ensures users == Roster(clients)
  {
    Lex.SortedUnique(users, Roster(clients));
  }

  /** Registering a new connection with a blank username leaves the roster as
      it was. */
  lemma ConnectKeepsRoster(clients: Clients, c: ConnId)
    requires c !in clients
    ensures Names(Connect(clients, c)) == Names(clients)
    ensures Roster(Connect(clients, c)) == Roster(clients)
  {
    var r := Connect(clients, c);
    NamesRemove(r, c);
    assert r - {c} == clients;
    RosterUnique(r, Roster(clients));
  }

  /** The loop of `getUserList`: visits every registered connection once, in
      some order, and keeps the non-blank usernames. */
  method CollectNames(clients: Clients) returns (list: seq<string>)
    ensures multiset(list) == Names(clients)
  {
    list := [];
    var rest := clients;
    while rest != map[]
      invariant multiset(list) + Names(rest) == Names(clients)
      decreases |rest|
    {
      var k :| k in rest;
      NamesRemove(rest, k);
      if rest[k] != "" {
        list := list + [rest[k]];
      }
      assert (rest - {k}).Keys == rest.Keys - {k};
      rest := rest - {k};
    }
  }

  /** `getUserList`: the non-blank usernames, sorted. */
  method GetUserList(clients: Clients) returns (users: seq<string>)
    ensures Lex.Sorted(users)
    ensures "" !in users
    ensures multiset(users) == Names(clients)
    ensures users == Roster(clients)
  {
    var list := CollectNames(clients);
    users := Lex.SortStrings(list);
    assert "" !in multiset(users);
    RosterUnique(clients, users);
  }
}

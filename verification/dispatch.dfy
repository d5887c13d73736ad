/**
 The dispatcher (`ListenWsChannel` in internal/handlers/handlers.go): it takes
 one event at a time off the channel, updates the registry, builds the
 response and hands it to the broadcaster.

 The response variable is declared once, outside the loop, and only some of
 its fields are assigned per event; the dispatcher state is therefore the
 registry together with the last response.
 */
module Dispatch {
  import Lex
  import Escape
  import opened Registry
  import opened Broadcast

  /** `WsPayload`: a decoded inbound message with the connection it came from. */
  datatype Event = Event(action: string, username: string, message: string, conn: ConnId)

  /** `WsJsonResponse`. */
  datatype Response = Response(action: string, message: string, messageType: string, connectedUsers: seq<string>)

  datatype State = State(clients: Clients, response: Response)

  /** The state after one event, and the connections the response reached. */
  datatype Transition = Transition(next: State, delivered: set<ConnId>)

  /** The zero value the response variable starts from. */
  const NoResponse := Response("", "", "", [])

  /** The actions the dispatcher acts on; any other action is ignored. */
  predicate Handled(action: string)
  {
    action == "username" || action == "left" || action == "broadcast"
  }

  /** The chat line `fmt.Sprintf("%s: %s", username, message)`. */
  function ChatLine(username: string, message: string): string
  {
    username + ": " + message
  }

  /** Cut after the username's length, the chat line gives back the username
      and the message: the broadcast text names its sender and carries the
      message unaltered. (The line alone does not say where the username ends,
      since a username may itself contain ": ".) */
  lemma ChatLineSplit(username: string, message: string)
    ensures |ChatLine(username, message)| == |username| + 2 + |message|
    ensures ChatLine(username, message)[..|username|] == username
    ensures ChatLine(username, message)[|username|..|username| + 2] == ": "
    ensures ChatLine(username, message)[|username| + 2..] == message
  {
  }

  /** The registry edit an event makes before its response is broadcast. */
  function Apply(clients: Clients, e: Event): (r: Clients)
    ensures e.action == "username" ==> r.Keys == clients.Keys + {e.conn} && r[e.conn] == e.username
    ensures e.action == "left" ==> r.Keys == clients.Keys - {e.conn}
    ensures e.action != "username" && e.action != "left" ==> r == clients
    ensures forall k :: k in r && k != e.conn ==> k in clients && r[k] == clients[k]
    ensures forall k :: k in clients && k != e.conn ==> k in r
  {
    if e.action == "username" then clients[e.conn := e.username]
    else if e.action == "left" then clients - {e.conn}
    else clients
  }

  /** One iteration of the dispatcher loop, for the connections in `failing`
      failing their write. */
  ghost function Next(s: State, e: Event, failing: set<ConnId>): (t: Transition)
    // a handled event broadcasts to the edited registry and evicts the failures
    ensures Handled(e.action) ==>
              && t.next.clients == Prune(Apply(s.clients, e), failing)
              && t.delivered == Apply(s.clients, e).Keys - failing
    // "username" and "left" publish the roster of the edited registry, computed
    // before the broadcast evicts anyone, and keep the previous message
    ensures e.action == "username" || e.action == "left" ==>
              && t.next.response.action == "list_users"
              && t.next.response.message == s.response.message
              && t.next.response.messageType == s.response.messageType
              && Lex.Sorted(t.next.response.connectedUsers)
              && multiset(t.next.response.connectedUsers) == Names(Apply(s.clients, e))
    ensures e.action == "username" ==>
              multiset(t.next.response.connectedUsers) == Names(s.clients - {e.conn}) + Named(e.username)
    ensures e.action == "left" ==>
              multiset(t.next.response.connectedUsers) == Names(s.clients - {e.conn})
    // "broadcast" publishes the escaped chat line and keeps the previous roster
    ensures e.action == "broadcast" ==>
              && t.next.response.action == "broadcast"
              && t.next.response.message == Escape.Escape(ChatLine(e.username, e.message))
              && t.next.response.messageType == s.response.messageType
              && t.next.response.connectedUsers == s.response.connectedUsers
              && t.next.clients == Prune(s.clients, failing)
    // anything else changes nothing and sends nothing
    ensures !Handled(e.action) ==> t.next == s && t.delivered == {}
  {
    if e.action == "username" || e.action == "left" then
      var clients := Apply(s.clients, e);
      var users := Roster(clients);
      assert Names(clients) == Names(s.clients - {e.conn}) + (if e.action == "username" then Named(e.username) else multiset{}) by {
        if e.action == "username" {
          NamesRemove(clients, e.conn);
          assert clients - {e.conn} == s.clients - {e.conn};
        } else {
          assert clients == s.clients - {e.conn};
        }
      }
      var response := s.response.(action := "list_users", connectedUsers := users);
      Transition(State(Prune(clients, failing), response), clients.Keys - failing)
    else if e.action == "broadcast" then
      var response := s.response.(action := "broadcast", message := Escape.Escape(ChatLine(e.username, e.message)));
      Transition(State(Prune(s.clients, failing), response), s.clients.Keys - failing)
    else
      Transition(s, {})
  }

  /** One iteration of the dispatcher loop, calling `getUserList` and the
      broadcaster; `attempts` lists the writes in the order they were made. */
  method Dispatch(s: State, e: Event, failing: set<ConnId>) returns (t: Transition, attempts: seq<ConnId>)
    ensures t == Next(s, e, failing)
    ensures Distinct(attempts)
    ensures Handled(e.action) ==> forall k :: k in attempts <==> k in Apply(s.clients, e)
    ensures !Handled(e.action) ==> attempts == []
  {
    var response := s.response;
    var clients := s.clients;
    attempts := [];
    if e.action == "username" {
      clients := clients[e.conn := e.username];
      var users := GetUserList(clients);
      response := response.(action := "list_users", connectedUsers := users);
    } else if e.action == "left" {
      response := response.(action := "list_users");
      clients := clients - {e.conn};
      var users := GetUserList(clients);
      response := response.(connectedUsers := users);
    } else if e.action == "broadcast" {
      response := response.(action := "broadcast", message := Escape.Escape(ChatLine(e.username, e.message)));
    } else {
      return Transition(s, {}), [];
    }
    var remaining, delivered;
    remaining, attempts, delivered := Broadcaster(clients, failing);
    t := Transition(State(remaining, response), delivered);
  }

  /** The dispatcher applied to the events of the channel in order; the
      `i`th event sees the write failures `failures[i]`. */
  ghost function Run(s: State, events: seq<Event>, failures: seq<set<ConnId>>): State
    requires |failures| == |events|
    decreases |events|
  {
    if |events| == 0 then s
    else Run(Next(s, events[0], failures[0]).next, events[1..], failures[1..])
  }

  /** The dispatcher loop over a finite prefix of the channel's events. */
  method ListenWsChannel(s: State, events: seq<Event>, failures: seq<set<ConnId>>) returns (r: State)
    requires |failures| == |events|
    ensures r == Run(s, events, failures)
  {
    r := s;
    var i := 0;
    while i < |events|
      invariant 0 <= i <= |events|
      invariant Run(r, events[i..], failures[i..]) == Run(s, events, failures)
    {
      assert events[i..][1..] == events[i + 1..];
      assert failures[i..][1..] == failures[i + 1..];
      var t, _ := Dispatch(r, events[i], failures[i]);
      r := t.next;
      i := i + 1;
    }
  }

  /** What every response the dispatcher sends satisfies: the roster is
      sorted and free of blank names, the message carries no markup, and the
      message type is never set. */
  ghost predicate WellFormed(r: Response)
  {
    && Lex.Sorted(r.connectedUsers)
    && "" !in r.connectedUsers
    && (forall i :: 0 <= i < |r.message| ==> !Escape.IsMarkup(r.message[i]))
    && r.messageType == ""
  }

  /** Every step keeps the response well formed. */
  lemma NextKeepsWellFormed(s: State, e: Event, failing: set<ConnId>)
    requires WellFormed(s.response)
    ensures WellFormed(Next(s, e, failing).next.response)
  {
    var t := Next(s, e, failing);
    if e.action == "username" || e.action == "left" {
      assert "" !in multiset(t.next.response.connectedUsers);
    }
  }

  /** Every response along any run from a well-formed state is well formed. */
  lemma {:induction false} RunKeepsWellFormed(s: State, events: seq<Event>, failures: seq<set<ConnId>>)
    requires |failures| == |events|
    requires WellFormed(s.response)
    ensures WellFormed(Run(s, events, failures).response)
    decreases |events|
  {
    if |events| > 0 {
      NextKeepsWellFormed(s, events[0], failures[0]);
      RunKeepsWellFormed(Next(s, events[0], failures[0]).next, events[1..], failures[1..]);
    }
  }

  /** Every response the dispatcher sends, starting from the zero response,
      is well formed. */
  lemma DispatcherResponsesWellFormed(clients: Clients, events: seq<Event>, failures: seq<set<ConnId>>)
    requires |failures| == |events|
    ensures WellFormed(Run(State(clients, NoResponse), events, failures).response)
  {
    RunKeepsWellFormed(State(clients, NoResponse), events, failures);
  }

  function UsernameEvent(c: ConnId, name: string): Event
  {
    Event("username", name, "", c)
  }

  function LeftEvent(c: ConnId): Event
  {
    Event("left", "", "", c)
  }

  /** The state after a "username" or "left" event with no write failures. */
  lemma NextListUsers(s: State, e: Event)
    requires e.action == "username" || e.action == "left"
    ensures Next(s, e, {}).next
            == State(Apply(s.clients, e), s.response.(action := "list_users", connectedUsers := Roster(Apply(s.clients, e))))
    ensures Next(s, e, {}).delivered == Apply(s.clients, e).Keys
  {
    assert Prune(Apply(s.clients, e), {}) == Apply(s.clients, e);
  }

  /** Leaving twice is the same as leaving once: the second event finds the
      connection already gone and republishes the same roster. */
  lemma LeftIdempotent(s: State, c: ConnId)
    ensures Next(Next(s, LeftEvent(c), {}).next, LeftEvent(c), {}).next == Next(s, LeftEvent(c), {}).next
  {
    var e := LeftEvent(c);
    var once := Next(s, e, {}).next;
    NextListUsers(s, e);
    NextListUsers(once, e);
    assert Apply(once.clients, e) == once.clients;
  }

  /** Without write failures, a "username" event grows the registry by one
      exactly when the connection was not registered. */
  lemma UsernameRegistrySize(s: State, c: ConnId, name: string)
    ensures |Next(s, UsernameEvent(c, name), {}).next.clients| == |s.clients| + (if c in s.clients then 0 else 1)
  {
    var e := UsernameEvent(c, name);
    var joined := Next(s, e, {}).next.clients;
    assert joined == Prune(Apply(s.clients, e), {});
    assert joined.Keys == s.clients.Keys + {c};
  }

  /** Without write failures, a "left" event shrinks the registry by one
      exactly when the connection was registered. */
  lemma LeftRegistrySize(s: State, c: ConnId)
    ensures |Next(s, LeftEvent(c), {}).next.clients| == |s.clients| - (if c in s.clients then 1 else 0)
  {
    var e := LeftEvent(c);
    var left := Next(s, e, {}).next.clients;
    assert left == Prune(Apply(s.clients, e), {});
    assert left.Keys == s.clients.Keys - {c};
  }

  /** A connection that is registered with the blank username, announces a
      name and then leaves is gone again: the registry is the one it was
      registered into, and the published roster is the one it found. */
  lemma JoinThenLeave(clients: Clients, r: Response, c: ConnId, name: string)
    requires c !in clients
    ensures Next(Next(State(Connect(clients, c), r), UsernameEvent(c, name), {}).next, LeftEvent(c), {}).next.clients
            == clients
    ensures Next(Next(State(Connect(clients, c), r), UsernameEvent(c, name), {}).next, LeftEvent(c), {}).next.response.connectedUsers
            == Roster(Connect(clients, c))
  {
    var s := State(Connect(clients, c), r);
    var join := UsernameEvent(c, name);
    var leave := LeftEvent(c);
    var joined := Next(s, join, {}).next;
    NextListUsers(s, join);
    NextListUsers(joined, leave);
    assert Apply(joined.clients, leave) == clients;
    ConnectKeepsRoster(clients, c);
  }

  /** After a "left" event, a name no other connection displays is no longer
      in the published roster. */
  lemma LeftDropsName(s: State, c: ConnId, failing: set<ConnId>)
    requires c in s.clients
    requires forall k :: k in s.clients && k != c ==> s.clients[k] != s.clients[c]
    ensures s.clients[c] !in Next(s, LeftEvent(c), failing).next.response.connectedUsers
  {
    var t := Next(s, LeftEvent(c), failing);
    var u := s.clients[c];
    NamesMembership(s.clients - {c}, u);
    assert u !in multiset(t.next.response.connectedUsers);
  }

  /** After a "username" event, a name appears in the published roster as
      many times as connections display it: duplicates on different
      connections are all kept, whichever writes then fail. */
  lemma UsernameRosterCounts(s: State, c: ConnId, name: string, u: string, failing: set<ConnId>)
    requires u != ""
    ensures multiset(Next(s, UsernameEvent(c, name), failing).next.response.connectedUsers)[u]
            == |Holders(s.clients[c := name], u)|
  {
    NamesCount(s.clients[c := name], u);
  }

  /** The names of a registry with one connection. */
  lemma NamesOfOne(c: ConnId, u: string)
    ensures Names(map[c := u]) == Named(u)
  {
    var m := map[c := u];
    NamesRemove(m, c);
    assert m - {c} == map[];
  }

  /** The roster of a registry with one named connection. */
  lemma RosterOfOne(c: ConnId, u: string)
    requires u != ""
    ensures Roster(map[c := u]) == [u]
  {
    NamesOfOne(c, u);
    RosterUnique(map[c := u], [u]);
  }

  /** The state after a "broadcast" event with no write failures. */
  lemma NextBroadcast(s: State, e: Event)
    requires e.action == "broadcast"
    ensures Next(s, e, {}).next
            == State(s.clients, s.response.(action := "broadcast", message := Escape.Escape(ChatLine(e.username, e.message))))
    ensures Next(s, e, {}).delivered == s.clients.Keys
  {
    assert Prune(s.clients, {}) == s.clients;
  }

  // A two-client session: A and B connect; A announces "alice", B announces
  // "bob", A says "hi", B leaves; no write fails. S0 .. S4 are the states
  // before and after each event. Each step has its own lemma, and the step
  // for "bob" and the escaping of "alice: hi" are split further into helper
  // lemmas: each helper states one fact about a concrete state, because
  // proving them inside a single lemma exceeds the solver's resource budget.
  const A := ConnId(0)
  const B := ConnId(1)
  const Session := [UsernameEvent(A, "alice"), UsernameEvent(B, "bob"), Event("broadcast", "alice", "hi", A), LeftEvent(B)]
  const NoFailures: seq<set<ConnId>> := [{}, {}, {}, {}]
  const S0 := State(Connect(Connect(map[], A), B), NoResponse)
  const S1 := State(map[A := "alice", B := ""], Response("list_users", "", "", ["alice"]))
  const S2 := State(map[A := "alice", B := "bob"], Response("list_users", "", "", ["alice", "bob"]))
  const S3 := State(map[A := "alice", B := "bob"], Response("broadcast", "alice: hi", "", ["alice", "bob"]))
  const S4 := State(map[A := "alice"], Response("list_users", "alice: hi", "", ["alice"]))

  /** "alice" announces herself: the roster is ["alice"]; B's blank name is
      left out. */
  lemma AliceJoins()
    ensures Next(S0, Session[0], {}) == Transition(S1, {A, B})
  {
    assert Roster(S1.clients) == ["alice"] by {
      assert S1.clients == map[A := "alice"][B := ""];
      ConnectKeepsRoster(map[A := "alice"], B);
      RosterOfOne(A, "alice");
    }
    assert Apply(S0.clients, Session[0]) == S1.clients;
    NextListUsers(S0, Session[0]);
  }

  lemma NamesOfTwo()
    ensures Names(map[A := "alice", B := "bob"]) == multiset{"alice", "bob"}
  {
    var both := map[A := "alice", B := "bob"];
    NamesRemove(both, B);
    assert both - {B} == map[A := "alice"];
    NamesOfOne(A, "alice");
  }

  lemma RosterOfTwo()
    ensures Roster(map[A := "alice", B := "bob"]) == ["alice", "bob"]
  {
    NamesOfTwo();
    assert Lex.Sorted(["alice", "bob"]) by {
      assert Lex.Le("alice", "bob");
    }
    RosterUnique(map[A := "alice", B := "bob"], ["alice", "bob"]);
  }

  /** "bob" announces himself: the roster is ["alice", "bob"]. */
  lemma BobJoins()
    ensures Next(S1, Session[1], {}) == Transition(S2, {A, B})
  {
    BobJoinsState();
    BobJoinsDelivery();
  }

  /** The state after B's announcement (one half of `BobJoins`). */
  lemma BobJoinsState()
    ensures Next(S1, Session[1], {}).next == S2
  {
    RosterOfTwo();
    BobNamed();
    NextListUsers(S1, Session[1]);
  }

  /** The recipients of B's announcement (the other half of `BobJoins`). */
  lemma BobJoinsDelivery()
    ensures Next(S1, Session[1], {}).delivered == {A, B}
  {
    BobNamed();
    NextListUsers(S1, Session[1]);
  }

  /** The registry once B has announced "bob". */
  lemma BobNamed()
    ensures Apply(S1.clients, Session[1]) == S2.clients
  {
  }

  /** "alice: hi" holds no special character, so escaping leaves it as is. */
  lemma AliceHiNeedsNoEscaping()
    ensures Escape.Escape(ChatLine("alice", "hi")) == "alice: hi"
  {
    assert ChatLine("alice", "hi") == "alice: hi";
    Escape.EscapeFixedPoint("alice: hi");
  }

  /** A says "hi": both clients receive "alice: hi" with the old roster. */
  lemma AliceSaysHi()
    ensures Next(S2, Session[2], {}) == Transition(S3, {A, B})
  {
    AliceHiNeedsNoEscaping();
    NextBroadcast(S2, Session[2]);
  }

  /** B leaves: the roster is ["alice"] again, and the response still carries
      the last chat line. */
  lemma BobLeaves()
    ensures Next(S3, Session[3], {}) == Transition(S4, {A})
  {
    NextListUsers(S3, Session[3]);
    assert Apply(S3.clients, Session[3]) == map[A := "alice"];
    RosterOfOne(A, "alice");
  }

  lemma RunStep(s: State, events: seq<Event>, failures: seq<set<ConnId>>)
    requires |failures| == |events| > 0
    ensures Run(s, events, failures) == Run(Next(s, events[0], failures[0]).next, events[1..], failures[1..])
  {
  }

  lemma ScenarioFrom3()
    ensures Run(S3, Session[3..], NoFailures[3..]) == S4
  {
    BobLeaves();
    RunStep(S3, Session[3..], NoFailures[3..]);
    assert Session[3..][1..] == [];
  }

  lemma ScenarioFrom2()
    ensures Run(S2, Session[2..], NoFailures[2..]) == S4
  {
    AliceSaysHi();
    RunStep(S2, Session[2..], NoFailures[2..]);
    assert Session[2..][1..] == Session[3..];
    assert NoFailures[2..][1..] == NoFailures[3..];
    ScenarioFrom3();
  }

  lemma ScenarioFrom1()
    ensures Run(S1, Session[1..], NoFailures[1..]) == S4
  {
    BobJoins();
    RunStep(S1, Session[1..], NoFailures[1..]);
    assert Session[1..][1..] == Session[2..];
    assert NoFailures[1..][1..] == NoFailures[2..];
    ScenarioFrom2();
  }

  /** The whole session ends with A alone in the registry and a "list_users"
      response whose roster is ["alice"] and whose message is still the last
      chat line. */
  lemma Scenario()
    ensures Run(S0, Session, NoFailures) == S4
  {
    AliceJoins();
    RunStep(S0, Session, NoFailures);
    ScenarioFrom1();
  }
}

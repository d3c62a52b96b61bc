/** The hub of the chat WebSocket (chat/handler.go): an index from rooms to clients and from
    clients to rooms, and the delivery of broadcasts through it. */
module ChatHub {
  import opened Collections

  /** What the hub touches of a client; inbox is what was written to its connection. */
  datatype Peer = Peer(userId: int, sessions: set<int>, inbox: seq<string>)

  /** peers holds every client the hub has ever seen, clients those registered now. */
  datatype Hub<C(==)> = Hub(clients: set<C>, rooms: map<int, set<C>>, peers: map<C, Peer>)

  // ----- the operations

  function Added<C>(h: Hub<C>, c: C, peer: Peer): Hub<C> {
    h.(clients := h.clients + {c}, peers := h.peers[c := peer])
  }

  /** c leaves room s; a room left empty is dropped. */
  function Vacated<C>(rooms: map<int, set<C>>, c: C, s: int): map<int, set<C>> {
    if s !in rooms then rooms
    else if rooms[s] - {c} == {} then map k | k in rooms && k != s :: rooms[k]
    else rooms[s := rooms[s] - {c}]
  }

  /** c leaves all the rooms of sessions. */
  function VacatedAll<C>(rooms: map<int, set<C>>, c: C, sessions: set<int>): map<int, set<C>> {
    map s | s in rooms && !(s in sessions && rooms[s] - {c} == {}) :: if s in sessions then rooms[s] - {c} else rooms[s]
  }

  lemma VacatedNone<C>(rooms: map<int, set<C>>, c: C)
    ensures VacatedAll(rooms, c, {}) == rooms
  {
  }

  lemma VacatedOneMore<C>(rooms: map<int, set<C>>, c: C, sessions: set<int>, s: int)
    requires s !in sessions
    ensures VacatedAll(rooms, c, sessions + {s}) == Vacated(VacatedAll(rooms, c, sessions), c, s)
  {
    var before, after := VacatedAll(rooms, c, sessions), VacatedAll(rooms, c, sessions + {s});
    assert forall k :: k != s ==> (k in after <==> k in before) && (k in after ==> after[k] == before[k]);
  }

  /** The client keeps its own list of sessions. */
  function Removed<C>(h: Hub<C>, c: C): Hub<C>
    requires c in h.peers
  {
    h.(clients := h.clients - {c}, rooms := VacatedAll(h.rooms, c, h.peers[c].sessions))
  }

  function Joined<C>(h: Hub<C>, c: C, s: int): Hub<C>
    requires c in h.peers
  {
    h.(rooms := h.rooms[s := (if s in h.rooms then h.rooms[s] else {}) + {c}],
       peers := h.peers[c := h.peers[c].(sessions := h.peers[c].sessions + {s})])
  }

  function Left<C>(h: Hub<C>, c: C, s: int): Hub<C>
    requires c in h.peers
  {
    h.(rooms := Vacated(h.rooms, c, s),
       peers := h.peers[c := h.peers[c].(sessions := h.peers[c].sessions - {s})])
  }

  function Delivered<C>(h: Hub<C>, targets: set<C>, payload: string): Hub<C> {
    h.(peers := map c | c in h.peers :: if c in targets then h.peers[c].(inbox := h.peers[c].inbox + [payload])
        else h.peers[c])
  }

  function RoomOf<C>(h: Hub<C>, s: int): set<C> {
    if s in h.rooms then h.rooms[s] else {}
  }

  function ClientsOf<C>(h: Hub<C>, userIds: seq<int>): set<C> {
    set c | c in h.clients && c in h.peers && h.peers[c].userId in userIds
  }

  // ----- the hub itself

  class Client {
    const userId: int
    var sessions: set<int>
    var inbox: seq<string>

    constructor (userId: int)
      ensures AsPeer() == Peer(userId, {}, [])
    {
      this.userId, sessions, inbox := userId, {}, [];
    }

    function AsPeer(): Peer
      reads this
    {
      Peer(userId, sessions, inbox)
    }
  }

  ghost predicate Tracked<C>(h: Hub<C>) {
    h.clients <= h.peers.Keys && forall s :: s in h.rooms ==> h.rooms[s] <= h.peers.Keys
  }

  class ChatHub {
    var clients: set<Client>
    var rooms: map<int, set<Client>>
    ghost var known: set<Client>

    constructor ()
      ensures View() == Hub({}, map[], map[])
    {
      clients, rooms, known := {}, map[], {};
    }

    ghost function View(): Hub<Client>
      reads this, known
    {
      Hub(clients, rooms, map c | c in known :: c.AsPeer())
    }

    method AddClient(client: Client)
      modifies this
      ensures View() == Added(old(View()), client, client.AsPeer())
    {
      clients := clients + {client};
      known := known + {client};
    }

    /** The client leaves a room, which is dropped when that leaves it empty. */
    method Vacate(client: Client, s: int)
      modifies this`rooms
      ensures rooms == Vacated(old(rooms), client, s)
    {
      if s in rooms {
        var room := rooms[s] - {client};
        rooms := if |room| == 0 then map k | k in rooms && k != s :: rooms[k] else rooms[s := room];
      }
    }

    method VacateAll(client: Client, sessions: set<int>)
      modifies this`rooms
      ensures rooms == VacatedAll(old(rooms), client, sessions)
    {
      hide Vacated, VacatedAll;
      var rest := sessions;
      VacatedNone(rooms, client);
      ghost var left: set<int> := {};
      while rest != {}
        invariant left + rest == sessions && left !! rest
        invariant rooms == VacatedAll(old(rooms), client, left)
        decreases |rest|
      {
        ghost var some := Member(rest);
        var s :| s in rest;
        VacatedOneMore(old(rooms), client, left, s);
        rest, left := rest - {s}, left + {s};
        Vacate(client, s);
      }
      assert left == sessions;
    }

    method RemoveClient(client: Client)
      requires client in known
      modifies this
      ensures View() == Removed(old(View()), client)
    {
      hide VacatedAll;
      clients := clients - {client};
      VacateAll(client, client.sessions);
    }

    method JoinRoom(client: Client, s: int)
      requires client in known
      modifies this, client`sessions
      ensures View() == Joined(old(View()), client, s)
    {
      if s !in rooms {
        rooms := rooms[s := {}];
      }
      rooms := rooms[s := rooms[s] + {client}];
      client.sessions := client.sessions + {s};
      assert View().peers == Joined(old(View()), client, s).peers;
    }

    method LeaveRoom(client: Client, s: int)
      requires client in known
      modifies this, client`sessions
      ensures View() == Left(old(View()), client, s)
    {
      hide Vacated;
      Vacate(client, s);
      client.sessions := client.sessions - {s};
      assert View().peers == Left(old(View()), client, s).peers;
    }

    /** One write to the connection of every target. */
    method Deliver(targets: set<Client>, payload: string)
      requires targets <= known
      modifies targets`inbox
      ensures View() == Delivered(old(View()), targets, payload)
    {
      var rest := targets;
      while rest != {}
        invariant rest <= targets
        invariant forall c :: c in targets - rest ==> c.inbox == old(c.inbox) + [payload]
        invariant forall c :: c in known && c !in targets - rest ==> c.inbox == old(c.inbox)
        decreases |rest|
      {
        var c :| c in rest;
        rest := rest - {c};
        c.inbox := c.inbox + [payload];
      }
      assert View().peers == Delivered(old(View()), targets, payload).peers;
    }

    method Broadcast(s: int, payload: string)
      requires Tracked(View())
      modifies known`inbox
      ensures View() == Delivered(old(View()), RoomOf(old(View()), s), payload)
    {
      if s in rooms {
        Deliver(rooms[s], payload);
      } else {
        assert View().peers == Delivered(old(View()), {}, payload).peers;
      }
    }

    method BroadcastToUsers(userIds: seq<int>, payload: string)
      requires Tracked(View())
      modifies known`inbox
      ensures View() == Delivered(old(View()), ClientsOf(old(View()), userIds), payload)
    {
      var targets: set<int> := {};
      for i := 0 to |userIds|
        invariant targets == set u | u in userIds[..i]
      {
        targets := targets + {userIds[i]};
      }
      assert userIds[..|userIds|] == userIds;
      var addressed := set c | c in clients && c.userId in targets;
      assert addressed == ClientsOf(View(), userIds);
      Deliver(addressed, payload);
    }
  }

  // ----- the index

  /** A registered client is in a room if and only if the room is in its sessions; members are
      registered; no stored room is empty. */
  ghost predicate Indexed<C>(h: Hub<C>) {
    && Tracked(h)
    && (forall s :: s in h.rooms ==> h.rooms[s] != {} && h.rooms[s] <= h.clients)
    && (forall c, s :: c in h.clients ==> (c in RoomOf(h, s) <==> s in h.peers[c].sessions))
  }

  /** Registering keeps the index exactly when the client is registered already, or fresh. */
  lemma AddKeepsIndexIff<C>(h: Hub<C>, c: C, peer: Peer)
    requires Indexed(h) && (c in h.peers ==> peer == h.peers[c])
    ensures Indexed(Added(h, c, peer)) <==> c in h.clients || peer.sessions == {}
  {
    var after := Added(h, c, peer);
    assert forall s :: RoomOf(after, s) == RoomOf(h, s);
    if c !in h.clients && peer.sessions != {} {
      var s := Member(peer.sessions);
      assert c !in RoomOf(after, s) && c in after.clients && after.peers[c].sessions == peer.sessions;
    }
  }

  /** Joining keeps the index exactly for registered clients. */
  lemma JoinKeepsIndexIff<C>(h: Hub<C>, c: C, s: int)
    requires Indexed(h) && c in h.peers
    ensures Indexed(Joined(h, c, s)) <==> c in h.clients
  {
    var after := Joined(h, c, s);
    assert c in after.rooms[s];
    forall d, t | d in h.clients && c in h.clients
      ensures d in RoomOf(after, t) <==> t in after.peers[d].sessions
    {
      assert d in RoomOf(h, t) <==> t in h.peers[d].sessions;
    }
  }

  lemma LeaveKeepsIndex<C>(h: Hub<C>, c: C, s: int)
    requires Indexed(h) && c in h.peers
    ensures Indexed(Left(h, c, s)) && c !in RoomOf(Left(h, c, s), s)
  {
    var after := Left(h, c, s);
    forall d, t | d in h.clients
      ensures d in RoomOf(after, t) <==> t in after.peers[d].sessions
    {
      assert d in RoomOf(h, t) <==> t in h.peers[d].sessions;
    }
  }

  /** A removed client is in no room. */
  lemma RemoveKeepsIndex<C>(h: Hub<C>, c: C)
    requires Indexed(h) && c in h.peers
    ensures Indexed(Removed(h, c)) && forall s :: c !in RoomOf(Removed(h, c), s)
  {
    var after := Removed(h, c);
    forall s
      ensures RoomOf(after, s) == RoomOf(h, s) - {c}
    {
      if c in h.clients {
        assert c in RoomOf(h, s) <==> s in h.peers[c].sessions;
      }
    }
    forall s | s in after.rooms
      ensures after.rooms[s] != {} && after.rooms[s] <= after.clients
    {
      assert after.rooms[s] == RoomOf(after, s) == h.rooms[s] - {c};
    }
    forall d, t | d in after.clients
      ensures d in RoomOf(after, t) <==> t in after.peers[d].sessions
    {
      assert d in RoomOf(h, t) <==> t in h.peers[d].sessions;
    }
  }

  lemma DeliverKeepsIndex<C>(h: Hub<C>, targets: set<C>, payload: string)
    requires Indexed(h)
    ensures Indexed(Delivered(h, targets, payload))
  {
    var after := Delivered(h, targets, payload);
    assert forall s :: RoomOf(after, s) == RoomOf(h, s);
  }

  // ----- runs

  datatype Op<C> =
    | Connect(c: C, userId: int)
    | Disconnect(c: C)
    | Join(c: C, s: int)
    | Leave(c: C, s: int)
    | ToRoom(s: int, payload: string)
    | ToUsers(userIds: seq<int>, payload: string)

  /** The socket handler: a connection is new when it is added, and only a registered one joins,
      leaves or is removed. */
  predicate Allowed<C(==)>(h: Hub<C>, op: Op<C>) {
    match op
    case Connect(c, _) => c !in h.peers
    case Disconnect(c) => c in h.clients && c in h.peers
    case Join(c, _) => c in h.clients && c in h.peers
    case Leave(c, _) => c in h.clients && c in h.peers
    case _ => true
  }

  function Apply<C>(h: Hub<C>, op: Op<C>): Hub<C>
    requires Allowed(h, op)
  {
    match op
    case Connect(c, userId) => Added(h, c, Peer(userId, {}, []))
    case Disconnect(c) => Removed(h, c)
    case Join(c, s) => Joined(h, c, s)
    case Leave(c, s) => Left(h, c, s)
    case ToRoom(s, payload) => Delivered(h, RoomOf(h, s), payload)
    case ToUsers(userIds, payload) => Delivered(h, ClientsOf(h, userIds), payload)
  }

  /** hubs[i] is the hub after i operations, from an empty hub. */
  ghost predicate Run<C>(ops: seq<Op<C>>, hubs: seq<Hub<C>>) {
    && |hubs| == |ops| + 1 && hubs[0] == Hub({}, map[], map[])
    && forall i :: 0 <= i < |ops| ==> Allowed(hubs[i], ops[i]) && hubs[i + 1] == Apply(hubs[i], ops[i])
  }

  lemma StepKeepsIndex<C>(h: Hub<C>, op: Op<C>)
    requires Indexed(h) && Allowed(h, op)
    ensures Indexed(Apply(h, op))
  {
    match op
    case Connect(c, userId) => AddKeepsIndexIff(h, c, Peer(userId, {}, []));
    case Disconnect(c) => RemoveKeepsIndex(h, c);
    case Join(c, s) => JoinKeepsIndexIff(h, c, s);
    case Leave(c, s) => LeaveKeepsIndex(h, c, s);
    case ToRoom(s, payload) => DeliverKeepsIndex(h, RoomOf(h, s), payload);
    case ToUsers(userIds, payload) => DeliverKeepsIndex(h, ClientsOf(h, userIds), payload);
  }

  /** Under any interleaving the two directions of the index agree. */
  lemma {:induction false} RunKeepsIndex<C>(ops: seq<Op<C>>, hubs: seq<Hub<C>>, i: nat)
    requires Run(ops, hubs) && i < |hubs|
    ensures Indexed(hubs[i])
  {
    if i > 0 {
      RunKeepsIndex(ops, hubs, i - 1);
      StepKeepsIndex(hubs[i - 1], ops[i - 1]);
    } else {
      assert hubs[0] == Hub({}, map[], map[]);
    }
  }

  /** What an operation sends to c, judged by the client's own state alone. */
  function Addressed<C(==)>(h: Hub<C>, op: Op<C>, c: C): seq<string> {
    if c !in h.clients || c !in h.peers then []
    else
      match op
      case ToRoom(s, payload) => if s in h.peers[c].sessions then [payload] else []
      case ToUsers(userIds, payload) => if h.peers[c].userId in userIds then [payload] else []
      case _ => []
  }

  function Mail<C(==)>(ops: seq<Op<C>>, hubs: seq<Hub<C>>, c: C, i: nat): seq<string>
    requires i <= |ops| && |hubs| == |ops| + 1
  {
    if i == 0 then [] else Mail(ops, hubs, c, i - 1) + Addressed(hubs[i - 1], ops[i - 1], c)
  }

  lemma StepDelivers<C>(h: Hub<C>, op: Op<C>, c: C)
    requires Indexed(h) && Allowed(h, op) && c in Apply(h, op).peers
    ensures Apply(h, op).peers[c].inbox == (if c in h.peers then h.peers[c].inbox else []) + Addressed(h, op, c)
  {
    if op.ToRoom? && c in h.clients {
      assert c in RoomOf(h, op.s) <==> op.s in h.peers[c].sessions;
    }
  }

  lemma StepKnows<C>(h: Hub<C>, op: Op<C>, c: C)
    requires Allowed(h, op) && c !in h.peers && Tracked(h)
    ensures c in Apply(h, op).peers ==> op.Connect? && op.c == c
    ensures Addressed(h, op, c) == []
  {
  }

  /** In every run a client has received exactly the payloads sent, while it was registered, to a
      session it had joined or to its user, each once and in order. */
  lemma {:induction false} InboxIsMail<C>(ops: seq<Op<C>>, hubs: seq<Hub<C>>, c: C, i: nat)
    requires Run(ops, hubs) && i < |hubs|
    ensures if c in hubs[i].peers then hubs[i].peers[c].inbox == Mail(ops, hubs, c, i) else Mail(ops, hubs, c, i) == []
  {
    if i > 0 {
      var before, op := hubs[i - 1], ops[i - 1];
      InboxIsMail(ops, hubs, c, i - 1);
      RunKeepsIndex(ops, hubs, i - 1);
      if c in Apply(before, op).peers {
        StepDelivers(before, op, c);
      } else {
        assert c !in before.peers;
        StepKnows(before, op, c);
      }
    } else {
      assert hubs[0].peers == map[];
    }
  }

  // ----- the index told from the operations alone

  /** Among the first i operations c connected and did not disconnect since. */
  ghost predicate Online<C(!new)>(ops: seq<Op<C>>, c: C, i: nat)
    requires i <= |ops|
  {
    exists k, user :: 0 <= k < i && ops[k] == Connect(c, user) && Stays(ops, c, k, i)
  }

  predicate Stays<C(==)>(ops: seq<Op<C>>, c: C, k: nat, i: nat)
    requires i <= |ops|
  {
    forall j :: k < j < i ==> ops[j] != Disconnect(c)
  }

  /** Among the first i operations c joined the session and neither left it nor disconnected since. */
  ghost predicate InRoom<C(!new)>(ops: seq<Op<C>>, c: C, s: int, i: nat)
    requires i <= |ops|
  {
    exists k :: 0 <= k < i && JoinedAt(ops, c, s, k, i)
  }

  predicate JoinedAt<C(==)>(ops: seq<Op<C>>, c: C, s: int, k: nat, i: nat)
    requires k < i <= |ops|
  {
    ops[k] == Join(c, s) && forall j :: k < j < i ==> ops[j] != Leave(c, s) && ops[j] != Disconnect(c)
  }

  lemma StepMembers<C>(h: Hub<C>, op: Op<C>, c: C, s: int)
    requires Indexed(h) && Allowed(h, op)
    ensures var after := Apply(h, op);
            && (c in after.clients <==> (op.Connect? && op.c == c) || (c in h.clients && op != Disconnect(c)))
            && (c in RoomOf(after, s) <==>
                op == Join(c, s) || (c in RoomOf(h, s) && op != Leave(c, s) && op != Disconnect(c)))
            && (c in after.peers <==> (op.Connect? && op.c == c) || c in h.peers)
            && (c in after.peers ==>
                  after.peers[c].userId == if op.Connect? && op.c == c then op.userId else h.peers[c].userId)
  {
    if op == Disconnect(c) {
      RemoveKeepsIndex(h, c);
    }
  }

  /** After every run a client is registered exactly if it connected and did not disconnect since,
      and in a room exactly if it joined it and neither left it nor disconnected since. */
  lemma {:induction false} RoomsTellHistory<C(!new)>(ops: seq<Op<C>>, hubs: seq<Hub<C>>, c: C, s: int, i: nat)
    requires Run(ops, hubs) && i < |hubs|
    ensures c in hubs[i].clients <==> Online(ops, c, i)
    ensures c in RoomOf(hubs[i], s) <==> InRoom(ops, c, s, i)
    ensures c in hubs[i].peers ==> exists k :: 0 <= k < i && ops[k] == Connect(c, hubs[i].peers[c].userId)
  {
    hide Indexed, Apply;
    if i == 0 {
      assert hubs[0] == Hub({}, map[], map[]);
    } else {
      var n := i - 1;
      RoomsTellHistory(ops, hubs, c, s, n);
      RunKeepsIndex(ops, hubs, n);
      StepMembers(hubs[n], ops[n], c, s);
      OnlineStep(ops, c, n);
      InRoomStep(ops, c, s, n);
    }
  }

  lemma OnlineStep<C(!new)>(ops: seq<Op<C>>, c: C, n: nat)
    requires n < |ops|
    ensures Online(ops, c, n + 1) <==>
            (ops[n].Connect? && ops[n].c == c) || (Online(ops, c, n) && ops[n] != Disconnect(c))
  {
    if ops[n].Connect? && ops[n].c == c {
      assert ops[n] == Connect(c, ops[n].userId) && Stays(ops, c, n, n + 1);
    }
    if Online(ops, c, n) && ops[n] != Disconnect(c) {
      var k, user :| 0 <= k < n && ops[k] == Connect(c, user) && Stays(ops, c, k, n);
      assert Stays(ops, c, k, n + 1);
    }
    if Online(ops, c, n + 1) && !(ops[n].Connect? && ops[n].c == c) {
      var m := n + 1;
      var k, user :| 0 <= k < m && ops[k] == Connect(c, user) && Stays(ops, c, k, m);
      assert Stays(ops, c, k, n);
    }
  }

  lemma InRoomStep<C(!new)>(ops: seq<Op<C>>, c: C, s: int, n: nat)
    requires n < |ops|
    ensures InRoom(ops, c, s, n + 1) <==>
            ops[n] == Join(c, s) || (InRoom(ops, c, s, n) && ops[n] != Leave(c, s) && ops[n] != Disconnect(c))
  {
    if ops[n] == Join(c, s) {
      assert JoinedAt(ops, c, s, n, n + 1);
    }
    if InRoom(ops, c, s, n) && ops[n] != Leave(c, s) && ops[n] != Disconnect(c) {
      var k :| 0 <= k < n && JoinedAt(ops, c, s, k, n);
      assert JoinedAt(ops, c, s, k, n + 1);
    }
    if InRoom(ops, c, s, n + 1) && ops[n] != Join(c, s) {
      var m := n + 1;
      var k :| 0 <= k < m && JoinedAt(ops, c, s, k, m);
      assert JoinedAt(ops, c, s, k, n);
    }
  }
}

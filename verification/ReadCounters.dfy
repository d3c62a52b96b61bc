/** Read and unread counters of a chat session (chat/chat_helpers.go). */
module ReadCounters {
  import opened Collections

  datatype Message = Message(id: int, senderId: int, messageType: string, status: string)

  // ----- participants

  /** The creator, then the positive ids in order, each once. */
  function Participants(current: int, userIds: seq<int>): seq<int> {
    if userIds == [] then [current]
    else
      var ids, id := Participants(current, userIds[..|userIds| - 1]), userIds[|userIds| - 1];
      if id <= 0 || id in ids then ids else ids + [id]
  }

  method BuildParticipantIds(current: int, userIds: seq<int>) returns (ids: seq<int>)
    ensures ids == Participants(current, userIds)
  {
    ids := [current];
    var seen := {current};
    for i := 0 to |userIds|
      invariant ids == Participants(current, userIds[..i]) && seen == Elems(ids)
    {
      assert userIds[..i + 1][..i] == userIds[..i];
      if userIds[i] <= 0 || userIds[i] in seen {
        continue;
      }
      seen := seen + {userIds[i]};
      ids := ids + [userIds[i]];
    }
    assert userIds[..|userIds|] == userIds;
  }

  lemma {:induction false} ParticipantsOnce(current: int, userIds: seq<int>)
    ensures var ids := Participants(current, userIds);
            && Distinct(ids) && ids != [] && ids[0] == current
            && forall id :: id in ids <==> id == current || (id > 0 && id in userIds)
  {
    if userIds != [] {
      var n := |userIds| - 1;
      ParticipantsOnce(current, userIds[..n]);
      assert userIds == userIds[..n] + [userIds[n]];
    }
  }

  // ----- the counters

  /** A message that counts as unread at all. */
  predicate Countable(m: Message) {
    m.messageType != "SYSTEM" && m.status != "REVOKED"
  }

  /** Position i holds a message that user, having read up to lastRead, has not read. */
  predicate UnreadAt(user: int, lastRead: int, messages: seq<Message>, i: int)
    requires 0 <= i < |messages|
  {
    messages[i].id > lastRead && messages[i].senderId != user && Countable(messages[i])
  }

  function UnreadPositions(user: int, lastRead: int, messages: seq<Message>): set<int> {
    set i | 0 <= i < |messages| && UnreadAt(user, lastRead, messages, i)
  }

  method UnreadCountAfterMessage(user: int, lastRead: int, messages: seq<Message>) returns (count: int)
    ensures count == |UnreadPositions(user, lastRead, messages)|
  {
    count := 0;
    for i := 0 to |messages|
      invariant count == |UnreadPositions(user, lastRead, messages[..i])|
    {
      UnreadSnoc(user, lastRead, messages[..i], messages[i]);
      assert messages[..i + 1] == messages[..i] + [messages[i]];
      if messages[i].id <= lastRead {
        continue;
      }
      if messages[i].senderId == user || messages[i].messageType == "SYSTEM" || messages[i].status == "REVOKED" {
        continue;
      }
      count := count + 1;
    }
    assert messages[..|messages|] == messages;
  }

  lemma UnreadSnoc(user: int, lastRead: int, messages: seq<Message>, m: Message)
    ensures |UnreadPositions(user, lastRead, messages + [m])| ==
            |UnreadPositions(user, lastRead, messages)| + if m.id > lastRead && m.senderId != user &&
                Countable(m) then 1 else 0
  {
    var n := |messages|;
    var before, after := UnreadPositions(user, lastRead, messages), UnreadPositions(user, lastRead, messages + [m]);
    assert forall i :: 0 <= i < n ==>
             UnreadAt(user, lastRead, messages + [m], i) == UnreadAt(user, lastRead, messages, i);
    assert after == if UnreadAt(user, lastRead, messages + [m], n) then before + {n} else before;
  }

  /** The users other than the sender who have read up to a message. */
  function Readers(messageId: int, senderId: int, readUpTo: map<int, int>): set<int> {
    set u | u in readUpTo && u != senderId && readUpTo[u] >= messageId
  }

  method ReadCountForMessage(messageId: int, senderId: int, readUpTo: map<int, int>) returns (count: int)
    ensures count == |Readers(messageId, senderId, readUpTo)|
  {
    count := 0;
    var rest := readUpTo.Keys;
    ghost var counted: set<int> := {};
    while rest != {}
      invariant rest <= readUpTo.Keys && count == |counted|
      invariant counted == set u | u in Readers(messageId, senderId, readUpTo) && u !in rest
      decreases |rest|
    {
      ghost var some := Member(rest);
      var user :| user in rest;
      rest := rest - {user};
      if user == senderId {
        continue;
      }
      if readUpTo[user] >= messageId {
        count, counted := count + 1, counted + {user};
      }
    }
    assert counted == Readers(messageId, senderId, readUpTo);
  }

  /** A user who has read up to message k has unread what others sent after it, of the messages
      neither SYSTEM nor REVOKED, and counts as a reader of others' messages up to it. */
  lemma ReadUpToMessage(messages: seq<Message>, k: nat, user: int, readUpTo: map<int, int>)
    requires k < |messages| && forall i, j :: 0 <= i < j < |messages| ==> messages[i].id < messages[j].id
    requires user in readUpTo && readUpTo[user] == messages[k].id
    ensures UnreadPositions(user, readUpTo[user], messages) ==
            set i | k < i < |messages| && messages[i].senderId != user && messages[i].messageType != "SYSTEM" &&
                messages[i].status != "REVOKED"
    ensures forall i :: 0 <= i < |messages| ==>
              (user in Readers(messages[i].id, messages[i].senderId, readUpTo) <==>
               i <= k && messages[i].senderId != user)
  {
    assert forall i :: 0 <= i < |messages| ==> (messages[i].id > messages[k].id <==> i > k);
  }

  // ----- conservation

  lemma NonEmpty(s: set<int>)
    requires s != {}
    ensures exists x :: x in s
  {
    var some := Member(s);
  }

  ghost function Pick(s: set<int>): (x: int)
    requires s != {}
    ensures x in s
  {
    NonEmpty(s);
    var x :| x in s;
    x
  }

  ghost function Sum(users: set<int>, f: int -> int): int {
    if users == {} then 0 else f(Pick(users)) + Sum(users - {Pick(users)}, f)
  }

  lemma {:induction false} SumAdds(users: set<int>, f: int -> int, g: int -> int, h: int -> int)
    requires forall u :: u in users ==> h(u) == f(u) + g(u)
    ensures Sum(users, h) == Sum(users, f) + Sum(users, g)
  {
    if users != {} {
      SumAdds(users - {Pick(users)}, f, g, h);
    }
  }

  lemma {:induction false} SumCounts(users: set<int>, f: int -> int, chosen: set<int>)
    requires forall u :: u in users ==> f(u) == if u in chosen then 1 else 0
    ensures Sum(users, f) == |users * chosen|
  {
    if users != {} {
      var u := Pick(users);
      SumCounts(users - {u}, f, chosen);
      var rest := (users - {u}) * chosen;
      assert users * chosen == if u in chosen then rest + {u} else rest;
    }
  }

  ghost function UnreadOf(readUpTo: map<int, int>, messages: seq<Message>): int -> int {
    u => if u in readUpTo then |UnreadPositions(u, readUpTo[u], messages)| else 0
  }

  /** All participants' unread counts together. */
  ghost function TotalUnread(readUpTo: map<int, int>, messages: seq<Message>): int {
    Sum(readUpTo.Keys, UnreadOf(readUpTo, messages))
  }

  /** The read counts of all messages that can be unread, together. */
  function TotalRead(readUpTo: map<int, int>, messages: seq<Message>): int {
    if messages == [] then 0
    else
      var m := messages[|messages| - 1];
      TotalRead(readUpTo, messages[..|messages| - 1]) + if Countable(m) then |Readers(m.id, m.senderId, readUpTo)|
          else 0
  }

  /** The pairs of such a message and a participant other than its sender. */
  function Pairs(readUpTo: map<int, int>, messages: seq<Message>): set<(int, int)> {
    set i, u | 0 <= i < |messages| && messages[i].messageType != "SYSTEM" && messages[i].status != "REVOKED" &&
        u in readUpTo && u != messages[i].senderId :: (i, u)
  }

  function Others(readUpTo: map<int, int>, m: Message): set<int> {
    set u | u in readUpTo && u != m.senderId
  }

  function Row(i: int, users: set<int>): set<(int, int)> {
    set u | u in users :: (i, u)
  }

  lemma {:induction false} RowSize(i: int, users: set<int>)
    ensures |Row(i, users)| == |users|
  {
    if users != {} {
      var x := Pick(users);
      RowSize(i, users - {x});
      assert Row(i, users) == Row(i, users - {x}) + {(i, x)};
    }
  }

  predicate IsPair(readUpTo: map<int, int>, messages: seq<Message>, i: int, u: int) {
    && 0 <= i < |messages| && messages[i].messageType != "SYSTEM" && messages[i].status != "REVOKED"
    && u in readUpTo && u != messages[i].senderId
  }

  lemma PairsMeaning(readUpTo: map<int, int>, messages: seq<Message>, p: (int, int))
    ensures p in Pairs(readUpTo, messages) <==> IsPair(readUpTo, messages, p.0, p.1)
  {
    if IsPair(readUpTo, messages, p.0, p.1) {
      assert p == (p.0, p.1);
    }
  }

  /** The others to whom one message counts. */
  function Concerned(readUpTo: map<int, int>, m: Message): set<int> {
    if Countable(m) then Others(readUpTo, m) else {}
  }

  lemma PairsGrow(readUpTo: map<int, int>, messages: seq<Message>, m: Message)
    ensures Pairs(readUpTo, messages + [m]) == Pairs(readUpTo, messages) + Row(|messages|, Concerned(readUpTo, m))
    ensures Pairs(readUpTo, messages) !! Row(|messages|, Concerned(readUpTo, m))
  {
    hide Pairs;
    var before, after, row := Pairs(readUpTo, messages), Pairs(readUpTo, messages + [m]),
        Row(|messages|, Concerned(readUpTo, m));
    forall p: (int, int)
      ensures p in after <==> p in before + row
      ensures !(p in before && p in row)
    {
      PairsMeaning(readUpTo, messages, p);
      PairsMeaning(readUpTo, messages + [m], p);
      assert p == (p.0, p.1);
    }
  }

  lemma PairsSnoc(readUpTo: map<int, int>, messages: seq<Message>, m: Message)
    ensures |Pairs(readUpTo, messages + [m])| == |Pairs(readUpTo, messages)| + |Concerned(readUpTo, m)|
  {
    hide Pairs, Row, Concerned;
    PairsGrow(readUpTo, messages, m);
    RowSize(|messages|, Concerned(readUpTo, m));
  }

  /** The others who have one more unread message by it. */
  function NewlyUnread(readUpTo: map<int, int>, m: Message): set<int> {
    Concerned(readUpTo, m) - Readers(m.id, m.senderId, readUpTo)
  }

  lemma UnreadStep(readUpTo: map<int, int>, messages: seq<Message>, m: Message, u: int)
    requires u in readUpTo
    ensures UnreadOf(readUpTo, messages + [m])(u) ==
            UnreadOf(readUpTo, messages)(u) + if u in NewlyUnread(readUpTo, m) then 1 else 0
  {
    hide UnreadPositions;
    UnreadSnoc(u, readUpTo[u], messages, m);
  }

  lemma TotalUnreadStep(readUpTo: map<int, int>, messages: seq<Message>, m: Message)
    ensures TotalUnread(readUpTo, messages + [m]) == TotalUnread(readUpTo, messages) + |NewlyUnread(readUpTo, m)|
  {
    hide UnreadOf, NewlyUnread;
    var unread := NewlyUnread(readUpTo, m);
    var one := (u: int) => if u in unread then 1 else 0;
    forall u | u in readUpTo.Keys
      ensures UnreadOf(readUpTo, messages + [m])(u) == UnreadOf(readUpTo, messages)(u) + one(u)
    {
      UnreadStep(readUpTo, messages, m, u);
    }
    SumAdds(readUpTo.Keys, UnreadOf(readUpTo, messages), one, UnreadOf(readUpTo, messages + [m]));
    SumCounts(readUpTo.Keys, one, unread);
    assert readUpTo.Keys * unread == unread by {
      NewlyUnreadKnown(readUpTo, m);
    }
  }

  lemma NewlyUnreadKnown(readUpTo: map<int, int>, m: Message)
    ensures NewlyUnread(readUpTo, m) <= readUpTo.Keys
  {
  }

  /** Every participant other than the sender has read a message or has it unread. */
  lemma ReadOrUnread(readUpTo: map<int, int>, m: Message)
    ensures |NewlyUnread(readUpTo, m)| + (if Countable(m) then |Readers(m.id, m.senderId, readUpTo)| else 0) ==
            |Concerned(readUpTo, m)|
  {
    if Countable(m) {
      assert Concerned(readUpTo, m) == NewlyUnread(readUpTo, m) + Readers(m.id, m.senderId, readUpTo);
    }
  }

  /** Conservation of read state: unread counts and read counts add up to the pairs of a message
      and a participant other than its sender, over the messages that are neither SYSTEM nor
      REVOKED. */
  lemma {:induction false} ReadStateConserved(readUpTo: map<int, int>, messages: seq<Message>)
    ensures TotalUnread(readUpTo, messages) + TotalRead(readUpTo, messages) == |Pairs(readUpTo, messages)|
  {
    if messages == [] {
      SumCounts(readUpTo.Keys, UnreadOf(readUpTo, []), {});
      assert Pairs(readUpTo, []) == {};
    } else {
      var n := |messages| - 1;
      var m := messages[n];
      assert messages == messages[..n] + [m];
      ReadStateConserved(readUpTo, messages[..n]);
      PairsSnoc(readUpTo, messages[..n], m);
      TotalUnreadStep(readUpTo, messages[..n], m);
      ReadOrUnread(readUpTo, m);
    }
  }
}

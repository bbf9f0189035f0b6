/** The chat server's shared state and the operations that change it. Each
    method is one section run under the server's lock (or, for the relay,
    one connection's loop), proved against the transitions of Matchmaking
    and Relay. */
module ChatServer {
  import opened Users
  import opened Queue
  import opened Matchmaking
  import opened Relay

  /** The search-and-splice loop of the teardown: scan the list front to
      back and cut out the first entry whose ID is `id`, then stop. */
  method SpliceFirst(w: seq<User>, id: string) returns (r: seq<User>)
    ensures r == RemoveFirst(w, id)
    ensures forall u :: u in r ==> u in w
  {
    r := w;
    var i := 0;
    while i < |r|
      invariant 0 <= i <= |r| && r == w
      invariant forall j :: 0 <= j < i ==> r[j].id != id
    {
      if r[i].id == id {
        r := r[..i] + r[i + 1..];
        assert forall u :: u in r ==> u in w;
        break;
      }
      i := i + 1;
    }
    RemoveFirstSplices(w, id);
  }

  /** Position of the first candidate ID not in the registry `taken`, or
      |ids| when all of them are taken. */
  function FirstFree(ids: seq<string>, taken: map<string, User>): (i: nat)
    ensures i <= |ids|
    ensures i < |ids| ==> ids[i] !in taken
    ensures forall k :: 0 <= k < i ==> ids[k] in taken
  {
    if ids == [] then 0
    else if ids[0] !in taken then 0
    else 1 + FirstFree(ids[1..], taken)
  }

  class Server {
    /** The registry: user ID to the user holding it. */
    var clients: map<string, User>
    /** Users waiting for a partner, longest-waiting first. */
    var waitingList: seq<User>
    /** Every user object created so far, registered or not. */
    ghost var known: set<User>

    ghost predicate Valid()
      reads this, known
    {
      && (forall id :: id in clients ==> clients[id] in known)
      && (forall i :: 0 <= i < |waitingList| ==> waitingList[i] in known)
      && (forall u :: u in known && u.peer != null ==> u.peer in known)
    }

    /** The state as a value: registry, list and every known peer field. */
    ghost function Abs(): State
      reads this, known
    {
      State(clients, waitingList, map u | u in known :: u.peer)
    }

    constructor ()
      ensures Valid() && known == {} && Abs() == Empty && Inv(Abs())
    {
      clients := map[];
      waitingList := [];
      known := {};
    }

    /** One round of matching: take the two users at the front of the list
        and make each the other's peer. */
    method PairFrontTwo() returns (a: User, b: User)
      requires Valid() && |waitingList| >= 2
      modifies this, waitingList[0], waitingList[1]
      ensures Valid() && known == old(known) && clients == old(clients)
      ensures a == old(waitingList[0]) && b == old(waitingList[1])
      ensures waitingList == old(waitingList[2..])
      ensures Abs() == PairFront(old(Abs()))
    {
      ghost var before := Abs();
      a := waitingList[0];
      b := waitingList[1];
      waitingList := waitingList[2..];
      a.peer := b;
      b.peer := a;
      assert Abs().peerOf == before.peerOf[a := b][b := a];
    }

    /** Pair waiting users two at a time from the front of the list until
        fewer than two wait, and tell both members of each pair who their
        partner is. */
    method MatchUsers() returns (notices: seq<Delivery>)
      requires Valid()
      modifies this, waitingList
      ensures Valid() && known == old(known)
      ensures Abs() == Match(old(Abs()))
      ensures notices == MatchNotices(old(waitingList))
    {
      notices := [];
      while |waitingList| >= 2
        invariant Valid() && known == old(known) && clients == old(clients)
        invariant forall i :: 0 <= i < |waitingList| ==> waitingList[i] in old(waitingList)
        invariant Match(Abs()) == Match(old(Abs()))
        invariant notices + MatchNotices(waitingList) == MatchNotices(old(waitingList))
        decreases |waitingList|
      {
        ghost var s, w := Abs(), waitingList;
        var a, b := PairFrontTwo();
        var pair := [Delivery(a, Matched(a.id, b.id)), Delivery(b, Matched(b.id, a.id))];
        assert MatchNotices(w) == pair + MatchNotices(waitingList);
        assert Match(s) == Match(Abs());
        notices := notices + pair;
      }
    }

    /** A new connection as the server handles it: acknowledge, register the
        user under `userID` (whether or not the ID is taken), queue it at the
        tail, then run matching. */
    method ConnectAsWritten(userID: string) returns (user: User, notices: seq<Delivery>)
      requires Valid()
      modifies this, waitingList
      ensures Valid() && fresh(user) && user.id == userID
      ensures known == old(known) + {user}
      ensures Abs() == Join(old(Abs()), user)
      ensures notices == [Delivery(user, Connected(userID))] + MatchNotices(old(waitingList) + [user])
    {
      user := new User(userID);
      notices := [Delivery(user, Connected(userID))];
      clients := clients[userID := user];
      waitingList := waitingList + [user];
      known := known + {user};
      assert Abs() == Register(old(Abs()), user);
      var matched := MatchUsers();
      notices := notices + matched;
    }

    /** A new connection whose ID is checked first: an ID already in the
        registry is refused (null) and nothing changes, so the caller can
        draw another; otherwise the connection proceeds as above. Unlike
        ConnectAsWritten, this keeps the invariant. */
    method Connect(userID: string) returns (user: User?, notices: seq<Delivery>)
      requires Valid()
      modifies this, waitingList
      ensures Valid()
      ensures user == null <==> userID in old(clients)
      ensures user == null ==> notices == [] && known == old(known) && Abs() == old(Abs())
      ensures user != null ==>
                && fresh(user) && user.id == userID && known == old(known) + {user}
                && Abs() == Join(old(Abs()), user) && Registered(Abs(), user)
                && notices == [Delivery(user, Connected(userID))] + MatchNotices(old(waitingList) + [user])
      ensures old(Inv(Abs())) ==> Inv(Abs())
    {
      if userID in clients {
        user, notices := null, [];
      } else {
        var u;
        u, notices := ConnectAsWritten(userID);
        user := u;
        MatchLeavesOdd(Register(old(Abs()), u));
        if old(Inv(Abs())) {
          InvJoin(old(Abs()), u);
        }
      }
    }

    /** Registration with redrawing: the candidate IDs are drawn in turn
        until one is free, and the connection is registered under it. When
        every candidate is taken nothing is registered. */
    method ConnectFirstFree(ids: seq<string>) returns (user: User?, notices: seq<Delivery>)
      requires Valid()
      modifies this, waitingList
      ensures Valid()
      ensures user == null <==> FirstFree(ids, old(clients)) == |ids|
      ensures user == null ==> notices == [] && known == old(known) && Abs() == old(Abs())
      ensures user != null ==>
                && FirstFree(ids, old(clients)) < |ids| && user.id == ids[FirstFree(ids, old(clients))]
                && fresh(user) && known == old(known) + {user}
                && Abs() == Join(old(Abs()), user) && Registered(Abs(), user)
                && notices == [Delivery(user, Connected(user.id))] + MatchNotices(old(waitingList) + [user])
      ensures old(Inv(Abs())) ==> Inv(Abs())
    {
      var i := 0;
      while i < |ids| && ids[i] in clients
        invariant 0 <= i <= |ids|
        invariant forall k :: 0 <= k < i ==> ids[k] in clients
      {
        i := i + 1;
      }
      if i == |ids| {
        user, notices := null, [];
        return;
      }
      user, notices := Connect(ids[i]);
    }

    /** The first half of a teardown: if `user` has a peer, tell the peer,
        clear the peer's peer and queue the peer at the tail. */
    method ReleasePeer(user: User) returns (notices: seq<Delivery>)
      requires Valid() && user in known
      modifies this, user.peer
      ensures Valid() && known == old(known) && clients == old(clients)
      ensures notices == TeardownNotices(old(Abs()), user)
      ensures var s, p := old(Abs()), old(user.peer);
              Abs() == if p == null then s else State(s.clients, s.waiting + [p], s.peerOf[p := null])
    {
      ghost var s := Abs();
      notices := [];
      if user.peer != null {
        var p := user.peer;
        notices := [Delivery(p, PeerDisconnected(user.id))];
        p.peer := null;
        waitingList := waitingList + [p];
        assert Abs().peerOf == s.peerOf[p := null];
      }
    }

    /** Tear `user` down: release its peer, if any; then drop the user's ID
        from the registry and splice the first list entry with that ID. */
    method DisconnectUser(user: User) returns (notices: seq<Delivery>)
      requires Valid() && user in known
      modifies this, user.peer
      ensures Valid() && known == old(known)
      ensures Abs() == Teardown(old(Abs()), user)
      ensures notices == TeardownNotices(old(Abs()), user)
      ensures old(Inv(Abs()) && Registered(Abs(), user)) ==> Inv(Abs())
    {
      notices := ReleasePeer(user);
      ghost var requeued := waitingList;
      ghost var peers := Abs().peerOf;
      clients := clients - {user.id};
      waitingList := SpliceFirst(waitingList, user.id);
      assert forall i :: 0 <= i < |waitingList| ==> waitingList[i] in requeued;
      assert Abs() == State(old(clients) - {user.id}, RemoveFirst(requeued, user.id), peers);
      if old(Inv(Abs()) && Registered(Abs(), user)) {
        InvTeardown(old(Abs()), user);
      }
    }

    /** A departure that also offers the requeued peer for matching: tear
        `user` down, then run matching. */
    method DisconnectAndMatch(user: User) returns (notices: seq<Delivery>)
      requires Valid() && user in known
      modifies this, known
      ensures Valid() && known == old(known)
      ensures Abs() == Leave(old(Abs()), user)
      ensures notices == TeardownNotices(old(Abs()), user) + MatchNotices(Teardown(old(Abs()), user).waiting)
      ensures old(Inv(Abs()) && Registered(Abs(), user)) ==> Inv(Abs()) && |waitingList| < 2
    {
      notices := DisconnectUser(user);
      var matched := MatchUsers();
      notices := notices + matched;
      if old(Inv(Abs()) && Registered(Abs(), user)) {
        LeaveRematches(old(Abs()), user);
      }
    }

    /** One connection's relay loop followed by its deferred teardown. The
        loop sees the peer the user has when it starts. */
    method HandleMessages(user: User, script: seq<Read>) returns (out: seq<Delivery>, exit: Exit)
      requires Valid() && user in known
      modifies this, user.peer
      ensures Valid() && known == old(known)
      ensures out == Run(user, old(user.peer), script).out + TeardownNotices(old(Abs()), user)
      ensures exit == Run(user, old(user.peer), script).exit
      ensures Abs() == Teardown(old(Abs()), user)
      ensures old(Inv(Abs()) && Registered(Abs(), user)) ==> Inv(Abs())
    {
      var relayed;
      relayed, exit := RelayLoop(user, user.peer, script);
      var notices := DisconnectUser(user);
      out := relayed + notices;
    }

    /** One connection's relay loop followed by a teardown that matches
        again. */
    method HandleMessagesRematching(user: User, script: seq<Read>) returns (out: seq<Delivery>, exit: Exit)
      requires Valid() && user in known
      modifies this, known
      ensures Valid() && known == old(known)
      ensures out == Run(user, old(user.peer), script).out
                     + (TeardownNotices(old(Abs()), user) + MatchNotices(Teardown(old(Abs()), user).waiting))
      ensures exit == Run(user, old(user.peer), script).exit
      ensures Abs() == Leave(old(Abs()), user)
      ensures old(Inv(Abs()) && Registered(Abs(), user)) ==> Inv(Abs()) && |waitingList| < 2
    {
      var relayed;
      relayed, exit := RelayLoop(user, user.peer, script);
      var notices := DisconnectAndMatch(user);
      out := relayed + notices;
    }

    /** A whole connection as the server handles it: nothing happens if
        the upgrade failed; otherwise register under `userID` unchecked,
        relay until the loop ends, and tear down without matching. */
    method HandleWebSocketAsWritten(upgraded: bool, userID: string, script: seq<Read>)
      returns (user: User?, out: seq<Delivery>)
      requires Valid()
      modifies this, known
      ensures Valid()
      ensures !upgraded ==> user == null && out == [] && Abs() == old(Abs())
      ensures upgraded ==>
                && user != null && user.id == userID
                && var j := Join(old(Abs()), user);
                   && user in j.peerOf
                   && Abs() == Teardown(j, user)
                   && out == [Delivery(user, Connected(userID))] + MatchNotices(old(waitingList) + [user])
                             + Run(user, j.peerOf[user], script).out + TeardownNotices(j, user)
    {
      user, out := null, [];
      if !upgraded {
        return;
      }
      var u, notices := ConnectAsWritten(userID);
      var relayed, exit := HandleMessages(u, script);
      user, out := u, notices + relayed;
    }

    /** A whole connection with both corrections: nothing happens if the
        upgrade failed; otherwise register under the first free candidate
        ID, relay until the loop ends, tear down and match again. */
    method HandleWebSocket(upgraded: bool, ids: seq<string>, script: seq<Read>)
      returns (user: User?, out: seq<Delivery>)
      requires Valid()
      modifies this, known
      ensures Valid()
      ensures !upgraded ==> user == null
      ensures upgraded ==> (user == null <==> FirstFree(ids, old(clients)) == |ids|)
      ensures user == null ==> out == [] && Abs() == old(Abs())
      ensures user != null ==>
                && FirstFree(ids, old(clients)) < |ids| && user.id == ids[FirstFree(ids, old(clients))]
                && var j := Join(old(Abs()), user);
                   && user in j.peerOf
                   && Abs() == Leave(j, user)
                   && out == [Delivery(user, Connected(user.id))] + MatchNotices(old(waitingList) + [user])
                             + (Run(user, j.peerOf[user], script).out
                                + (TeardownNotices(j, user) + MatchNotices(Teardown(j, user).waiting)))
      ensures old(Inv(Abs())) ==> Inv(Abs())
    {
      user, out := null, [];
      if !upgraded {
        return;
      }
      var notices;
      user, notices := ConnectFirstFree(ids);
      if user == null {
        return;
      }
      var relayed, exit := HandleMessagesRematching(user, script);
      out := notices + relayed;
    }
  }
}

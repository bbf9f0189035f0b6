/** The matchmaking state as a value, and the transitions that the server's
    locked sections perform on it: registering a new user, pairing the
    waiting list two at a time from the front, and tearing a user down. */
module Matchmaking {
  import opened Users
  import opened Queue

  /** The shared state: the registry (ID to user), the FIFO waiting list,
      and the `peer` field of every user object created so far. */
  datatype State = State(clients: map<string, User>, waiting: seq<User>, peerOf: map<User, User?>)

  const Empty := State(map[], [], map[])

  /** A new user with no peer goes into the registry and to the tail of the
      waiting list. Nothing checks whether its ID is already taken. */
  function Register(s: State, u: User): State {
    State(s.clients[u.id := u], s.waiting + [u], s.peerOf[u := null])
  }

  /** One round of matching: the two front entries leave the list and are
      pointed at each other. */
  function PairFront(s: State): State
    requires |s.waiting| >= 2
  {
    var a, b := s.waiting[0], s.waiting[1];
    State(s.clients, s.waiting[2..], s.peerOf[a := b][b := a])
  }

  /** Pair the waiting list front to back until fewer than two are left. */
  function Match(s: State): State
    decreases |s.waiting|
  {
    if |s.waiting| < 2 then s else Match(PairFront(s))
  }

  /** The "matched" notices written while matching the list `w`. */
  function MatchNotices(w: seq<User>): seq<Delivery>
    decreases |w|
  {
    if |w| < 2 then []
    else [Delivery(w[0], Matched(w[0].id, w[1].id)), Delivery(w[1], Matched(w[1].id, w[0].id))]
         + MatchNotices(w[2..])
  }

  /** A connection: register, then match. */
  function Join(s: State, u: User): State {
    Match(Register(s, u))
  }

  /** Teardown of `u`: if it has a peer, the peer loses its peer and goes to
      the tail of the list; then `u`'s ID leaves the registry and the first
      list entry with that ID is spliced out. `u`'s own peer field is left. */
  function Teardown(s: State, u: User): State
    requires u in s.peerOf
  {
    var p := s.peerOf[u];
    var s1 := if p == null then s else State(s.clients, s.waiting + [p], s.peerOf[p := null]);
    State(s1.clients - {u.id}, RemoveFirst(s1.waiting, u.id), s1.peerOf)
  }

  /** The notice the peer of `u` gets when `u` is torn down. */
  function TeardownNotices(s: State, u: User): seq<Delivery>
    requires u in s.peerOf
  {
    if s.peerOf[u] == null then [] else [Delivery(s.peerOf[u], PeerDisconnected(u.id))]
  }

  /** The position paired with position `j` when a list is matched in twos. */
  function Mate(j: nat): nat {
    if j % 2 == 0 then j + 1 else j - 1
  }

  // ---------------------------------------------------------------------
  // The invariant of the shared state

  /** `u` is the registry's entry for its own ID. */
  ghost predicate Registered(s: State, u: User) {
    u.id in s.clients && s.clients[u.id] == u
  }

  ghost predicate Unpaired(s: State, u: User) {
    Registered(s, u) && u in s.peerOf && s.peerOf[u] == null
  }

  /** A registered user is either unpaired and waiting, or paired with a
      different registered user that points back at it. */
  ghost predicate Consistent(s: State, u: User) {
    && u in s.peerOf
    && (s.peerOf[u] == null ==> u in s.waiting)
    && (s.peerOf[u] != null ==>
          var v := s.peerOf[u];
          v != u && Registered(s, v) && v in s.peerOf && s.peerOf[v] == u)
  }

  ghost predicate Inv(s: State) {
    && (forall id :: id in s.clients ==> s.clients[id].id == id && s.clients[id] in s.peerOf)
    && Distinct(s.waiting)
    && (forall i :: 0 <= i < |s.waiting| ==> Unpaired(s, s.waiting[i]))
    && (forall id :: id in s.clients ==> Consistent(s, s.clients[id]))
  }

  // ---------------------------------------------------------------------
  // Matching

  /** The pairs that matching forms from the list `w`, front first. */
  function Pairs(w: seq<User>): seq<(User, User)>
    decreases |w|
  {
    if |w| < 2 then [] else [(w[0], w[1])] + Pairs(w[2..])
  }

  /** The users that matching the list `w` pairs. */
  function PairedSet(w: seq<User>): set<User>
    decreases |w|
  {
    if |w| < 2 then {} else {w[0], w[1]} + PairedSet(w[2..])
  }

  /** Matching forms floor(n/2) pairs from n waiting users, strictly in
      FIFO order: entries 2k and 2k+1 make the k-th pair; the paired users
      are exactly the first 2 * floor(n/2) entries. */
  lemma {:induction false} PairsFifo(w: seq<User>)
    ensures |Pairs(w)| == |w| / 2
    ensures forall k :: 0 <= k < |Pairs(w)| ==> Pairs(w)[k] == (w[2 * k], w[2 * k + 1])
    ensures forall u :: u in PairedSet(w) <==> u in w[..2 * (|w| / 2)]
    decreases |w|
  {
    if |w| >= 2 {
      var w' := w[2..];
      PairsFifo(w');
      forall k | 1 <= k < |Pairs(w)| ensures Pairs(w)[k] == (w[2 * k], w[2 * k + 1]) {
        assert Pairs(w)[k] == Pairs(w')[k - 1];
        assert w'[2 * (k - 1)] == w[2 * k] && w'[2 * (k - 1) + 1] == w[2 * k + 1];
      }
      assert w[..2 * (|w| / 2)] == w[..2] + w'[..2 * (|w'| / 2)];
    }
  }

  /** Matching leaves fewer than two users waiting, exactly the odd last
      one if there is one, and does not touch the registry. */
  lemma {:induction false} MatchLeavesOdd(s: State)
    ensures var r, w := Match(s), s.waiting;
            && r.clients == s.clients
            && r.waiting == w[2 * (|w| / 2)..]
            && |r.waiting| == |w| % 2
    decreases |s.waiting|
  {
    if |s.waiting| >= 2 {
      MatchLeavesOdd(PairFront(s));
      assert s.waiting[2..][2 * ((|s.waiting| - 2) / 2)..] == s.waiting[2 * (|s.waiting| / 2)..];
    }
  }

  lemma {:induction false} PairedSetWithin(w: seq<User>)
    ensures forall u :: u in PairedSet(w) ==> u in w
    decreases |w|
  {
    if |w| >= 2 {
      PairedSetWithin(w[2..]);
    }
  }

  /** `a` and `b` point at each other. */
  ghost predicate Linked(peerOf: map<User, User?>, a: User, b: User) {
    a in peerOf && peerOf[a] == b && b in peerOf && peerOf[b] == a
  }

  /** Matching points the two members of every pair at each other and
      leaves the peer field of every user outside the pairs as it was. */
  lemma {:induction false} MatchLinksPairs(s: State)
    requires Distinct(s.waiting)
    ensures Match(s).peerOf.Keys == s.peerOf.Keys + PairedSet(s.waiting)
    ensures forall k :: 0 <= k < |Pairs(s.waiting)| ==>
              Linked(Match(s).peerOf, Pairs(s.waiting)[k].0, Pairs(s.waiting)[k].1)
    ensures forall u :: u in s.peerOf && u !in PairedSet(s.waiting) ==> Match(s).peerOf[u] == s.peerOf[u]
    decreases |s.waiting|
  {
    var w := s.waiting;
    if |w| >= 2 {
      var s' := PairFront(s);
      var w' := s'.waiting;
      assert Distinct(w') by {
        forall i, j | 0 <= i < j < |w'| ensures w'[i] != w'[j] {
          assert w'[i] == w[i + 2] && w'[j] == w[j + 2];
        }
      }
      MatchLinksPairs(s');
      PairedSetWithin(w');
      assert w[0] !in w' && w[1] !in w' by {
        forall k | 0 <= k < |w'| ensures w'[k] != w[0] && w'[k] != w[1] {
          assert w'[k] == w[k + 2];
        }
      }
      var r, ps, ps' := Match(s'), Pairs(w), Pairs(w');
      assert w[0] != w[1];
      assert Linked(r.peerOf, w[0], w[1]);
      forall k | 0 <= k < |ps| ensures Linked(r.peerOf, ps[k].0, ps[k].1) {
        if k > 0 {
          assert ps[k] == ps'[k - 1];
        }
      }
    }
  }

  /** Matching n waiting users writes exactly two notices for each of the
      n / 2 pairs, to both members, naming the partner, in FIFO order. */
  lemma {:induction false} MatchNoticesFifo(w: seq<User>)
    ensures var ns := MatchNotices(w);
            && |ns| == 2 * (|w| / 2)
            && (forall j :: 0 <= j < |ns| ==> ns[j] == Delivery(w[j], Matched(w[j].id, w[Mate(j)].id)))
    decreases |w|
  {
    if |w| >= 2 {
      MatchNoticesFifo(w[2..]);
      var ns, rest := MatchNotices(w), MatchNotices(w[2..]);
      forall j | 2 <= j < |ns|
        ensures ns[j] == Delivery(w[j], Matched(w[j].id, w[Mate(j)].id))
      {
        assert ns[j] == rest[j - 2];
        assert w[j] == w[2..][j - 2] && w[Mate(j)] == w[2..][Mate(j - 2)];
      }
    }
  }

  lemma InvPairFront(s: State)
    requires Inv(s) && |s.waiting| >= 2
    ensures Inv(PairFront(s))
  {
    var w, a, b := s.waiting, s.waiting[0], s.waiting[1];
    var r := PairFront(s);
    assert a != b;
    assert Unpaired(s, a) && Unpaired(s, b);
    forall i | 0 <= i < |r.waiting| ensures Unpaired(r, r.waiting[i]) {
      assert r.waiting[i] == w[i + 2];
      assert Unpaired(s, w[i + 2]);
    }
    assert Distinct(r.waiting) by {
      forall i, j | 0 <= i < j < |r.waiting| ensures r.waiting[i] != r.waiting[j] {
        assert r.waiting[i] == w[i + 2] && r.waiting[j] == w[j + 2];
      }
    }
    forall id | id in r.clients ensures Consistent(r, r.clients[id]) {
      var x := s.clients[id];
      assert Consistent(s, x);
      if x != a && x != b {
        if s.peerOf[x] == null {
          var k :| 0 <= k < |w| && w[k] == x;
          assert k >= 2;
          assert r.waiting[k - 2] == x;
        } else {
          var v := s.peerOf[x];
          assert v != a && v != b;
        }
      }
    }
  }

  /** Matching keeps the invariant. */
  lemma {:induction false} InvMatch(s: State)
    requires Inv(s)
    ensures Inv(Match(s))
    decreases |s.waiting|
  {
    if |s.waiting| >= 2 {
      InvPairFront(s);
      InvMatch(PairFront(s));
    }
  }

  /** Registering a new user object under a free ID keeps the invariant. */
  lemma InvRegister(s: State, u: User)
    requires Inv(s) && u !in s.peerOf && u.id !in s.clients
    ensures Inv(Register(s, u))
  {
    var r := Register(s, u);
    forall i | 0 <= i < |r.waiting| ensures Unpaired(r, r.waiting[i]) {
      if i < |s.waiting| {
        assert Unpaired(s, s.waiting[i]);
        assert s.waiting[i] != u;
      }
    }
    forall id | id in r.clients ensures Consistent(r, r.clients[id]) {
      if id != u.id {
        var x := s.clients[id];
        assert Consistent(s, x) && x != u;
        if s.peerOf[x] != null {
          assert s.peerOf[x] != u;
        }
      }
    }
  }

  /** A connection under a free ID keeps the invariant. */
  lemma InvJoin(s: State, u: User)
    requires Inv(s) && u !in s.peerOf && u.id !in s.clients
    ensures Inv(Join(s, u))
  {
    InvRegister(s, u);
    InvMatch(Register(s, u));
  }

  // ---------------------------------------------------------------------
  // Teardown

  /** What teardown does to the list, for any state: after the optional
      requeue of the peer, only the first entry with the user's ID is
      spliced out and all others keep their order; with no such entry the
      list is kept as it is. The peer, if any, ends with no peer; no other
      peer field changes, and only the user's ID leaves the registry. */
  lemma TeardownSplices(s: State, u: User)
    requires u in s.peerOf
    ensures var r, p := Teardown(s, u), s.peerOf[u];
            var w1 := if p == null then s.waiting else s.waiting + [p];
            var i := IndexOf(w1, u.id);
            && r.clients == s.clients - {u.id}
            && r.waiting == (if i == |w1| then w1 else w1[..i] + w1[i + 1..])
            && r.peerOf == (if p == null then s.peerOf else s.peerOf[p := null])
  {
    var p := s.peerOf[u];
    RemoveFirstSplices(if p == null then s.waiting else s.waiting + [p], u.id);
  }

  /** In a consistent state, tearing down a paired user leaves its peer with
      no peer and waiting at the tail, behind everyone already waiting. */
  lemma TeardownRequeuesPeer(s: State, u: User)
    requires Inv(s) && Registered(s, u) && s.peerOf[u] != null
    ensures var r, p := Teardown(s, u), s.peerOf[u];
            && r.waiting == s.waiting + [p]
            && r.peerOf == s.peerOf[p := null]
            && Registered(r, p)
            && !Registered(r, u)
  {
    var p := s.peerOf[u];
    assert Consistent(s, u);
    forall j | 0 <= j < |s.waiting + [p]| ensures (s.waiting + [p])[j].id != u.id {
      if j < |s.waiting| {
        assert Unpaired(s, s.waiting[j]);
      }
    }
    RemoveFirstAbsent(s.waiting + [p], u.id);
  }

  /** In a consistent state, tearing down a waiting user takes it out of the
      list and keeps every other waiting user in order; no peer changes. */
  lemma TeardownLeavesQueue(s: State, u: User)
    requires Inv(s) && Registered(s, u) && s.peerOf[u] == null
    ensures var r, i := Teardown(s, u), IndexOf(s.waiting, u.id);
            && i < |s.waiting| && s.waiting[i] == u
            && r.waiting == s.waiting[..i] + s.waiting[i + 1..]
            && Distinct(r.waiting)
            && (forall x :: x in r.waiting <==> x in s.waiting && x != u)
            && r.peerOf == s.peerOf
  {
    assert Consistent(s, u);
    var k :| 0 <= k < |s.waiting| && s.waiting[k] == u;
    var i := IndexOf(s.waiting, u.id);
    assert i <= k;
    assert Unpaired(s, s.waiting[i]);
    TeardownSplices(s, u);
    SpliceKeepsOthers(s.waiting, i);
  }

  lemma InvTeardownWaiting(s: State, u: User)
    requires Inv(s) && Registered(s, u) && s.peerOf[u] == null
    ensures Inv(Teardown(s, u))
  {
    var r := Teardown(s, u);
    TeardownLeavesQueue(s, u);
    assert r.clients == s.clients - {u.id};
    forall j | 0 <= j < |r.waiting| ensures Unpaired(r, r.waiting[j]) {
      var x := r.waiting[j];
      assert x in s.waiting && x != u;
      var k :| 0 <= k < |s.waiting| && s.waiting[k] == x;
      assert Unpaired(s, s.waiting[k]);
    }
    forall id | id in r.clients ensures Consistent(r, r.clients[id]) {
      var x := s.clients[id];
      assert Consistent(s, x) && x != u;
      if s.peerOf[x] != null {
        assert s.peerOf[x] != u;
      }
    }
  }

  lemma InvTeardownPaired(s: State, u: User)
    requires Inv(s) && Registered(s, u) && s.peerOf[u] != null
    ensures Inv(Teardown(s, u))
  {
    var r, p := Teardown(s, u), s.peerOf[u];
    assert Consistent(s, u);
    TeardownRequeuesPeer(s, u);
    assert u !in s.waiting && p !in s.waiting by {
      forall k | 0 <= k < |s.waiting| ensures s.waiting[k] != u && s.waiting[k] != p {
        assert Unpaired(s, s.waiting[k]);
      }
    }
    forall j | 0 <= j < |r.waiting| ensures Unpaired(r, r.waiting[j]) {
      if j < |s.waiting| {
        assert Unpaired(s, s.waiting[j]);
        assert s.waiting[j] != u;
      }
    }
    forall id | id in r.clients ensures Consistent(r, r.clients[id]) {
      var x := s.clients[id];
      assert Consistent(s, x) && x != u;
      if x != p && s.peerOf[x] != null {
        var v := s.peerOf[x];
        assert v != u && v != p;
      }
    }
  }

  /** Tearing down a registered user keeps the invariant. */
  lemma InvTeardown(s: State, u: User)
    requires Inv(s) && Registered(s, u)
    ensures Inv(Teardown(s, u))
  {
    assert Consistent(s, u);
    if s.peerOf[u] == null {
      InvTeardownWaiting(s, u);
    } else {
      InvTeardownPaired(s, u);
    }
  }

  /** A departure that offers the requeued peer for matching at once:
      teardown, then match. */
  function Leave(s: State, u: User): State
    requires u in s.peerOf
  {
    Match(Teardown(s, u))
  }

  /** As written, a teardown never matches: when a paired user leaves while
      one other user waits, two unpaired users are left waiting, and they
      stay so until someone else connects. */
  lemma PairedLeaveStrandsTwo(s: State, u: User)
    requires Inv(s) && Registered(s, u) && s.peerOf[u] != null && |s.waiting| == 1
    ensures var r := Teardown(s, u);
            && |r.waiting| == 2
            && Unpaired(r, r.waiting[0]) && Unpaired(r, r.waiting[1])
  {
    TeardownRequeuesPeer(s, u);
    InvTeardown(s, u);
  }

  /** A departure followed by matching keeps the invariant and leaves at
      most one user waiting, so no two unpaired users are kept apart; the
      registry loses only the departing user's ID. */
  lemma LeaveRematches(s: State, u: User)
    requires Inv(s) && Registered(s, u)
    ensures var r := Leave(s, u);
            && Inv(r)
            && |r.waiting| < 2
            && r.clients == s.clients - {u.id}
  {
    var t := Teardown(s, u);
    InvTeardown(s, u);
    InvMatch(t);
    MatchLeavesOdd(t);
  }

  /** Teardown is not idempotent: a second teardown of the same user, whose
      own peer field was never cleared, puts its former peer on the list a
      second time. */
  lemma TeardownTwiceRequeuesAgain(s: State, u: User)
    requires Inv(s) && Registered(s, u) && s.peerOf[u] != null
    ensures var once, p := Teardown(s, u), s.peerOf[u];
            Teardown(once, u).waiting == once.waiting + [p] && Teardown(once, u) != once
  {
    var once, p := Teardown(s, u), s.peerOf[u];
    TeardownRequeuesPeer(s, u);
    InvTeardown(s, u);
    assert p != u && u in once.peerOf && once.peerOf[u] == p;
    forall j | 0 <= j < |once.waiting + [p]| ensures (once.waiting + [p])[j].id != u.id {
      if j < |once.waiting| {
        assert Unpaired(once, once.waiting[j]);
        assert once.waiting[j] != u;
      }
      assert Registered(once, p);
    }
    RemoveFirstAbsent(once.waiting + [p], u.id);
    assert |Teardown(once, u).waiting| != |once.waiting|;
  }

  // ---------------------------------------------------------------------
  // Scenarios

  /** Three users connect in turn: the first two are paired, the third
      waits. The first leaves: its peer is requeued behind the third. A
      fourth connects: the third and the second are paired, the fourth waits. */
  lemma ThreeThenFour(u1: User, u2: User, u3: User, u4: User)
    requires u1.id != u2.id && u1.id != u3.id && u1.id != u4.id
    requires u2.id != u3.id && u2.id != u4.id && u3.id != u4.id
    ensures var s3 := Join(Join(Join(Empty, u1), u2), u3);
            && s3.waiting == [u3] && u1 in s3.peerOf && u2 in s3.peerOf
            && s3.peerOf[u1] == u2 && s3.peerOf[u2] == u1
            && var s4 := Teardown(s3, u1);
               && s4.waiting == [u3, u2] && s4.peerOf[u2] == null
               && var s5 := Join(s4, u4);
                  && s5.waiting == [u4] && u3 in s5.peerOf && u2 in s5.peerOf
                  && s5.peerOf[u3] == u2 && s5.peerOf[u2] == u3
  {
    var s1 := Register(Empty, u1);
    assert Join(Empty, u1) == s1;
    var r2 := Register(s1, u2);
    assert r2.waiting == [u1, u2];
    var s2 := PairFront(r2);
    assert s2.waiting == [] && Match(s2) == s2;
    assert Match(r2) == Match(s2);
    var s3 := Register(s2, u3);
    assert s3.waiting == [u3];
    assert Join(s2, u3) == s3;
    var s4 := Teardown(s3, u1);
    RemoveFirstAbsent([u3, u2], u1.id);
    assert s4.waiting == [u3, u2];
    var r5 := Register(s4, u4);
    assert r5.waiting == [u3, u2, u4];
    var s5 := PairFront(r5);
    assert s5.waiting == [u4] && Match(s5) == s5;
    assert Match(r5) == Match(s5);
  }

  /** The registry is keyed by ID and nothing rejects an ID already in use.
      User `a1` is paired with `b`; `a2`, a different user that drew the same
      ID, connects and waits. When `a1` leaves, the registry entry for the ID
      (which is `a2`'s) is deleted and the first waiting entry with the ID
      (which is `a2`) is spliced out: `a2` is still connected, yet neither
      registered nor waiting nor paired, so it is never matched again. */
  lemma DuplicateIdStrandsUser(a1: User, b: User, a2: User)
    requires a1 != a2 && a1.id == a2.id && a1.id != b.id
    ensures var s := Join(Join(Empty, a1), b);
            var s' := Join(s, a2);
            && a1 in s'.peerOf && !Inv(s')
            && var r := Teardown(s', a1);
               && a2 in r.peerOf && r.peerOf[a2] == null
               && a2 !in r.waiting && a2.id !in r.clients
  {
    var s1 := Register(Empty, a1);
    assert Join(Empty, a1) == s1;
    var r2 := Register(s1, b);
    assert r2.waiting == [a1, b];
    var s2 := PairFront(r2);
    assert s2.waiting == [] && Match(s2) == s2;
    assert Match(r2) == Match(s2);
    var s3 := Register(s2, a2);
    assert s3.waiting == [a2];
    assert Join(s2, a2) == s3;
    assert s3.clients[b.id] == b && s3.peerOf[b] == a1 && !Registered(s3, a1);
    assert !Consistent(s3, s3.clients[b.id]);
    var r := Teardown(s3, a1);
    assert (s3.waiting + [b])[0].id == a1.id;
    assert r.waiting == [b];
  }
}

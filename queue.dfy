/** The waiting list's splice: the first entry carrying a given ID is taken
    out and every other entry keeps its place. */
module Queue {
  import opened Users

  /** No user object occurs twice. */
  ghost predicate Distinct(w: seq<User>) {
    forall i, j :: 0 <= i < j < |w| ==> w[i] != w[j]
  }

  /** Position of the first entry whose ID is `id`, or |w| when there is none. */
  function IndexOf(w: seq<User>, id: string): (i: nat)
    ensures i <= |w|
    ensures i < |w| ==> w[i].id == id
    ensures forall j :: 0 <= j < i ==> w[j].id != id
  {
    if w == [] then 0
    else if w[0].id == id then 0
    else 1 + IndexOf(w[1..], id)
  }

  /** The list without its first entry carrying `id`; unchanged if none does. */
  function RemoveFirst(w: seq<User>, id: string): seq<User> {
    if w == [] then []
    else if w[0].id == id then w[1..]
    else [w[0]] + RemoveFirst(w[1..], id)
  }

  /** Removing the first match is splicing at its index: entries before it
      and entries after it keep their relative order, nothing else is lost. */
  lemma {:induction false} RemoveFirstSplices(w: seq<User>, id: string)
    ensures var i := IndexOf(w, id);
            RemoveFirst(w, id) == if i == |w| then w else w[..i] + w[i + 1..]
  {
    if w != [] && w[0].id != id {
      var t := w[1..];
      RemoveFirstSplices(t, id);
      var i := IndexOf(t, id);
      assert w == [w[0]] + t;
      if i < |t| {
        ConsSplice(w[0], t, i);
      }
    }
  }

  /** Splicing behind a new head: the index moves by one. */
  lemma ConsSplice(x: User, t: seq<User>, i: nat)
    requires i < |t|
    ensures [x] + (t[..i] + t[i + 1..]) == ([x] + t)[..i + 1] + ([x] + t)[i + 2..]
  {
    assert ([x] + t)[..i + 1] == [x] + t[..i];
    assert ([x] + t)[i + 2..] == t[i + 1..];
  }

  /** When no entry carries `id`, the list is left as it is. */
  lemma RemoveFirstAbsent(w: seq<User>, id: string)
    requires forall j :: 0 <= j < |w| ==> w[j].id != id
    ensures RemoveFirst(w, id) == w
  {
    RemoveFirstSplices(w, id);
  }

  /** The splice of an entry keeps every other entry, and distinctness. */
  lemma SpliceKeepsOthers(w: seq<User>, i: nat)
    requires i < |w| && Distinct(w)
    ensures var r := w[..i] + w[i + 1..];
            Distinct(r) && |r| == |w| - 1 &&
            (forall u :: u in r <==> u in w && u != w[i])
  {
    var r := w[..i] + w[i + 1..];
    forall u | u in w && u != w[i]
      ensures u in r
    {
      var k :| 0 <= k < |w| && w[k] == u;
      if k < i { assert r[k] == u; } else { assert r[k - 1] == u; }
    }
    forall a, b | 0 <= a < b < |r|
      ensures r[a] != r[b]
    {
      var a', b' := if a < i then a else a + 1, if b < i then b else b + 1;
      assert r[a] == w[a'] && r[b] == w[b'];
    }
  }
}

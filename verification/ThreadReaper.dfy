/** The table of connection threads and its reaper (rtsp.c). */
module ThreadReaper {

  type Conn = nat

  /** finished(k, c): connection c is seen as finished by the k-th look at the
      table. Connection threads only ever go from running to finished. */
  predicate Monotone(finished: (nat, Conn) -> bool, conns: seq<Conn>, looks: nat) {
    forall c, j, k :: c in conns && 0 <= j <= k <= looks && finished(j, c) ==> finished(k, c)
  }

  class ThreadTable {
    var conns: array<Conn>
    var nconns: nat

    predicate Valid()
      reads this
    {
      nconns <= conns.Length
    }

    function Live(): seq<Conn>
      requires Valid()
      reads this, conns
    {
      conns[..nconns]
    }

    constructor ()
      ensures Valid() && Live() == [] && fresh(conns)
    {
      conns, nconns := new Conn[0], 0;
    }

    /** track_thread: the table grows by one with realloc. */
    method TrackThread(conn: Conn)
      requires Valid()
      modifies this
      ensures Valid() && fresh(conns) && Live() == old(Live()) + [conn]
    {
      var grown := new Conn[nconns + 1];
      forall i | 0 <= i < nconns {
        grown[i] := conns[i];
      }
      grown[nconns] := conn;
      assert grown[..nconns] == conns[..nconns];
      conns := grown;
      nconns := nconns + 1;
    }

    /** cleanup_threads: `joined` are the connections joined and freed, in order,
        and `looks` the looks that found them finished. */
    method CleanupThreads(finished: (nat, Conn) -> bool) returns (joined: seq<Conn>, ghost looks: seq<nat>)
      requires Valid()
      modifies this, conns
      ensures Valid() && conns == old(conns)
      ensures Reaped(joined, looks, Live()) == Reap(finished, old(Live()), 0, 0, [], [])
    {
      joined, looks := [], [];
      ghost var all := Live();
      var i, look := 0, 0;
      while i < nconns
        invariant Valid() && conns == old(conns)
        invariant Reap(finished, Live(), i, look, joined, looks) == Reap(finished, all, 0, 0, [], [])
        decreases nconns - i
      {
        var c := conns[i];
        ghost var live := Live();
        assert c == live[i];
        if finished(look, c) {
          joined, looks := joined + [c], looks + [look];
          nconns := nconns - 1;
          if nconns != 0 {
            conns[i] := conns[nconns];
          }
          assert Live() == Swapped(live, i);
        } else {
          i := i + 1;
        }
        look := look + 1;
      }
    }
  }

  /** What is left when the last element takes the place of element i. */
  function Swapped(s: seq<Conn>, i: nat): (r: seq<Conn>)
    requires i < |s|
    ensures |r| == |s| - 1
  {
    s[i := s[|s| - 1]][..|s| - 1]
  }

  datatype Reaped = Reaped(joined: seq<Conn>, looks: seq<nat>, live: seq<Conn>)

  /** The loop from index i and look k on. */
  function Reap(finished: (nat, Conn) -> bool, live: seq<Conn>, i: nat, k: nat, joined: seq<Conn>,
                looks: seq<nat>): Reaped
    decreases |live| - i
  {
    if i >= |live| then Reaped(joined, looks, live)
    else if finished(k, live[i]) then Reap(finished, Swapped(live, i), i, k + 1, joined + [live[i]], looks + [k])
    else Reap(finished, live, i + 1, k + 1, joined, looks)
  }

  lemma RemoveBySwap(s: seq<Conn>, i: nat)
    requires i < |s|
    ensures multiset(s) == multiset(Swapped(s, i)) + multiset{s[i]}
    ensures forall c <- Swapped(s, i) :: c in s
  {
    var n := |s| - 1;
    if i == n {
      assert s == s[..n] + [s[n]] && Swapped(s, i) == s[..n];
    } else {
      var a, b := s[..i], s[i + 1..n];
      assert s == a + [s[i]] + b + [s[n]];
      assert Swapped(s, i) == a + [s[n]] + b;
      SwapParts(a, b, s[i], s[n]);
    }
  }

  lemma SwapParts(a: seq<Conn>, b: seq<Conn>, x: Conn, y: Conn)
    ensures multiset(a + [x] + b + [y]) == multiset(a + [y] + b) + multiset{x}
    ensures forall c <- a + [y] + b :: c in a + [x] + b + [y]
  {
    assert multiset(a + [y] + b) == multiset(a) + multiset{y} + multiset(b);
    assert multiset(a + [x] + b + [y]) == multiset(a) + multiset{x} + multiset(b) + multiset{y};
    forall c | c in a + [y] + b
      ensures c in a + [x] + b + [y]
    {
      assert c in a || c == y || c in b;
    }
  }

  /** Every connection ends up joined once or still in the table, never both. */
  lemma {:induction false} ReapPartitions(finished: (nat, Conn) -> bool, live: seq<Conn>, i: nat, k: nat,
                                          joined: seq<Conn>, looks: seq<nat>)
    ensures var r := Reap(finished, live, i, k, joined, looks);
      multiset(r.joined) + multiset(r.live) == multiset(joined) + multiset(live)
    decreases |live| - i
  {
    hide Swapped;
    if i < |live| {
      if finished(k, live[i]) {
        RemoveBySwap(live, i);
        ReapPartitions(finished, Swapped(live, i), i, k + 1, joined + [live[i]], looks + [k]);
      } else {
        ReapPartitions(finished, live, i + 1, k + 1, joined, looks);
      }
    }
  }

  /** Each connection was finished at the look that joined it, before look k. */
  predicate SeenFinished(finished: (nat, Conn) -> bool, joined: seq<Conn>, looks: seq<nat>, k: nat) {
    && |looks| == |joined|
    && forall j :: 0 <= j < |joined| ==> looks[j] < k && finished(looks[j], joined[j])
  }

  /** Some look before look k found the connection running. */
  ghost predicate SeenRunning(finished: (nat, Conn) -> bool, c: Conn, k: nat) {
    exists l: nat :: l < k && !finished(l, c)
  }

  /** What is joined was seen finished, and what stays was seen running,
      however threads finish meanwhile. */
  lemma {:induction false} ReapDecides(finished: (nat, Conn) -> bool, live: seq<Conn>, i: nat, k: nat,
                                       joined: seq<Conn>, looks: seq<nat>, end: nat)
    requires i <= |live| && k + |live| - i <= end
    requires SeenFinished(finished, joined, looks, k)
    requires forall j :: 0 <= j < i ==> SeenRunning(finished, live[j], end)
    ensures var r := Reap(finished, live, i, k, joined, looks);
      SeenFinished(finished, r.joined, r.looks, end) && forall c <- r.live :: SeenRunning(finished, c, end)
    decreases |live| - i
  {
    if i < |live| {
      if finished(k, live[i]) {
        ReapDecides(finished, Swapped(live, i), i, k + 1, joined + [live[i]], looks + [k], end);
      } else {
        assert SeenRunning(finished, live[i], end);
        ReapDecides(finished, live, i + 1, k + 1, joined, looks, end);
      }
    }
  }

  /** A whole call, with threads that only go from running to finished: what is
      joined stays finished, and what stays had not finished at the start. */
  lemma CleanupDecides(finished: (nat, Conn) -> bool, live: seq<Conn>)
    requires Monotone(finished, live, |live|)
    ensures var r := Reap(finished, live, 0, 0, [], []);
      && SeenFinished(finished, r.joined, r.looks, |live|)
      && (forall c <- r.joined :: finished(|live|, c)) && (forall c <- r.live :: !finished(0, c))
  {
    hide Reap;
    var r := Reap(finished, live, 0, 0, [], []);
    ReapDecides(finished, live, 0, 0, [], [], |live|);
    ReapPartitions(finished, live, 0, 0, [], []);
    forall c | c in r.joined || c in r.live
      ensures c in live
    {
      assert c in multiset(r.joined) + multiset(r.live);
      assert c in multiset(live);
    }
  }

  /** A connection that does not finish meanwhile is joined, as often as it is in
      the table, if it has finished, and kept as often if not. */
  lemma CleanupExact(finished: (nat, Conn) -> bool, live: seq<Conn>, c: Conn)
    requires forall k: nat :: finished(k, c) == finished(0, c)
    ensures var r := Reap(finished, live, 0, 0, [], []);
      && multiset(r.joined)[c] == (if finished(0, c) then multiset(live)[c] else 0)
      && multiset(r.live)[c] == (if finished(0, c) then 0 else multiset(live)[c])
  {
    hide Reap;
    var r := Reap(finished, live, 0, 0, [], []);
    ReapDecides(finished, live, 0, 0, [], [], |live|);
    ReapPartitions(finished, live, 0, 0, [], []);
    assert finished(0, c) ==> c !in r.live;
    assert !finished(0, c) ==> c !in r.joined;
    assert (multiset(r.joined) + multiset(r.live))[c] == multiset(live)[c];
  }
}

/** The linked record lists of tinysvcmdns.c: appending without duplicates, and
    unlinking. */
module RecordList {
  import opened DnsPacket

  /** A record at its address in memory: records are compared by address. */
  datatype RrEntry = RrEntry(addr: nat, rr: Rr)

  // ----- Lists as values -----

  function Append(list: seq<RrEntry>, e: RrEntry): seq<RrEntry> {
    if e in list then list else list + [e]
  }

  function AppendAll(list: seq<RrEntry>, es: seq<RrEntry>): (r: seq<RrEntry>)
    ensures list <= r
    ensures forall e :: e in r <==> e in list || e in es
    decreases |es|
  {
    if es == [] then list else AppendAll(Append(list, es[0]), es[1..])
  }

  predicate Distinct(list: seq<RrEntry>) {
    forall i, j :: 0 <= i < j < |list| ==> list[i] != list[j]
  }

  lemma {:induction false} AppendAllDistinct(list: seq<RrEntry>, es: seq<RrEntry>)
    requires Distinct(list)
    ensures Distinct(AppendAll(list, es))
    decreases |es|
  {
    if es != [] {
      AppendAllDistinct(Append(list, es[0]), es[1..]);
    }
  }

  lemma {:induction false} AppendAllSplit(list: seq<RrEntry>, es: seq<RrEntry>, fs: seq<RrEntry>)
    ensures AppendAll(list, es + fs) == AppendAll(AppendAll(list, es), fs)
    decreases |es|
  {
    if es == [] {
      assert es + fs == fs;
    } else {
      assert (es + fs)[1..] == es[1..] + fs;
      AppendAllSplit(Append(list, es[0]), es[1..], fs);
    }
  }

  /** The places of the elements of xs in ys go up. */
  ghost predicate Places(xs: seq<RrEntry>, ys: seq<RrEntry>, places: seq<nat>) {
    && |places| == |xs|
    && (forall i :: 0 <= i < |xs| ==> places[i] < |ys| && ys[places[i]] == xs[i])
    && forall i, j :: 0 <= i < j < |xs| ==> places[i] < places[j]
  }

  /** xs is ys with some elements left out. */
  ghost predicate InOrder(xs: seq<RrEntry>, ys: seq<RrEntry>) {
    exists places :: Places(xs, ys, places)
  }

  lemma InOrderSnoc(xs: seq<RrEntry>, ys: seq<RrEntry>, e: RrEntry)
    requires InOrder(xs, ys)
    ensures InOrder(xs, ys + [e]) && InOrder(xs + [e], ys + [e])
  {
    var places: seq<nat> :| Places(xs, ys, places);
    assert Places(xs, ys + [e], places);
    assert Places(xs + [e], ys + [e], places + [|ys|]);
  }

  // ----- Linked lists -----

  class RrNode {
    const e: RrEntry
    var next: RrNode?

    constructor (e: RrEntry)
      ensures this.e == e && next == null
    {
      this.e := e;
      next := null;
    }
  }

  function NodeAt(nodes: seq<RrNode>, i: nat): RrNode? {
    if i < |nodes| then nodes[i] else null
  }

  /** The records of some nodes. */
  function Entries(nodes: seq<RrNode>): (s: seq<RrEntry>)
    ensures |s| == |nodes|
  {
    seq(|nodes|, i requires 0 <= i < |nodes| => nodes[i].e)
  }

  lemma EntriesOfParts(nodes: seq<RrNode>, more: seq<RrNode>)
    ensures Entries(nodes + more) == Entries(nodes) + Entries(more)
  {
  }

  /** All but element k. */
  function Without<T>(s: seq<T>, k: nat): (r: seq<T>)
    requires k < |s|
    ensures |r| == |s| - 1
    ensures forall i :: 0 <= i < |r| ==> r[i] == if i < k then s[i] else s[i + 1]
  {
    s[..k] + s[k + 1..]
  }

  lemma EntriesWithout(nodes: seq<RrNode>, k: nat)
    requires k < |nodes|
    ensures Entries(Without(nodes, k)) == Without(Entries(nodes), k)
  {
  }

  lemma EntriesOfOne(node: RrNode)
    ensures Entries([node]) == [node.e] && Entries([]) == []
  {
  }

  class RrList {
    var head: RrNode?
    ghost var nodes: seq<RrNode>
    ghost var repr: set<RrNode>

    ghost predicate Valid()
      reads this, repr
    {
      && (forall n <- nodes :: n in repr)
      && (forall i, j :: 0 <= i < j < |nodes| ==> nodes[i] != nodes[j])
      && head == NodeAt(nodes, 0)
      && forall i :: 0 <= i < |nodes| ==> nodes[i].next == NodeAt(nodes, i + 1)
    }

    ghost function Items(): seq<RrEntry>
      reads this
    {
      Entries(nodes)
    }

    lemma Links(i: nat)
      requires Valid()
      ensures head == NodeAt(nodes, 0)
      ensures i < |nodes| ==> nodes[i].next == NodeAt(nodes, i + 1)
    {
    }

    constructor ()
      ensures Valid() && repr == {} && Items() == []
    {
      head, nodes, repr := null, [], {};
    }

    /** The walk of rr_list_append: is the record there, and if not, which node is the last? */
    method Walk(e: RrEntry) returns (found: bool, tail: RrNode?)
      requires Valid() && head != null
      ensures found == (e in Items())
      ensures !found ==> nodes != [] && tail == nodes[|nodes| - 1]
    {
      var at := head;
      tail := null;
      ghost var i := 0;
      while at != null
        invariant i <= |nodes| && at == NodeAt(nodes, i)
        invariant i == |nodes| ==> tail == nodes[i - 1]
        invariant e !in Items()[..i]
        decreases |nodes| - i
      {
        if at.e == e {
          assert e == Items()[i];
          return true, tail;
        }
        if at.next == null {
          tail := at;
        }
        assert Items()[..i + 1] == Items()[..i] + [at.e];
        at, i := at.next, i + 1;
      }
      assert Items()[..i] == Items();
      found := false;
    }

    method LinkAfter(tail: RrNode, node: RrNode)
      requires Valid() && nodes != [] && tail == nodes[|nodes| - 1] && node !in repr && node.next == null
      modifies tail, `nodes, `repr
      ensures Valid() && nodes == old(nodes) + [node] && repr == old(repr) + {node}
    {
      tail.next := node;
      nodes, repr := nodes + [node], repr + {node};
    }

    /** rr_list_append: 0 when the record is in the list already. */
    method Add(e: RrEntry) returns (added: nat)
      requires Valid()
      modifies this, repr
      ensures Valid() && fresh(repr - old(repr)) && old(nodes) <= nodes
      ensures Items() == Append(old(Items()), e) && added == |Items()| - |old(Items())|
    {
      hide Entries;
      var node := new RrNode(e);
      EntriesOfParts(nodes, [node]);
      EntriesOfOne(node);
      if head == null {
        head, nodes, repr := node, nodes + [node], repr + {node};
      } else {
        var found, tail := Walk(e);
        if found {
          return 0;
        }
        LinkAfter(tail, node);
      }
      return 1;
    }

    method UnlinkFirst(node: RrNode)
      requires Valid() && nodes != [] && node == nodes[0]
      modifies this
      ensures Valid() && repr == old(repr) && nodes == old(nodes)[1..]
    {
      head := node.next;
      nodes := nodes[1..];
    }

    method UnlinkAfter(prev: RrNode, node: RrNode, ghost k: nat)
      requires Valid() && 0 < k < |nodes| && node == nodes[k] && prev == nodes[k - 1]
      modifies `nodes, prev
      ensures Valid() && nodes == old(nodes)[..k] + old(nodes)[k + 1..]
    {
      prev.next := node.next;
      nodes := nodes[..k] + nodes[k + 1..];
    }

    /** Unlinks the k-th node; prev is the node before it, if there is one. */
    method Unlink(prev: RrNode?, node: RrNode, ghost k: nat)
      requires Valid() && k < |nodes| && node == nodes[k]
      requires prev == if k == 0 then null else nodes[k - 1]
      modifies this, repr
      ensures Valid() && repr == old(repr)
      ensures nodes == Without(old(nodes), k) && Items() == Without(old(Items()), k)
    {
      hide Entries;
      EntriesWithout(nodes, k);
      if prev == null {
        UnlinkFirst(node);
      } else {
        UnlinkAfter(prev, node, k);
      }
    }
  }
}

/** The record store and the responder of tinysvcmdns.c: the grouped index, the
    answers to a query with known-answer suppression (section 7.1 of RFC 6762),
    and the additional records (section 12 of RFC 6763). */
module DnsResponder {
  import opened Arith
  import opened DnsName
  import opened DnsPacket
  import opened RecordList
  import opened Wrappers

  const RR_ANY := 0xFF
  const FLAG_RESP := 0x8000
  const FLAG_AA := 0x400

  datatype Group = Group(name: Name, rrs: seq<RrEntry>)

  // ----- The grouped index -----

  function FindGroup(groups: seq<Group>, name: Name): Option<Group> {
    if groups == [] then None
    else if groups[0].name == name then Some(groups[0])
    else FindGroup(groups[1..], name)
  }

  /** The records stored under a name. */
  function Lookup(groups: seq<Group>, name: Name): seq<RrEntry> {
    match FindGroup(groups, name)
    case None => []
    case Some(g) => g.rrs
  }

  function AddToFirst(groups: seq<Group>, e: RrEntry): seq<Group> {
    if groups == [] then []
    else if groups[0].name == e.rr.name then [Group(groups[0].name, Append(groups[0].rrs, e))] + groups[1..]
    else [groups[0]] + AddToFirst(groups[1..], e)
  }

  /** rr_group_add: to the group of that name, or to a new group in front. */
  function GroupAdd(groups: seq<Group>, e: RrEntry): seq<Group> {
    if FindGroup(groups, e.rr.name).Some? then AddToFirst(groups, e)
    else [Group(e.rr.name, [e])] + groups
  }

  /** Group names are distinct, and each record is in the group of its name. */
  predicate StoreOk(groups: seq<Group>) {
    && (forall i, j :: 0 <= i < j < |groups| ==> groups[i].name != groups[j].name)
    && (forall g <- groups :: Distinct(g.rrs) && forall e <- g.rrs :: e.rr.name == g.name)
  }

  lemma {:induction false} AddToFirstFrame(groups: seq<Group>, e: RrEntry, name: Name)
    ensures |AddToFirst(groups, e)| == |groups|
    ensures forall i :: 0 <= i < |groups| ==> AddToFirst(groups, e)[i].name == groups[i].name
    ensures FindGroup(groups, name).Some? ==> FindGroup(AddToFirst(groups, e), name).Some?
    ensures FindGroup(groups, name).None? ==> FindGroup(AddToFirst(groups, e), name).None?
    ensures Lookup(AddToFirst(groups, e), name)
         == if name == e.rr.name && FindGroup(groups, name).Some? then Append(Lookup(groups, name), e)
             else Lookup(groups, name)
    decreases |groups|
  {
    if groups != [] {
      AddToFirstFrame(groups[1..], e, name);
    }
  }

  lemma {:induction false} AddToFirstMembers(groups: seq<Group>, e: RrEntry)
    requires StoreOk(groups)
    ensures forall g <- AddToFirst(groups, e) :: Distinct(g.rrs) && forall x <- g.rrs :: x.rr.name == g.name
    decreases |groups|
  {
    if groups != [] {
      assert groups[0] in groups && forall g <- groups[1..] :: g in groups;
      AddToFirstMembers(groups[1..], e);
    }
  }

  /** The flat reference: the records added with that name, each once, in order. */
  function Flat(adds: seq<RrEntry>, name: Name): seq<RrEntry> {
    if adds == [] then []
    else
      var n := |adds| - 1;
      if adds[n].rr.name == name then Append(Flat(adds[..n], name), adds[n]) else Flat(adds[..n], name)
  }

  function Build(adds: seq<RrEntry>): seq<Group> {
    if adds == [] then [] else GroupAdd(Build(adds[..|adds| - 1]), adds[|adds| - 1])
  }

  lemma GroupAddLookup(groups: seq<Group>, e: RrEntry, name: Name)
    requires StoreOk(groups)
    ensures StoreOk(GroupAdd(groups, e))
    ensures Lookup(GroupAdd(groups, e), name) == if name == e.rr.name then Append(Lookup(groups, name), e)
        else Lookup(groups, name)
  {
    hide StoreOk, AddToFirst;
    AddToFirstFrame(groups, e, name);
    if FindGroup(groups, e.rr.name).Some? {
      AddToFirstOk(groups, e);
    } else {
      NewGroup(groups, e);
      assert GroupAdd(groups, e)[1..] == groups;
    }
  }

  lemma AddToFirstOk(groups: seq<Group>, e: RrEntry)
    requires StoreOk(groups)
    ensures StoreOk(AddToFirst(groups, e))
  {
    hide AddToFirst, Distinct;
    AddToFirstFrame(groups, e, e.rr.name);
    AddToFirstMembers(groups, e);
  }

  lemma NewGroup(groups: seq<Group>, e: RrEntry)
    requires StoreOk(groups) && FindGroup(groups, e.rr.name).None?
    ensures StoreOk([Group(e.rr.name, [e])] + groups)
  {
    NotFound(groups, e.rr.name);
  }

  lemma {:induction false} NotFound(groups: seq<Group>, name: Name)
    requires FindGroup(groups, name).None?
    ensures forall g <- groups :: g.name != name
    decreases |groups|
  {
    if groups != [] {
      NotFound(groups[1..], name);
    }
  }

  /** After any additions the index agrees with the flat list, name by name. */
  lemma {:induction false} IndexAgreesWithFlat(adds: seq<RrEntry>, name: Name)
    ensures StoreOk(Build(adds)) && Lookup(Build(adds), name) == Flat(adds, name)
    decreases |adds|
  {
    hide StoreOk, GroupAdd, Lookup;
    if adds == [] {
      EmptyStore(name);
    } else {
      var n := |adds| - 1;
      IndexAgreesWithFlat(adds[..n], name);
      GroupAddLookup(Build(adds[..n]), adds[n], name);
    }
  }

  lemma EmptyStore(name: Name)
    ensures StoreOk([]) && Lookup([], name) == []
  {
  }

  /** And it holds them in the order in which they were added. */
  lemma {:induction false} FlatInOrder(adds: seq<RrEntry>, name: Name)
    ensures InOrder(Flat(adds, name), adds)
    decreases |adds|
  {
    if adds != [] {
      var n := |adds| - 1;
      FlatInOrder(adds[..n], name);
      InOrderSnoc(Flat(adds[..n], name), adds[..n], adds[n]);
      assert adds == adds[..n] + [adds[n]];
    } else {
      assert Places([], [], []);
    }
  }

  /** What the flat list holds: exactly the added records of the name. */
  lemma {:induction false} FlatMembers(adds: seq<RrEntry>, name: Name)
    ensures Distinct(Flat(adds, name))
    ensures forall e :: e in Flat(adds, name) <==> e in adds && e.rr.name == name
    decreases |adds|
  {
    if adds != [] {
      var n := |adds| - 1;
      FlatMembers(adds[..n], name);
      assert adds == adds[..n] + [adds[n]];
    }
  }

  // ----- Selecting records -----

  predicate Wanted(e: RrEntry, name: Name, rtype: uint16) {
    && !(rtype == RR_ANY && TypeOf(e.rr.data) == RR_NSEC)
    && (rtype == TypeOf(e.rr.data) || rtype == RR_ANY)
    && e.rr.name == name
  }

  function Filter(list: seq<RrEntry>, name: Name, rtype: uint16): (r: seq<RrEntry>)
    ensures forall e :: e in r <==> e in list && Wanted(e, name, rtype)
  {
    if list == [] then []
    else
      var n := |list| - 1;
      Filter(list[..n], name, rtype) + if Wanted(list[n], name, rtype) then [list[n]] else []
  }

  lemma FilterStep(list: seq<RrEntry>, i: nat, name: Name, rtype: uint16)
    requires i < |list|
    ensures Filter(list[..i + 1], name, rtype)
         == if Wanted(list[i], name, rtype) then Filter(list[..i], name, rtype) + [list[i]]
             else Filter(list[..i], name, rtype)
  {
    assert list[..i + 1][..i] == list[..i];
  }

  function Selected(groups: seq<Group>, name: Name, rtype: uint16): seq<RrEntry> {
    Filter(Lookup(groups, name), name, rtype)
  }

  lemma {:induction false} AddToFirstAt(groups: seq<Group>, e: RrEntry, i: nat)
    requires i < |groups| && groups[i].name == e.rr.name
    requires forall j :: 0 <= j < i ==> groups[j].name != e.rr.name
    ensures FindGroup(groups, e.rr.name).Some?
    ensures AddToFirst(groups, e) == groups[i := Group(groups[i].name, Append(groups[i].rrs, e))]
    decreases i
  {
    if i > 0 {
      AddToFirstAt(groups[1..], e, i - 1);
    }
  }

  lemma {:induction false} NoGroup(groups: seq<Group>, name: Name)
    requires forall j :: 0 <= j < |groups| ==> groups[j].name != name
    ensures FindGroup(groups, name).None?
    decreases |groups|
  {
    if groups != [] {
      NoGroup(groups[1..], name);
    }
  }

  /** The responder's record store. */
  class Mdnsd {
    var groups: seq<Group>

    constructor ()
      ensures groups == []
    {
      groups := [];
    }

    method AddRr(e: RrEntry)
      requires StoreOk(groups)
      modifies this
      ensures groups == GroupAdd(old(groups), e) && StoreOk(groups)
    {
      hide StoreOk;
      GroupAddLookup(groups, e, e.rr.name);
      var i := 0;
      while i < |groups|
        invariant i <= |groups| && groups == old(groups)
        invariant forall j :: 0 <= j < i ==> groups[j].name != e.rr.name
      {
        if groups[i].name == e.rr.name {
          AddToFirstAt(groups, e, i);
          groups := groups[i := Group(groups[i].name, Append(groups[i].rrs, e))];
          return;
        }
        i := i + 1;
      }
      NoGroup(groups, e.rr.name);
      groups := [Group(e.rr.name, Append([], e))] + groups;
    }
  }

  method FindGroupIn(groups: seq<Group>, name: Name) returns (g: Option<Group>)
    ensures g == FindGroup(groups, name)
  {
    var i := 0;
    while i < |groups|
      invariant i <= |groups| && FindGroup(groups[i..], name) == FindGroup(groups, name)
    {
      if groups[i].name == name {
        return Some(groups[i]);
      }
      assert groups[i..][1..] == groups[i + 1..];
      i := i + 1;
    }
    return None;
  }

  method PopulateAnswers(svr: Mdnsd, head: RrList, name: Name, rtype: uint16) returns (numAns: nat)
    requires head.Valid()
    modifies head, head.repr
    ensures head.Valid() && fresh(head.repr - old(head.repr)) && old(head.nodes) <= head.nodes
    ensures head.Items() == AppendAll(old(head.Items()), Selected(svr.groups, name, rtype))
    ensures numAns == |head.Items()| - |old(head.Items())|
  {
    hide Entries, RrList.Valid;
    numAns := 0;
    var g := FindGroupIn(svr.groups, name);
    if g.None? {
      return;
    }
    var rrs := g.value.rrs;
    for i := 0 to |rrs|
      invariant head.Valid() && fresh(head.repr - old(head.repr)) && old(head.nodes) <= head.nodes
      invariant head.Items() == AppendAll(old(head.Items()), Filter(rrs[..i], name, rtype))
      invariant numAns == |head.Items()| - |old(head.Items())|
    {
      FilterStep(rrs, i, name, rtype);
      if Wanted(rrs[i], name, rtype) {
        AppendAllSplit(old(head.Items()), Filter(rrs[..i], name, rtype), [rrs[i]]);
        var added := head.Add(rrs[i]);
        numAns := numAns + added;
      }
    }
    assert rrs[..|rrs|] == rrs;
  }

  // ----- Additional records -----

  /** The records one relation step away. */
  function Related(groups: seq<Group>, e: RrEntry): seq<RrEntry> {
    match e.rr.data
    case Ptr(target) => Selected(groups, target, RR_ANY)
    case Srv(_, _, _, host) => Selected(groups, host, RR_ANY) + Selected(groups, e.rr.name, RR_TXT)
    case A(_) => Selected(groups, e.rr.name, RR_NSEC)
    case Aaaa(_) => Selected(groups, e.rr.name, RR_NSEC)
    case _ => []
  }

  /** r is one relation step away from e, in terms of the stored records: the
      records of a PTR target's or SRV host's name, but for NSEC; the TXT records
      of an SRV record's own name; the NSEC records of an address's own name. */
  predicate IsRelated(groups: seq<Group>, e: RrEntry, r: RrEntry) {
    && r in Lookup(groups, r.rr.name)
    && var rtype := TypeOf(r.rr.data);
       match e.rr.data
       case Ptr(target) => r.rr.name == target && rtype != 47
       case Srv(_, _, _, host) => (r.rr.name == host && rtype != 47) || (r.rr.name == e.rr.name && rtype == 16)
       case A(_) => r.rr.name == e.rr.name && rtype == 47
       case Aaaa(_) => r.rr.name == e.rr.name && rtype == 47
       case _ => false
  }

  lemma RelatedMembers(groups: seq<Group>, e: RrEntry, r: RrEntry)
    ensures r in Related(groups, e) <==> IsRelated(groups, e, r)
  {
    hide Lookup;
  }

  function Universe(groups: seq<Group>): set<RrEntry> {
    set g, e | g in groups && e in g.rrs :: e
  }

  predicate Within(list: seq<RrEntry>, groups: seq<Group>) {
    Distinct(list) && forall e <- list :: e in Universe(groups)
  }

  lemma {:induction false} LookupWithin(groups: seq<Group>, name: Name)
    ensures forall e <- Lookup(groups, name) :: e in Universe(groups)
    decreases |groups|
  {
    if groups != [] {
      LookupWithin(groups[1..], name);
      assert groups[0] in groups && forall g <- groups[1..] :: g in groups;
      forall e | e in Lookup(groups, name)
        ensures e in Universe(groups)
      {
        if groups[0].name != name {
          assert e in Universe(groups[1..]);
        }
      }
    }
  }

  lemma RelatedWithin(groups: seq<Group>, e: RrEntry)
    ensures forall r <- Related(groups, e) :: r in Universe(groups)
  {
    hide Universe, Lookup, Wanted;
    forall name: Name {
      LookupWithin(groups, name);
    }
  }

  lemma {:induction false} DistinctBound(list: seq<RrEntry>, s: set<RrEntry>)
    requires Distinct(list) && forall e <- list :: e in s
    ensures |list| <= |s|
    decreases |list|
  {
    if list != [] {
      var n := |list| - 1;
      assert forall e <- list[..n] :: e in s - {list[n]};
      DistinctBound(list[..n], s - {list[n]});
    }
  }

  lemma WithinParts(groups: seq<Group>, list: seq<RrEntry>)
    requires Within(list, groups)
    ensures Distinct(list) && forall e <- list :: e in Universe(groups)
  {
  }

  lemma StepWithin(groups: seq<Group>, list: seq<RrEntry>, e: RrEntry)
    requires Within(list, groups)
    ensures Within(AppendAll(list, Related(groups, e)), groups)
  {
    hide Universe, Related;
    AppendAllDistinct(list, Related(groups, e));
    RelatedWithin(groups, e);
  }

  /** A pass over a fixed list. */
  function Pass(groups: seq<Group>, list: seq<RrEntry>, i: nat, add: seq<RrEntry>): seq<RrEntry>
    requires i <= |list|
    decreases |list| - i
  {
    if i == |list| then add else Pass(groups, list, i + 1, AppendAll(add, Related(groups, list[i])))
  }

  /** A pass over the list that it appends to. */
  function Work(groups: seq<Group>, list: seq<RrEntry>, i: nat): seq<RrEntry>
    requires i <= |list| && Within(list, groups)
    decreases |Universe(groups)| - i
  {
    if i == |list| then list
    else
      DistinctBound(list, Universe(groups));
      StepWithin(groups, list, list[i]);
      Work(groups, AppendAll(list, Related(groups, list[i])), i + 1)
  }

  lemma {:induction false} PassWithin(groups: seq<Group>, list: seq<RrEntry>, i: nat, add: seq<RrEntry>)
    requires i <= |list| && Within(add, groups)
    ensures Within(Pass(groups, list, i, add), groups)
    decreases |list| - i
  {
    hide Within, Related;
    if i < |list| {
      StepWithin(groups, add, list[i]);
      PassWithin(groups, list, i + 1, AppendAll(add, Related(groups, list[i])));
    }
  }

  /** The additional records of a list of answers: a pass over the answers, then
      one over what it found. */
  function Additional(groups: seq<Group>, ans: seq<RrEntry>): (r: seq<RrEntry>)
  {
    PassWithin(groups, ans, 0, []);
    Work(groups, Pass(groups, ans, 0, []), 0)
  }

  /** r is n + 1 relation steps away from one of the answers. */
  ghost predicate Reachable(groups: seq<Group>, ans: seq<RrEntry>, r: RrEntry, n: nat)
    decreases n
  {
    if n == 0 then exists a <- ans :: IsRelated(groups, a, r)
    else exists m <- Universe(groups) :: Reachable(groups, ans, m, n - 1) && IsRelated(groups, m, r)
  }

  ghost predicate Reaches(groups: seq<Group>, ans: seq<RrEntry>, r: RrEntry) {
    exists n: nat :: Reachable(groups, ans, r, n)
  }

  lemma {:induction false} PassMembers(groups: seq<Group>, list: seq<RrEntry>, i: nat, add: seq<RrEntry>)
    requires i <= |list|
    ensures forall r ::
      r in Pass(groups, list, i, add) <==> r in add || exists j :: i <= j < |list| && r in Related(groups, list[j])
    decreases |list| - i
  {
    hide Related;
    if i < |list| {
      PassMembers(groups, list, i + 1, AppendAll(add, Related(groups, list[i])));
    }
  }

  /** The growing pass ends with a list closed under the relation. */
  lemma {:induction false} WorkCloses(groups: seq<Group>, list: seq<RrEntry>, i: nat)
    requires i <= |list| && Within(list, groups)
    requires forall j, r :: 0 <= j < i && r in Related(groups, list[j]) ==> r in list
    ensures Within(Work(groups, list, i), groups) && list <= Work(groups, list, i)
    ensures forall m, r :: m in Work(groups, list, i) && r in Related(groups, m) ==> r in Work(groups, list, i)
    decreases |Universe(groups)| - i
  {
    hide Related, Universe;
    if i < |list| {
      DistinctBound(list, Universe(groups));
      StepWithin(groups, list, list[i]);
      WorkCloses(groups, AppendAll(list, Related(groups, list[i])), i + 1);
    }
  }

  lemma {:induction false} WorkReaches(groups: seq<Group>, ans: seq<RrEntry>, list: seq<RrEntry>, i: nat)
    requires i <= |list| && Within(list, groups)
    requires forall r <- list :: Reaches(groups, ans, r)
    ensures forall r <- Work(groups, list, i) :: Reaches(groups, ans, r)
    decreases |Universe(groups)| - i
  {
    hide Related, Universe, Reaches, Within;
    if i < |list| {
      WithinParts(groups, list);
      DistinctBound(list, Universe(groups));
      StepWithin(groups, list, list[i]);
      var next := AppendAll(list, Related(groups, list[i]));
      forall r | r in next
        ensures Reaches(groups, ans, r)
      {
        if r !in list {
          ReachStep(groups, ans, list[i], r);
        }
      }
      WorkReaches(groups, ans, next, i + 1);
    }
  }

  lemma ReachStep(groups: seq<Group>, ans: seq<RrEntry>, m: RrEntry, r: RrEntry)
    requires m in Universe(groups) && Reaches(groups, ans, m) && r in Related(groups, m)
    ensures Reaches(groups, ans, r)
  {
    hide Related, IsRelated, Universe;
    RelatedMembers(groups, m, r);
    var n: nat :| Reachable(groups, ans, m, n);
    assert Reachable(groups, ans, r, n + 1);
  }

  lemma {:induction false} ClosedReaches(groups: seq<Group>, ans: seq<RrEntry>, list: seq<RrEntry>, r: RrEntry, n: nat)
    requires forall a, x :: a in ans && x in Related(groups, a) ==> x in list
    requires forall m, x :: m in list && x in Related(groups, m) ==> x in list
    requires Reachable(groups, ans, r, n)
    ensures r in list
    decreases n
  {
    hide Related, IsRelated, Universe;
    if n != 0 {
      var m :| m in Universe(groups) && Reachable(groups, ans, m, n - 1) && IsRelated(groups, m, r);
      RelatedMembers(groups, m, r);
      ClosedReaches(groups, ans, list, m, n - 1);
    } else {
      var a :| a in ans && IsRelated(groups, a, r);
      RelatedMembers(groups, a, r);
    }
  }

  /** The additional records are exactly the records reachable from the answers
      in one or more steps, each once. */
  lemma AdditionalIsReachable(groups: seq<Group>, ans: seq<RrEntry>)
    ensures Distinct(Additional(groups, ans))
    ensures forall r :: r in Additional(groups, ans) <==> Reaches(groups, ans, r)
  {
    hide Related, Universe, Pass, Work, Reaches;
    var first, all := Pass(groups, ans, 0, []), Additional(groups, ans);
    PassWithin(groups, ans, 0, []);
    PassMembers(groups, ans, 0, []);
    WorkCloses(groups, first, 0);
    forall r | r in first
      ensures Reaches(groups, ans, r)
    {
      var j :| 0 <= j < |ans| && r in Related(groups, ans[j]);
      ReachStart(groups, ans, ans[j], r);
    }
    WorkReaches(groups, ans, first, 0);
    forall a, x | a in ans && x in Related(groups, a)
      ensures x in all
    {
      var j :| 0 <= j < |ans| && ans[j] == a;
      assert x in first;
    }
    forall r | Reaches(groups, ans, r)
      ensures r in all
    {
      var n := Steps(groups, ans, r);
      ClosedReaches(groups, ans, all, r, n);
    }
  }

  lemma Steps(groups: seq<Group>, ans: seq<RrEntry>, r: RrEntry) returns (n: nat)
    requires Reaches(groups, ans, r)
    ensures Reachable(groups, ans, r, n)
  {
    n :| Reachable(groups, ans, r, n);
  }

  lemma ReachStart(groups: seq<Group>, ans: seq<RrEntry>, a: RrEntry, r: RrEntry)
    requires a in ans && r in Related(groups, a)
    ensures Reaches(groups, ans, r)
  {
    hide Related, IsRelated;
    RelatedMembers(groups, a, r);
    assert Reachable(groups, ans, r, 0);
  }

  // ----- Known answers -----

  predicate Matches(known: Rr, e: Rr) {
    && TypeOf(known.data) == TypeOf(e.data) && known.name == e.name
    && (e.data.Ptr? ==> known.data.Ptr? && known.data.target == e.data.target)
  }

  /** rr_entry_match: the first record of the list that matches. */
  function FirstMatch(list: seq<Rr>, e: Rr): Option<Rr> {
    if list == [] then None
    else if Matches(list[0], e) then Some(list[0])
    else FirstMatch(list[1..], e)
  }

  method FirstMatchIn(list: seq<Rr>, e: Rr) returns (r: Option<Rr>)
    ensures r == FirstMatch(list, e)
  {
    var i := 0;
    while i < |list|
      invariant i <= |list| && FirstMatch(list[i..], e) == FirstMatch(list, e)
    {
      if Matches(list[i], e) {
        return Some(list[i]);
      }
      assert list[i..][1..] == list[i + 1..];
      i := i + 1;
    }
    return None;
  }

  /** The querier knows the record, with at least half of its lifetime left. */
  predicate Suppressed(known: seq<Rr>, e: RrEntry) {
    var k := FirstMatch(known, e.rr);
    k.Some? && k.value.ttl >= e.rr.ttl / 2
  }

  method IsSuppressed(known: seq<Rr>, e: RrEntry) returns (drop: bool)
    ensures drop == Suppressed(known, e)
  {
    var knownAns := FirstMatchIn(known, e.rr);
    drop := knownAns.Some? && knownAns.value.ttl >= e.rr.ttl / 2;
  }

  /** The list without the suppressed records, in its order. */
  function Unsuppressed(known: seq<Rr>, list: seq<RrEntry>): (r: seq<RrEntry>)
    ensures |r| <= |list|
    ensures forall e :: e in r <==> e in list && !Suppressed(known, e)
  {
    if list == [] then []
    else
      var n := |list| - 1;
      Unsuppressed(known, list[..n]) + if Suppressed(known, list[n]) then [] else [list[n]]
  }

  /** A known answer that stands for a record: same name, same type and, for PTR
      records, same target. */
  predicate StandsFor(known: Rr, e: Rr) {
    known.name == e.name &&
      match e.data
      case Ptr(target) => known.data == Ptr(target)
      case Txt(_) => TypeOf(known.data) == 16
      case A(_) => TypeOf(known.data) == 1
      case Aaaa(_) => TypeOf(known.data) == 28
      case Srv(_, _, _, _) => TypeOf(known.data) == 33
      case Nsec(_) => TypeOf(known.data) == 47
      case Skipped(t) => TypeOf(known.data) == t
  }

  /** Which records stay: a record goes exactly when the first known answer that
      stands for it has at least half of the record's lifetime, rounded down. */
  lemma UnsuppressedMeaning(known: seq<Rr>, list: seq<RrEntry>, e: RrEntry)
    ensures e in Unsuppressed(known, list) <==>
      e in list && !exists i :: 0 <= i < |known| && StandsFor(known[i], e.rr)
                     && (forall j :: 0 <= j < i ==> !StandsFor(known[j], e.rr)) && 2 * known[i].ttl + 1 >= e.rr.ttl
  {
    hide Matches, StandsFor, Unsuppressed;
    FirstMatchMeaning(known, e.rr);
  }

  lemma MatchesMeaning(known: Rr, e: Rr)
    ensures Matches(known, e) <==> StandsFor(known, e)
  {
  }

  lemma {:induction false} FirstMatchMeaning(list: seq<Rr>, e: Rr)
    ensures FirstMatch(list, e).None? <==> forall i :: 0 <= i < |list| ==> !StandsFor(list[i], e)
    ensures FirstMatch(list, e).Some? ==>
      exists i :: 0 <= i < |list| && StandsFor(list[i], e) && (forall j :: 0 <= j < i ==> !StandsFor(list[j], e))
        && FirstMatch(list, e).value == list[i]
  {
    hide Matches, StandsFor;
    if list != [] {
      MatchesMeaning(list[0], e);
      FirstMatchMeaning(list[1..], e);
      if Matches(list[0], e) {
        assert StandsFor(list[0], e);
      } else if FirstMatch(list[1..], e).Some? {
        var i :| 0 <= i < |list[1..]| && StandsFor(list[1..][i], e)
          && (forall j :: 0 <= j < i ==> !StandsFor(list[1..][j], e)) && FirstMatch(list, e).value == list[1..][i];
        assert list[i + 1] == list[1..][i];
        forall j | 0 <= j < i + 1
          ensures !StandsFor(list[j], e)
        {
          assert j > 0 ==> list[j] == list[1..][j - 1];
        }
      } else {
        forall i | 0 <= i < |list|
          ensures !StandsFor(list[i], e)
        {
          assert i > 0 ==> list[i] == list[1..][i - 1];
        }
      }
    }
  }

  /** They stay in their order. */
  lemma {:induction false} UnsuppressedInOrder(known: seq<Rr>, list: seq<RrEntry>)
    ensures InOrder(Unsuppressed(known, list), list)
    decreases |list|
  {
    hide Suppressed;
    if list != [] {
      var n := |list| - 1;
      UnsuppressedInOrder(known, list[..n]);
      InOrderSnoc(Unsuppressed(known, list[..n]), list[..n], list[n]);
      assert list == list[..n] + [list[n]];
      if Suppressed(known, list[n]) {
        assert Unsuppressed(known, list) == Unsuppressed(known, list[..n]);
      }
    } else {
      assert Places([], [], []);
    }
  }

  lemma UnsuppressedStep(known: seq<Rr>, list: seq<RrEntry>, i: nat)
    requires i < |list|
    ensures Unsuppressed(known, list[..i + 1])
         == if Suppressed(known, list[i]) then Unsuppressed(known, list[..i])
             else Unsuppressed(known, list[..i]) + [list[i]]
  {
    assert list[..i + 1][..i] == list[..i];
  }

  lemma EntryAt(nodes: seq<RrNode>, i: nat)
    requires i < |nodes|
    ensures i < |Entries(nodes)| && Entries(nodes)[i] == nodes[i].e
  {
  }

  lemma EntriesLength(nodes: seq<RrNode>)
    ensures |Entries(nodes)| == |nodes|
  {
  }

  lemma NothingSuppressed(known: seq<Rr>)
    ensures Unsuppressed(known, []) == []
  {
  }

  lemma WithoutOne(kept: seq<RrEntry>, e: RrEntry, rest: seq<RrEntry>)
    ensures var list := kept + ([e] + rest);
      && list[|kept|] == e && list[..|kept|] + list[|kept| + 1..] == kept + rest
      && list == kept + [e] + rest && |list| == |kept + rest| + 1
  {
    var list := kept + ([e] + rest);
    assert list[..|kept|] == kept && list[|kept| + 1..] == rest;
  }

  /** The first k of all the records are decided, and `kept` of them stay. */
  predicate Decided(known: seq<Rr>, all: seq<RrEntry>, k: nat, kept: seq<RrEntry>, items: seq<RrEntry>) {
    k <= |all| && kept == Unsuppressed(known, all[..k]) && items == kept + all[k..]
  }

  lemma NothingDecided(known: seq<Rr>, all: seq<RrEntry>)
    ensures Decided(known, all, 0, [], all)
  {
    NothingSuppressed(known);
    assert all[..0] == [] && [] + all[0..] == all;
  }

  lemma AllDecided(known: seq<Rr>, all: seq<RrEntry>, k: nat, kept: seq<RrEntry>, items: seq<RrEntry>)
    requires Decided(known, all, k, kept, items)
    ensures k <= |all| && |items| == |kept| + |all| - k
    ensures k == |all| ==> items == Unsuppressed(known, all)
  {
    if k == |all| {
      assert all[..k] == all && kept + [] == kept;
    }
  }

  /** One round of the unlinking loop. */
  lemma RemoveStep(known: seq<Rr>, all: seq<RrEntry>, k: nat, kept: seq<RrEntry>, items: seq<RrEntry>)
    requires Decided(known, all, k, kept, items) && k < |all|
    ensures |items| > |kept| && items[|kept|] == all[k]
    ensures if Suppressed(known, all[k]) then Decided(known, all, k + 1, kept, Without(items, |kept|))
            else Decided(known, all, k + 1, kept + [all[k]], items)
  {
    hide Unsuppressed, Suppressed;
    UnsuppressedStep(known, all, k);
    assert all[k..] == [all[k]] + all[k + 1..];
    WithoutOne(kept, all[k], all[k + 1..]);
  }

  // ----- Replies -----

  /** A 16-bit count keeps up with the length of its list, modulo 2^16. */
  lemma CountWraps(before: nat, n: int)
    ensures (before % 0x1_0000 + n) % 0x1_0000 == (before + n) % 0x1_0000
  {
  }

  /** The loop of add_related_rr from index i on, over the answers or over the
      additional records themselves. */
  function RelatedOver(groups: seq<Group>, answers: bool, ans: seq<RrEntry>, i: nat, add: seq<RrEntry>): seq<RrEntry>
    requires i <= |if answers then ans else add| && Within(add, groups)
  {
    if answers then Pass(groups, ans, i, add) else Work(groups, add, i)
  }

  lemma RelatedStep(groups: seq<Group>, answers: bool, ans: seq<RrEntry>, i: nat, add: seq<RrEntry>)
    requires i <= |if answers then ans else add| && Within(add, groups)
    ensures var list := if answers then ans else add;
      if i == |list| then RelatedOver(groups, answers, ans, i, add) == add
      else
        var more := AppendAll(add, Related(groups, list[i]));
        && Within(more, groups) && i + 1 <= |if answers then ans else more|
        && RelatedOver(groups, answers, ans, i, add) == RelatedOver(groups, answers, ans, i + 1, more)
  {
    hide Related;
    var list := if answers then ans else add;
    if i < |list| {
      StepWithin(groups, add, list[i]);
    }
  }

  class Reply {
    const rrAns: RrList
    const rrAdd: RrList
    var id: uint16
    var flags: uint16
    var numAns: uint16
    var numAdd: uint16

    ghost predicate Valid()
      reads this, rrAns, rrAdd, rrAns.repr, rrAdd.repr
    {
      && rrAns != rrAdd && rrAns.Valid() && rrAdd.Valid()
      && rrAns.repr !! rrAdd.repr
      && numAns == |rrAns.Items()| % 0x1_0000 && numAdd == |rrAdd.Items()| % 0x1_0000
    }

    constructor ()
      ensures Valid() && fresh(rrAns) && fresh(rrAdd) && rrAns.repr == rrAdd.repr == {}
    {
      rrAns := new RrList();
      rrAdd := new RrList();
      id, flags, numAns, numAdd := 0, 0, 0, 0;
    }

    method Init(id: uint16)
      requires rrAns != rrAdd
      modifies this, rrAns, rrAdd
      ensures Valid() && this.id == id && flags == FLAG_RESP + FLAG_AA
      ensures rrAns.repr == rrAdd.repr == {} && rrAns.Items() == rrAdd.Items() == []
    {
      this.id, flags := id, FLAG_RESP + FLAG_AA;
      rrAns.head, rrAdd.head := null, null;
      rrAns.nodes, rrAdd.nodes := [], [];
      rrAns.repr, rrAdd.repr := {}, {};
      numAns, numAdd := 0, 0;
    }

    method AddAnswers(svr: Mdnsd, name: Name, rtype: uint16)
      requires Valid()
      modifies rrAns, rrAns.repr, `numAns
      ensures Valid() && fresh(rrAns.repr - old(rrAns.repr))
      ensures rrAns.Items() == AppendAll(old(rrAns.Items()), Selected(svr.groups, name, rtype))
    {
      hide AppendAll, Selected, Entries, RrList.Valid;
      ghost var before := |rrAns.Items()|;
      var n := PopulateAnswers(svr, rrAns, name, rtype);
      CountWraps(before, n);
      numAns := (numAns as int + n) % 0x1_0000;
    }

    method AddAdditional(svr: Mdnsd, name: Name, rtype: uint16)
      requires Valid()
      modifies rrAdd, rrAdd.repr, `numAdd
      ensures Valid() && fresh(rrAdd.repr - old(rrAdd.repr)) && old(rrAdd.nodes) <= rrAdd.nodes
      ensures rrAdd.Items() == AppendAll(old(rrAdd.Items()), Selected(svr.groups, name, rtype))
    {
      hide AppendAll, Selected, Entries, RrList.Valid;
      ghost var before := |rrAdd.Items()|;
      var n := PopulateAnswers(svr, rrAdd, name, rtype);
      CountWraps(before, n);
      numAdd := (numAdd as int + n) % 0x1_0000;
    }

    method AddRelatedTo(svr: Mdnsd, e: RrEntry)
      requires Valid()
      modifies rrAdd, rrAdd.repr, `numAdd
      ensures Valid() && fresh(rrAdd.repr - old(rrAdd.repr)) && old(rrAdd.nodes) <= rrAdd.nodes
      ensures rrAdd.Items() == AppendAll(old(rrAdd.Items()), Related(svr.groups, e))
    {
      hide Selected, Entries, RrList.Valid;
      match e.rr.data
      case Ptr(target) =>
        AddAdditional(svr, target, RR_ANY);
      case Srv(_, _, _, host) =>
        AddAdditional(svr, host, RR_ANY);
        AddAdditional(svr, e.rr.name, RR_TXT);
        AppendAllSplit(old(rrAdd.Items()), Selected(svr.groups, host, RR_ANY), Selected(svr.groups, e.rr.name, RR_TXT));
      case A(_) =>
        AddAdditional(svr, e.rr.name, RR_NSEC);
      case Aaaa(_) =>
        AddAdditional(svr, e.rr.name, RR_NSEC);
      case _ =>
    }

    /** add_related_rr: the list may be the very list that it appends to. */
    method AddRelated(svr: Mdnsd, list: RrList)
      requires Valid() && (list == rrAns || list == rrAdd) && Within(rrAdd.Items(), svr.groups)
      modifies rrAdd, rrAdd.repr, `numAdd
      ensures Valid() && Within(rrAdd.Items(), svr.groups) && fresh(rrAdd.repr - old(rrAdd.repr))
      ensures rrAdd.Items() == RelatedOver(svr.groups, list == rrAns, rrAns.Items(), 0, old(rrAdd.Items()))
    {
      hide RelatedOver, Related, AppendAll, Distinct, Universe, Entries, Within, RrList.Valid;
      var node := list.head;
      list.Links(0);
      ghost var i, own := 0, list == rrAdd;
      while node != null
        invariant Valid() && i <= |list.nodes| && node == NodeAt(list.nodes, i) && Within(rrAdd.Items(), svr.groups)
        invariant fresh(rrAdd.repr - old(rrAdd.repr))
        invariant RelatedOver(svr.groups, !own, rrAns.Items(), i, rrAdd.Items())
               == RelatedOver(svr.groups, !own, rrAns.Items(), 0, old(rrAdd.Items()))
        decreases if own then |Universe(svr.groups)| - i else |rrAns.nodes| - i
      {
        EntryAt(list.nodes, i);
        if own {
          EntriesLength(rrAdd.nodes);
          WithinParts(svr.groups, rrAdd.Items());
          DistinctBound(rrAdd.Items(), Universe(svr.groups));
        }
        StepWithin(svr.groups, rrAdd.Items(), node.e);
        RelatedStep(svr.groups, !own, rrAns.Items(), i, rrAdd.Items());
        AddRelatedTo(svr, node.e);
        list.Links(i);
        node, i := node.next, i + 1;
      }
      EntriesLength(list.nodes);
      RelatedStep(svr.groups, !own, rrAns.Items(), i, rrAdd.Items());
    }

    /** Both passes: the additional records of the answers. */
    method AddAllRelated(svr: Mdnsd)
      requires Valid() && rrAdd.Items() == []
      modifies rrAdd, rrAdd.repr, `numAdd
      ensures Valid() && fresh(rrAdd.repr - old(rrAdd.repr)) && rrAdd.Items() == Additional(svr.groups, rrAns.Items())
    {
      hide Pass, Work, Entries, RrList.Valid;
      AddRelated(svr, rrAns);
      AddRelated(svr, rrAdd);
    }

    method DropAnswer(prev: RrNode?, ans: RrNode, ghost k: nat)
      requires Valid() && k < |rrAns.nodes| && ans == rrAns.nodes[k]
      requires prev == if k == 0 then null else rrAns.nodes[k - 1]
      modifies rrAns, rrAns.repr, `numAns
      ensures Valid() && rrAns.repr == old(rrAns.repr) && rrAns.nodes == Without(old(rrAns.nodes), k)
      ensures rrAns.Items() == Without(old(rrAns.Items()), k)
    {
      hide Entries, Without, RrList.Valid;
      EntriesLength(rrAns.nodes);
      CountWraps(|rrAns.nodes|, -1);
      rrAns.Unlink(prev, ans, k);
      numAns := (numAns - 1) % 0x1_0000;
    }

    /** The unlinking loop of the known-answer suppression. */
    method RemoveKnown(known: seq<Rr>)
      requires Valid()
      modifies rrAns, rrAns.repr, `numAns
      ensures Valid() && rrAns.repr == old(rrAns.repr)
      ensures rrAns.Items() == Unsuppressed(known, old(rrAns.Items()))
    {
      hide Unsuppressed, Suppressed, Decided, Entries, Without, RrList.Valid;
      ghost var all, k := rrAns.Items(), 0;
      ghost var kept: seq<RrEntry> := [];
      var prev: RrNode?, ans := null, rrAns.head;
      NothingDecided(known, all);
      rrAns.Links(0);
      EntriesLength(rrAns.nodes);
      while ans != null
        invariant Valid() && rrAns.repr == old(rrAns.repr) && Decided(known, all, k, kept, rrAns.Items())
        invariant k <= |all| && |rrAns.nodes| == |kept| + |all| - k && ans == NodeAt(rrAns.nodes, |kept|)
        invariant prev == if kept == [] then null else rrAns.nodes[|kept| - 1]
        decreases |all| - k
      {
        RemoveStep(known, all, k, kept, rrAns.Items());
        EntryAt(rrAns.nodes, |kept|);
        rrAns.Links(|kept|);
        var nextAns := ans.next;
        var drop := IsSuppressed(known, ans.e);
        if drop {
          DropAnswer(prev, ans, |kept|);
          ans := prev;
        } else {
          kept := kept + [all[k]];
        }
        prev, ans := ans, nextAns;
        k := k + 1;
      }
      AllDecided(known, all, k, kept, rrAns.Items());
    }

    /** process_mdns_pkt: 0 unless the packet is a standard query. */
    method Process(svr: Mdnsd, pkt: Packet) returns (r: int)
      requires Valid() && pkt.header.numQn <= |pkt.qn|
      modifies this, rrAns, rrAdd
      ensures Valid()
      ensures if pkt.header.flags < 0x800 then
                && r == numAns && id == pkt.header.id && flags == 0x8400
                && rrAns.Items() == Unsuppressed(pkt.ans, Collected(svr.groups, pkt.qn[..pkt.header.numQn]))
                && rrAdd.Items() == Additional(svr.groups, rrAns.Items())
              else r == 0 && unchanged(this, rrAns, rrAdd)
    {
      hide Selected, Additional, Unsuppressed, AppendAll, Entries, RrList.Valid, IsQuery;
      IsQueryMeaning(pkt.header.flags);
      if !IsQuery(pkt.header.flags) {
        return 0;
      }
      Init(pkt.header.id);
      for i := 0 to pkt.header.numQn
        invariant Valid() && id == pkt.header.id && flags == FLAG_RESP + FLAG_AA && rrAdd.Items() == []
        invariant fresh(rrAns.repr) && rrAdd.repr == {}
        invariant rrAns.Items() == Collected(svr.groups, pkt.qn[..i])
      {
        assert pkt.qn[..i + 1][..i] == pkt.qn[..i];
        var qn := pkt.qn[i];
        if !qn.unicast {
          AddAnswers(svr, qn.name, qn.rtype);
        }
      }
      RemoveKnown(pkt.ans);
      AddAllRelated(svr);
      return numAns;
    }

    /** announce_srv for a service type. */
    method Announce(svr: Mdnsd, name: Name)
      requires Valid()
      modifies this, rrAns, rrAdd
      ensures Valid() && id == 0 && flags == 0x8400
      ensures rrAns.Items() == AppendAll(AppendAll([], Selected(svr.groups, name, RR_PTR)),
                                         Selected(svr.groups, ServicesName(), RR_PTR))
      ensures rrAdd.Items() == Additional(svr.groups, rrAns.Items())
    {
      hide Selected, Additional, AppendAll, Entries, RrList.Valid, ServicesName;
      Init(0);
      AddAnswers(svr, name, RR_PTR);
      AddAnswers(svr, ServicesName(), RR_PTR);
      AddAllRelated(svr);
    }
  }

  /** The response bit and the four bits of the opcode are the five highest. */
  lemma IsQueryMeaning(flags: uint16)
    ensures IsQuery(flags) <==> flags < 0x800
  {
  }

  predicate IsQuery(flags: uint16) {
    flags / FLAG_RESP % 2 == 0 && flags / 0x800 % 16 == 0
  }

  /** _services._dns-sd._udp.local */
  function ServicesName(): (n: Name)
    ensures IsName(n)
  {
    var services: Bytes := [9, 95, 115, 101, 114, 118, 105, 99, 101, 115];
    var dnsSd: Bytes := [7, 95, 100, 110, 115, 45, 115, 100];
    var udp: Bytes := [4, 95, 117, 100, 112];
    var local: Bytes := [5, 108, 111, 99, 97, 108];
    IsNameCons(local, []);
    IsNameCons(udp, local + []);
    IsNameCons(dnsSd, udp + (local + []));
    IsNameCons(services, dnsSd + (udp + (local + [])));
    services + (dnsSd + (udp + (local + [])))
  }

  lemma IsNameCons(first: Bytes, rest: Name)
    requires first != [] && 1 <= first[0] <= 63 && |first| == first[0] as nat + 1 && 0 !in first && IsName(rest)
    ensures IsName(first + rest)
  {
    var n := first + rest;
    assert n[..Seg(n)] == first && n[Seg(n)..] == rest;
  }

  /** The answers collected question by question; unicast questions are skipped. */
  function Collected(groups: seq<Group>, qn: seq<Question>): seq<RrEntry> {
    if qn == [] then []
    else
      var n := |qn| - 1;
      var before := Collected(groups, qn[..n]);
      if qn[n].unicast then before else AppendAll(before, Selected(groups, qn[n].name, qn[n].rtype))
  }

  /** A multicast question asks for the stored records of its name that have its
      type; a question for any type (255) asks for all but NSEC. */
  predicate AsksFor(groups: seq<Group>, q: Question, e: RrEntry) {
    && !q.unicast && e in Lookup(groups, q.name) && e.rr.name == q.name
    && if q.rtype == 255 then TypeOf(e.rr.data) != 47 else TypeOf(e.rr.data) == q.rtype
  }

  /** Before suppression the answers are exactly the stored records that a
      multicast question asks for, each once. */
  lemma {:induction false} CollectedMembers(groups: seq<Group>, qn: seq<Question>)
    ensures Distinct(Collected(groups, qn))
    ensures forall e :: e in Collected(groups, qn) <==> exists i :: 0 <= i < |qn| && AsksFor(groups, qn[i], e)
  {
    hide Selected, AsksFor, AppendAll, Distinct;
    if qn == [] {
      assert Distinct(Collected(groups, qn)) by { NoneDistinct(); }
    } else {
      var n := |qn| - 1;
      var before, q := Collected(groups, qn[..n]), qn[n];
      CollectedMembers(groups, qn[..n]);
      AppendAllDistinct(before, Selected(groups, q.name, q.rtype));
      AsksForSelected(groups, q);
      forall e
        ensures (exists i :: 0 <= i < |qn| && AsksFor(groups, qn[i], e)) <==> e in before || AsksFor(groups, q, e)
      {
        if e in before {
          var i :| 0 <= i < |qn[..n]| && AsksFor(groups, qn[..n][i], e);
          assert AsksFor(groups, qn[i], e);
        }
        if i :| 0 <= i < |qn| && AsksFor(groups, qn[i], e) && i != n {
          assert AsksFor(groups, qn[..n][i], e);
        }
      }
    }
  }

  lemma NoneDistinct()
    ensures Distinct([])
  {
  }

  lemma AsksForSelected(groups: seq<Group>, q: Question)
    ensures forall e :: AsksFor(groups, q, e) <==> !q.unicast && e in Selected(groups, q.name, q.rtype)
  {
  }
}

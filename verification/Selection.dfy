/** The choice of a chunk server group for an upload. */
module Selection {
  import opened Codec
  import opened MinHeaps

  const RW_STATUS := 1
  const ERR_STATUS := 3
  const GLOBAL_NORMAL_STATUS := 0
  const MAX_INT64 := 0x7fff_ffff_ffff_ffff

  datatype ChunkServer = ChunkServer(
    ip: string, port: int, status: int, globalStatus: int, maxFreeSpace: int, pendingWrites: int, writingCount: int)

  datatype Group = Group(id: string, servers: seq<ChunkServer>)

  // ---------------------------------------------------------------------------
  // What is asked of a group.

  /** A server that takes writes. Others that are only out of order do not spoil the group. */
  predicate Normal(c: ChunkServer) { c.status == RW_STATUS }

  predicate Usable(c: ChunkServer) { c.status == RW_STATUS || c.status == ERR_STATUS }

  function Normals(cs: seq<ChunkServer>): seq<ChunkServer> {
    if cs == [] then []
    else if Normal(cs[|cs| - 1]) then Normals(cs[..|cs| - 1]) + [cs[|cs| - 1]]
    else Normals(cs[..|cs| - 1])
  }

  lemma NormalsSnoc(cs: seq<ChunkServer>, k: nat)
    requires k < |cs|
    ensures Normals(cs[..k + 1]) == if Normal(cs[k]) then Normals(cs[..k]) + [cs[k]] else Normals(cs[..k])
  {
    assert cs[..k + 1][..k] == cs[..k];
  }

  function Least(cs: seq<ChunkServer>): int {
    if cs == [] then MAX_INT64
    else
      var m, x := Least(cs[..|cs| - 1]), cs[|cs| - 1].maxFreeSpace;
      if x < m then x else m
  }

  function MostPending(cs: seq<ChunkServer>): int {
    if cs == [] then 0
    else
      var m, x := MostPending(cs[..|cs| - 1]), cs[|cs| - 1].pendingWrites;
      if x > m then x else m
  }

  function MostWriting(cs: seq<ChunkServer>): int {
    if cs == [] then 0
    else
      var m, x := MostWriting(cs[..|cs| - 1]), cs[|cs| - 1].writingCount;
      if x > m then x else m
  }

  lemma {:induction false} LeastIsBound(cs: seq<ChunkServer>)
    ensures forall c :: c in cs ==> Least(cs) <= c.maxFreeSpace
    ensures Least(cs) == MAX_INT64 || exists c :: c in cs && c.maxFreeSpace == Least(cs)
  {
    if cs != [] {
      LeastIsBound(cs[..|cs| - 1]);
      assert cs == cs[..|cs| - 1] + [cs[|cs| - 1]];
    }
  }

  lemma {:induction false} MostAreBounds(cs: seq<ChunkServer>)
    ensures forall c :: c in cs ==> c.pendingWrites <= MostPending(cs) && c.writingCount <= MostWriting(cs)
    ensures MostPending(cs) == 0 || exists c :: c in cs && c.pendingWrites == MostPending(cs)
    ensures MostWriting(cs) == 0 || exists c :: c in cs && c.writingCount == MostWriting(cs)
  {
    if cs != [] {
      MostAreBounds(cs[..|cs| - 1]);
      assert cs == cs[..|cs| - 1] + [cs[|cs| - 1]];
    }
  }

  /** A group is offered if it is not being transferred, every server of it is usable, enough of
      them take writes, and each of those has room for more than `size` bytes. */
  predicate Eligible(g: Group, size: int, limit: int) {
    && g.servers != [] && g.servers[0].globalStatus == GLOBAL_NORMAL_STATUS
    && (forall c :: c in g.servers ==> Usable(c))
    && Least(Normals(g.servers)) > size && |Normals(g.servers)| >= limit
  }

  lemma {:induction false} NormalsAre(cs: seq<ChunkServer>)
    ensures forall c :: c in Normals(cs) <==> c in cs && c.status == RW_STATUS
  {
    if cs != [] {
      NormalsAre(cs[..|cs| - 1]);
      assert cs == cs[..|cs| - 1] + [cs[|cs| - 1]];
    }
  }

  /** In terms of its servers: the first says that the group is not being transferred, each is writable
      or out of order, and each that is writable has more free space than `size`, of which there are
      `limit` at least. */
  lemma EligibleExact(g: Group, size: int, limit: int)
    requires size < MAX_INT64
    ensures Eligible(g, size, limit) <==>
            && |g.servers| > 0 && g.servers[0].globalStatus == 0 && |Normals(g.servers)| >= limit
            && (forall c :: c in g.servers ==> c.status == 1 || c.status == 3)
            && (forall c :: c in g.servers && c.status == 1 ==> c.maxFreeSpace > size)
  {
    hide Normals, Least;
    NormalsAre(g.servers);
    LeastIsBound(Normals(g.servers));
  }

  function Offer(g: Group): Element {
    var ns := Normals(g.servers);
    Element(g.id, Least(ns), MostPending(ns), MostWriting(ns))
  }

  function Offers(gs: seq<Group>, size: int, limit: int): seq<Element> {
    if gs == [] then []
    else
      var init, g := Offers(gs[..|gs| - 1], size, limit), gs[|gs| - 1];
      if Eligible(g, size, limit) then init + [Offer(g)] else init
  }

  lemma OffersSnoc(gs: seq<Group>, k: nat, size: int, limit: int)
    requires k < |gs|
    ensures var init := Offers(gs[..k], size, limit);
            Offers(gs[..k + 1], size, limit) == if Eligible(gs[k], size, limit) then init + [Offer(gs[k])] else init
  {
    assert gs[..k + 1][..k] == gs[..k];
  }

  lemma {:induction false} OfferOf(gs: seq<Group>, size: int, limit: int, e: Element) returns (i: nat)
    requires e in Offers(gs, size, limit)
    ensures i < |gs| && Eligible(gs[i], size, limit) && e == Offer(gs[i])
  {
    var k := |gs| - 1;
    if Eligible(gs[k], size, limit) && e == Offer(gs[k]) {
      i := k;
    } else {
      i := OfferOf(gs[..k], size, limit, e);
    }
  }

  lemma {:induction false} NoOffers(gs: seq<Group>, size: int, limit: int)
    ensures Offers(gs, size, limit) == [] <==> forall i :: 0 <= i < |gs| ==> !Eligible(gs[i], size, limit)
  {
    if gs != [] {
      var k := |gs| - 1;
      NoOffers(gs[..k], size, limit);
      assert forall i :: 0 <= i < k ==> gs[..k][i] == gs[i];
      if Offers(gs, size, limit) != [] && !Eligible(gs[k], size, limit) {
        var i :| 0 <= i < k && Eligible(gs[..k][i], size, limit);
        assert Eligible(gs[i], size, limit);
      }
    }
  }

  /** Looks a group over: the numbers of its servers that take writes, up to one that is not
      usable. */
  method Survey(cs: seq<ChunkServer>) returns (available: bool, least: int, normalNum: int, pending: int, writing: int)
    ensures available <==> forall c :: c in cs ==> Usable(c)
    ensures available ==> var ns := Normals(cs);
                          && least == Least(ns) && normalNum == |ns|
                          && pending == MostPending(ns) && writing == MostWriting(ns)
  {
    hide Least, MostPending, MostWriting;
    least, normalNum, pending, writing := MAX_INT64, 0, 0, 0;
    EmptySurvey();
    available := true;
    var index := 0;
    while index < |cs|
      invariant 0 <= index <= |cs| && available
      invariant forall i :: 0 <= i < index ==> Usable(cs[i])
      invariant least == Least(Normals(cs[..index])) && normalNum == |Normals(cs[..index])|
      invariant pending == MostPending(Normals(cs[..index])) && writing == MostWriting(Normals(cs[..index]))
    {
      var server := cs[index];
      NormalsSnoc(cs, index);
      if server.status != ERR_STATUS && server.status != RW_STATUS {
        assert server in cs && !Usable(server);
        return false, least, normalNum, pending, writing;
      }
      if server.status == RW_STATUS {
        SurveySnoc(Normals(cs[..index]), server);
        normalNum := normalNum + 1;
        if server.maxFreeSpace < least {
          least := server.maxFreeSpace;
        }
        if server.pendingWrites > pending {
          pending := server.pendingWrites;
        }
        if server.writingCount > writing {
          writing := server.writingCount;
        }
      }
      index := index + 1;
    }
    assert cs[..|cs|] == cs;
  }

  lemma EmptySurvey()
    ensures Least([]) == MAX_INT64 && MostPending([]) == MostWriting([]) == 0
  {
  }

  lemma SurveySnoc(cs: seq<ChunkServer>, c: ChunkServer)
    ensures Least(cs + [c]) == if c.maxFreeSpace < Least(cs) then c.maxFreeSpace else Least(cs)
    ensures MostPending(cs + [c]) == if c.pendingWrites > MostPending(cs) then c.pendingWrites else MostPending(cs)
    ensures MostWriting(cs + [c]) == if c.writingCount > MostWriting(cs) then c.writingCount else MostWriting(cs)
  {
    assert (cs + [c])[..|cs|] == cs;
  }

  /** Offers every eligible group to a heap of `k` places. */
  method Gather(gs: seq<Group>, size: int, limit: int, k: nat) returns (heap: MinHeap)
    requires k > 0
    ensures heap.Valid() && heap.capacity == k && fresh(heap) && fresh(heap.arr)
    ensures TopK(multiset(heap.Contents()), multiset(Offers(gs, size, limit)), k)
  {
    hide TopK, Offers, Offer, Heap;
    heap := new MinHeap(k);
    assert TopK(multiset([]), multiset([]), k) by { NothingOffered(k); }
    assert Offers(gs[..0], size, limit) == [] by { NoneYet(gs, size, limit); }
    var i := 0;
    while i < |gs|
      invariant 0 <= i <= |gs| && heap.Valid() && heap.capacity == k && fresh(heap) && fresh(heap.arr)
      invariant TopK(multiset(heap.Contents()), multiset(Offers(gs[..i], size, limit)), k)
    {
      var g := gs[i];
      OffersSnoc(gs, i, size, limit);
      ghost var offered := Offers(gs[..i], size, limit);
      if g.servers != [] && g.servers[0].globalStatus == GLOBAL_NORMAL_STATUS {
        var available, least, normalNum, pending, writing := Survey(g.servers);
        if available && least > size && normalNum >= limit {
          var ele := Element(g.id, least, pending, writing);
          assert ele == Offer(g) by { OfferIs(g); }
          assert multiset(offered + [ele]) == multiset(offered) + multiset{ele};
          heap.AddElement(ele, multiset(offered));
        }
      }
      i := i + 1;
    }
    assert gs[..|gs|] == gs;
  }

  lemma NothingOffered(k: nat)
    ensures TopK(multiset([]), multiset([]), k)
  {
  }

  lemma NoneYet(gs: seq<Group>, size: int, limit: int)
    ensures Offers(gs[..0], size, limit) == []
  {
  }

  lemma OfferIs(g: Group)
    ensures var ns := Normals(g.servers);
            Offer(g) == Element(g.id, Least(ns), MostPending(ns), MostWriting(ns))
  {
  }

  /** The order lists every group once. */
  ghost predicate Lists(order: seq<string>, groups: map<string, seq<ChunkServer>>) {
    && (forall i, j :: 0 <= i < j < |order| ==> order[i] != order[j])
    && (forall id :: id in order <==> id in groups)
  }

  function Listed(order: seq<string>, groups: map<string, seq<ChunkServer>>): (gs: seq<Group>)
    requires forall id :: id in order ==> id in groups
    ensures |gs| == |order| && forall i :: 0 <= i < |gs| ==> gs[i] == Group(order[i], groups[order[i]])
  {
    seq(|order|, i requires 0 <= i < |order| => Group(order[i], groups[order[i]]))
  }

  /** The group for an upload of `size` bytes, for any order in which the groups come and any
      random number. There is none exactly when the size is not positive or no group is eligible.
      The group is an eligible one, and the eligible groups that have more free space than it are
      fewer than a tenth of all groups and three. Those with the most space, `kept`, are in a heap by
      load, from which the random number picks: its multiples of the heap's size pick a group than
      which no other kept one is less loaded. */
  method SelectGroup(groups: map<string, seq<ChunkServer>>, order: seq<string>, size: int, limit: int, random: nat)
    returns (r: Option<seq<ChunkServer>>, id: string, ghost kept: seq<Element>)
    requires Lists(order, groups)
    ensures r.None? <==> size <= 0 || forall g :: g in groups ==> !Eligible(Group(g, groups[g]), size, limit)
    ensures r.Some? ==>
              && id in groups && r.value == groups[id] && Eligible(Group(id, groups[id]), size, limit)
              && AmongBest(Offer(Group(id, groups[id])), multiset(Offers(Listed(order, groups), size, limit)), |order| / 10 + 3)
    ensures r.Some? ==>
              && kept != [] && Heap(ByLoad, kept, 0) && kept[random % |kept|] == Offer(Group(id, groups[id]))
              && TopK(multiset(kept), multiset(Offers(Listed(order, groups), size, limit)), |order| / 10 + 3)
    ensures r.Some? && random % |kept| == 0 ==> forall e :: e in kept ==> !Smaller(ByLoad, e, Offer(Group(id, groups[id])))
  {
    hide TopK, Offers, Offer, Eligible, AmongBest, Heap;
    kept := [];
    if size <= 0 {
      return None, "", [];
    }
    var selectNum := |order| / 10 + 3;
    var gs := Listed(order, groups);
    var heap := Gather(gs, size, limit, selectNum);
    ghost var offered := multiset(Offers(gs, size, limit));
    assert |heap.Contents()| <= selectNum;
    assert heap.size == 0 <==> Offers(gs, size, limit) == [] by {
      EmptyTop(heap.Contents(), Offers(gs, size, limit), selectNum);
    }
    NobodyEligible(order, groups, size, limit);
    if heap.size < selectNum {
      selectNum := heap.size;
    }
    if selectNum == 0 {
      return None, "", [];
    }
    heap.Build(ByLoad);
    kept := heap.Contents();
    var index := random % selectNum;
    var ok;
    id, ok := heap.GetElementGroupId(index);
    ghost var e := kept[index];
    assert e in multiset(kept);
    KeptAmongBest(multiset(kept), offered, |order| / 10 + 3, e);
    assert e in Offers(gs, size, limit) by { KeptOffered(multiset(kept), offered, |order| / 10 + 3, e); }
    ghost var i := OfferOf(gs, size, limit, e);
    assert gs[i].id == id by { OfferIs(gs[i]); }
    LeastLoaded(kept, index);
    r := Some(groups[id]);
  }

  lemma LeastLoaded(kept: seq<Element>, index: nat)
    requires Heap(ByLoad, kept, 0) && index < |kept|
    ensures index == 0 ==> forall e :: e in kept ==> !Smaller(ByLoad, e, kept[index])
  {
    hide Heap;
    forall i | 0 <= i < |kept| ensures !Smaller(ByLoad, kept[i], kept[0]) { RootSmallest(ByLoad, kept, i); }
  }

  lemma NobodyEligible(order: seq<string>, groups: map<string, seq<ChunkServer>>, size: int, limit: int)
    requires Lists(order, groups)
    ensures Offers(Listed(order, groups), size, limit) == [] <==>
            forall g :: g in groups ==> !Eligible(Group(g, groups[g]), size, limit)
  {
    hide Offers, Eligible;
    var gs := Listed(order, groups);
    NoOffers(gs, size, limit);
    if Offers(gs, size, limit) == [] {
      forall g | g in groups ensures !Eligible(Group(g, groups[g]), size, limit) {
        var i :| 0 <= i < |order| && order[i] == g;
        assert !Eligible(gs[i], size, limit);
      }
    } else {
      var i :| 0 <= i < |gs| && Eligible(gs[i], size, limit);
      assert order[i] in groups;
    }
  }

  lemma KeptOffered(kept: multiset<Element>, offered: multiset<Element>, k: nat, e: Element)
    requires TopK(kept, offered, k) && e in kept
    ensures e in offered
  {
  }

  lemma EmptyTop(kept: seq<Element>, offered: seq<Element>, k: nat)
    requires TopK(multiset(kept), multiset(offered), k) && k > 0
    ensures kept == [] <==> offered == []
  {
    assert |multiset(kept)| == |kept| && |multiset(offered)| == |offered|;
  }
}

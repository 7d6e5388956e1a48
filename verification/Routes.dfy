/**
 The refresh of an image server's routing table: a new snapshot of the chunk server groups comes
 in, and the connection pools are made to match it, without closing one that is in use.
 */
module Routes {
  import opened Codec
  import opened Selection

  type Groups = map<string, seq<ChunkServer>>

  // ---------------------------------------------------------------------------
  // Keys.

  function Digits(n: nat): (r: string)
    ensures r != [] && forall i :: 0 <= i < |r| ==> '0' <= r[i] <= '9'
  {
    var d := [('0' as int + n % 10) as char];
    if n < 10 then d else Digits(n / 10) + d
  }

  function Decimal(port: int): string { if port < 0 then "-" + Digits(-port) else Digits(port) }

  /** The key of a host: its address and port, with a colon between. */
  function Key(c: ChunkServer): string { c.ip + ":" + Decimal(c.port) }

  predicate HostInfoEqual(c: ChunkServer, d: ChunkServer) { c.ip == d.ip && c.port == d.port }

  lemma {:induction false} DigitsInjective(m: nat, n: nat)
    requires Digits(m) == Digits(n)
    ensures m == n
  {
    var x, y := Digits(m), Digits(n);
    assert x[|x| - 1] == ('0' as int + m % 10) as char && y[|y| - 1] == ('0' as int + n % 10) as char;
    if m >= 10 && n >= 10 {
      assert x[..|x| - 1] == Digits(m / 10) && y[..|y| - 1] == Digits(n / 10);
      DigitsInjective(m / 10, n / 10);
    }
  }

  lemma DecimalInjective(m: int, n: int)
    requires Decimal(m) == Decimal(n)
    ensures m == n
  {
    hide Digits;
    if m < 0 && n < 0 {
      assert Decimal(m)[1..] == Digits(-m) && Decimal(n)[1..] == Digits(-n);
      DigitsInjective(-m, -n);
    } else if m >= 0 && n >= 0 {
      DigitsInjective(m, n);
    } else {
      Sign(m);
      Sign(n);
      assert false;
    }
  }

  lemma Sign(n: int)
    ensures Decimal(n) != [] && (Decimal(n)[0] == '-' <==> n < 0)
  {
    hide Digits;
  }

  lemma NoColon(port: int)
    ensures ':' !in Decimal(port)
  {
    hide Digits;
  }

  /** A colon is never behind the one in front of a part that has none. */
  lemma ColonBound(a: string, x: string)
    requires ':' !in x
    ensures forall i :: |a| < i < |a + ":" + x| ==> (a + ":" + x)[i] != ':'
  {
    var s := a + ":" + x;
    forall i | |a| < i < |s| ensures s[i] != ':' {
      assert s[i] == x[i - |a| - 1];
    }
  }

  lemma LastColon(a: string, x: string, b: string, y: string)
    requires a + ":" + x == b + ":" + y && ':' !in x && ':' !in y
    ensures a == b && x == y
  {
    var s := a + ":" + x;
    ColonBound(a, x);
    ColonBound(b, y);
    assert s[|a|] == s[|b|] == ':';
    assert s[..|a|] == a && s[..|a|] == b && s[|a| + 1..] == x && s[|a| + 1..] == y;
  }

  /** Servers have the same key exactly when they are the same host, whatever their addresses
      look like. */
  lemma KeyExact(c: ChunkServer, d: ChunkServer)
    ensures Key(c) == Key(d) <==> HostInfoEqual(c, d)
  {
    hide Decimal;
    if Key(c) == Key(d) {
      NoColon(c.port);
      NoColon(d.port);
      LastColon(c.ip, Decimal(c.port), d.ip, Decimal(d.port));
      DecimalInjective(c.port, d.port);
    }
  }

  function Keys(cs: seq<ChunkServer>): set<string> { set c | c in cs :: Key(c) }

  lemma KeyOfMember(cs: seq<ChunkServer>, i: nat)
    requires i < |cs|
    ensures Key(cs[i]) in Keys(cs)
  {
    hide Key;
    assert cs[i] in cs;
  }

  lemma NoKeys(cs: seq<ChunkServer>)
    requires cs == []
    ensures Keys(cs) == {}
  {
  }

  lemma KeysSnoc(cs: seq<ChunkServer>, i: nat)
    requires i < |cs|
    ensures Keys(cs[..i + 1]) == Keys(cs[..i]) + {Key(cs[i])}
  {
    assert cs[..i + 1] == cs[..i] + [cs[i]];
  }

  /** The host with this key is in the group. */
  predicate InGroup(gs: Groups, g: string, key: string) {
    g in gs && exists c :: c in gs[g] && Key(c) == key
  }

  /** The keys of all hosts. */
  ghost predicate Hosts(gs: Groups, key: string) { exists g :: InGroup(gs, g, key) }

  /** No host is in two groups. */
  ghost predicate Single(gs: Groups) {
    forall g, h, key :: InGroup(gs, g, key) && InGroup(gs, h, key) ==> g == h
  }

  // ---------------------------------------------------------------------------
  // Differences.

  /** A server of a group whose host the same group does not have in the other snapshot. */
  predicate Missing(c: ChunkServer, other: Groups, g: string) {
    g !in other || forall d :: d in other[g] ==> !HostInfoEqual(c, d)
  }

  method Find(c: ChunkServer, servers: seq<ChunkServer>) returns (found: bool)
    ensures found <==> exists d :: d in servers && HostInfoEqual(c, d)
  {
    var i := 0;
    while i < |servers|
      invariant 0 <= i <= |servers|
      invariant forall k :: 0 <= k < i ==> !HostInfoEqual(c, servers[k])
    {
      if HostInfoEqual(c, servers[i]) {
        return true;
      }
      i := i + 1;
    }
    found := false;
  }

  /** The servers of one group that the other snapshot does not have in it. */
  method GroupDiff(servers: seq<ChunkServer>, other: Groups, g: string) returns (diff: seq<ChunkServer>)
    ensures forall c :: c in diff <==> c in servers && Missing(c, other, g)
  {
    diff := [];
    if g !in other {
      return servers;
    }
    var i := 0;
    while i < |servers|
      invariant 0 <= i <= |servers|
      invariant forall c :: c in diff <==> c in servers[..i] && Missing(c, other, g)
    {
      var found := Find(servers[i], other[g]);
      assert servers[..i + 1] == servers[..i] + [servers[i]];
      if !found {
        diff := diff + [servers[i]];
      }
      i := i + 1;
    }
    assert servers[..|servers|] == servers;
  }

  /** The servers of `info1` that are not in the same group of `info2`. */
  method InfoDiff(info1: Groups, info2: Groups) returns (diff: seq<ChunkServer>)
    ensures forall c :: c in diff <==> exists g :: g in info1 && c in info1[g] && Missing(c, info2, g)
  {
    hide Missing;
    diff := [];
    var todo := info1.Keys;
    while todo != {}
      invariant todo <= info1.Keys
      invariant forall c :: c in diff <==> exists g :: g in info1 && g !in todo && c in info1[g] && Missing(c, info2, g)
      decreases |todo|
    {
      var g :| g in todo;
      var more := GroupDiff(info1[g], info2, g);
      ghost var before, left := diff, todo;
      diff := diff + more;
      todo := todo - {g};
      forall c ensures c in diff <==> exists h :: h in info1 && h !in todo && c in info1[h] && Missing(c, info2, h) {
        if c in more {
          assert g in info1 && g !in todo && c in info1[g] && Missing(c, info2, g);
        } else if c in before {
          var h :| h in info1 && h !in left && c in info1[h] && Missing(c, info2, h);
          assert h !in todo;
        }
      }
    }
  }

  /** What the keys of a difference are. */
  lemma DiffKeys(info1: Groups, info2: Groups, diff: seq<ChunkServer>, key: string)
    requires forall c :: c in diff <==> exists g :: g in info1 && c in info1[g] && Missing(c, info2, g)
    ensures key in Keys(diff) <==> exists g :: InGroup(info1, g, key) && !InGroup(info2, g, key)
  {
    hide Key, HostInfoEqual;
    if key in Keys(diff) {
      var c :| c in diff && Key(c) == key;
      var g :| g in info1 && c in info1[g] && Missing(c, info2, g);
      assert InGroup(info1, g, key);
      if InGroup(info2, g, key) {
        var d :| d in info2[g] && Key(d) == key;
        KeyExact(c, d);
      }
    }
    if exists g :: InGroup(info1, g, key) && !InGroup(info2, g, key) {
      var g :| InGroup(info1, g, key) && !InGroup(info2, g, key);
      var c :| c in info1[g] && Key(c) == key;
      assert Missing(c, info2, g) by {
        if g in info2 {
          forall d | d in info2[g] ensures !HostInfoEqual(c, d) { KeyExact(c, d); }
        }
      }
      assert c in diff;
    }
  }

  // ---------------------------------------------------------------------------
  // Connection pools.

  class ConnectionPool {
    const key: string
    var open: bool

    constructor (key: string)
      ensures this.key == key && open
    {
      this.key := key;
      open := true;
    }
  }

  type PoolMap = map<string, ConnectionPool>

  /** Every pool stands under its own key. */
  predicate Keyed(pools: PoolMap) { forall k :: k in pools ==> pools[k].key == k }

  class ConnTable {
    var pools: PoolMap

    constructor ()
      ensures pools == map[]
    {
      pools := map[];
    }

    method AddExistPool(key: string, pool: ConnectionPool)
      modifies this
      ensures pools == if key in old(pools) then old(pools) else old(pools)[key := pool]
    {
      if key in pools {
        return;
      }
      pools := pools[key := pool];
    }

    method AddPool(c: ChunkServer)
      modifies this
      ensures pools.Keys == old(pools).Keys + {Key(c)}
      ensures forall k :: k in old(pools) ==> pools[k] == old(pools)[k]
      ensures Key(c) !in old(pools) ==>
                fresh(pools[Key(c)]) && pools[Key(c)].open && pools[Key(c)].key == Key(c)
    {
      hide Key;
      var key := Key(c);
      if key in pools {
        return;
      }
      var pool := new ConnectionPool(key);
      pools := pools[key := pool];
    }

    method RemovePool(c: ChunkServer)
      modifies this
      ensures pools == old(pools) - {Key(c)}
    {
      pools := pools - {Key(c)};
    }

    /** Takes the pool out of the table and closes it. It must not be one of those in use. */
    method RemoveAndClosePool(c: ChunkServer, ghost used: PoolMap) returns (ok: bool)
      requires Keyed(pools) && (Key(c) in pools ==> pools[Key(c)] !in used.Values)
      modifies this, pools.Values
      ensures pools == old(pools) - {Key(c)} && (ok <==> Key(c) in old(pools))
      ensures forall k :: k in old(pools) ==> old(pools)[k].open == (old(pools[k].open) && k != Key(c))
    {
      hide Key;
      var key := Key(c);
      if key !in pools {
        return false;
      }
      var pool := pools[key];
      pools := pools - {key};
      pool.open := false;
      ok := true;
    }

    /** Takes over the pools of another table. */
    method CopyFrom(old': ConnTable)
      requires pools == map[] && old' != this
      modifies this
      ensures pools == old'.pools
    {
      var todo := old'.pools.Keys;
      while todo != {}
        invariant todo <= old'.pools.Keys && old'.pools == old(old'.pools)
        invariant pools == old'.pools - todo
        decreases |todo|
      {
        var key :| key in todo;
        AddExistPool(key, old'.pools[key]);
        todo := todo - {key};
      }
    }

    method RemoveAll(servers: seq<ChunkServer>)
      modifies this
      ensures pools == old(pools) - Keys(servers)
    {
      hide Key, Keys;
      assert Keys(servers[..0]) == {} by { NoKeys(servers[..0]); }
      var i := 0;
      while i < |servers|
        invariant 0 <= i <= |servers| && pools == old(pools) - Keys(servers[..i])
      {
        RemovePool(servers[i]);
        KeysSnoc(servers, i);
        i := i + 1;
      }
      assert servers[..|servers|] == servers;
    }

    /** Adds a new, open pool for each server that has none. */
    method AddAll(servers: seq<ChunkServer>)
      modifies this
      ensures pools.Keys == old(pools).Keys + Keys(servers)
      ensures forall k :: k in old(pools) ==> k in pools && pools[k] == old(pools)[k]
      ensures forall k :: k in pools && k !in old(pools) ==> fresh(pools[k]) && pools[k].open && pools[k].key == k
    {
      hide Key, Keys;
      assert Keys(servers[..0]) == {} by { NoKeys(servers[..0]); }
      var i := 0;
      while i < |servers|
        invariant 0 <= i <= |servers| && pools.Keys == old(pools).Keys + Keys(servers[..i])
        invariant forall k :: k in old(pools) ==> k in pools && pools[k] == old(pools)[k]
        invariant forall k :: k in pools && k !in old(pools) ==> fresh(pools[k]) && pools[k].open && pools[k].key == k
      {
        AddPool(servers[i]);
        KeysSnoc(servers, i);
        i := i + 1;
      }
      assert servers[..|servers|] == servers;
    }

    /** Closes the pools of these servers, of which none is in use. */
    method CloseAll(servers: seq<ChunkServer>, ghost used: PoolMap)
      requires Keyed(pools) && forall k :: k in pools && k in Keys(servers) ==> pools[k] !in used.Values
      modifies this, pools.Values
      ensures forall k :: k in old(pools) && k !in Keys(servers) ==> old(pools)[k].open == old(pools[k].open)
      ensures forall k :: k in old(pools) && k in Keys(servers) ==> !old(pools)[k].open
      ensures pools == old(pools) - Keys(servers)
    {
      hide Key, Keys;
      assert Keys(servers[..0]) == {} by { NoKeys(servers[..0]); }
      ghost var all := pools;
      var i := 0;
      while i < |servers|
        invariant 0 <= i <= |servers| && pools == all - Keys(servers[..i])
        invariant forall k :: k in all && k !in Keys(servers[..i]) ==> all[k].open == old(all[k].open)
        invariant forall k :: k in all && k in Keys(servers[..i]) ==> !all[k].open
      {
        assert Key(servers[i]) in Keys(servers) by { KeyOfMember(servers, i); }
        var _ := RemoveAndClosePool(servers[i], used);
        KeysSnoc(servers, i);
        i := i + 1;
      }
      assert servers[..|servers|] == servers;
    }
  }

  // ---------------------------------------------------------------------------
  // The refresh.

  class Router {
    var groups: Option<Groups>
    var table: ConnTable?

    constructor ()
      ensures Valid() && Exact() && groups.None? && table == null
    {
      groups, table := None, null;
    }

    function Current(): Groups
      reads this
    {
      if groups.None? then map[] else groups.value
    }

    function Pools(): PoolMap
      reads this, table
    {
      PoolsOf(table)
    }

    /** Every pool stands under its own key and is open. */
    ghost predicate Valid()
      reads this, table, Pools().Values
    {
      Keyed(Pools()) && forall k :: k in Pools() ==> Pools()[k].open
    }

    /** The pools are those of the current hosts. */
    ghost predicate Exact()
      reads this, table
    {
      forall k :: k in Pools() <==> Hosts(Current(), k)
    }

    /** If the pools were those of the hosts before a refresh, they are afterwards exactly if the
        snapshots do not make it drop a host, and no pool is left for anyone else. A pool that is in the table before and afterwards is the
        same or new, a host that was in the same group before has the pool that it had if no host is in
        two groups, and pools that have gone are closed. */
    method HandleChunkServerInfo(infos: Groups)
      requires Valid()
      modifies this, table, Pools().Values
      ensures Valid() && groups == Some(infos)
      ensures old(Exact()) ==> (Exact() <==> !Drops(old(Current()), infos))
      ensures old(Exact()) ==> forall k :: k in Pools() ==> Hosts(infos, k)
      ensures table == old(table) || fresh(table)
      ensures forall k :: k in Pools() ==> fresh(Pools()[k]) || (k in old(Pools()) && Pools()[k] == old(Pools()[k]))
      ensures old(Exact()) && Single(old(Current())) && Single(infos) ==>
                forall g, k :: InGroup(infos, g, k) && InGroup(old(Current()), g, k) ==>
                  k in Pools() && k in old(Pools()) && Pools()[k] == old(Pools()[k])
      ensures forall k :: k in old(Pools()) && (k !in Pools() || Pools()[k] != old(Pools()[k])) ==> !old(Pools()[k]).open
    {
      hide InGroup, Hosts, Single, Keys, Drops;
      ghost var was, pools := Current(), Pools();
      var oldInfo := if groups.None? then map[] else groups.value;
      var addServers := InfoDiff(infos, oldInfo);
      var delServers := InfoDiff(oldInfo, infos);
      ghost var add, del := Keys(addServers), Keys(delServers);
      assert Difference(add, infos, was) by { DiffExact(infos, was, addServers); }
      assert Difference(del, was, infos) by { DiffExact(was, infos, delServers); }
      if Exact() {
        KeptExact(was, infos, pools.Keys, add, del);
        if Single(was) && Single(infos) { RefreshedKeys(was, infos, pools.Keys, add, del); }
      }
      if delServers == [] && addServers == [] {
        NoKeys([]);
        assert pools.Keys - del + add == pools.Keys;
        groups := Some(infos);
        return;
      }
      Switch(infos, delServers, addServers);
      assert Pools().Keys == pools.Keys - del + add;
    }

    /** Puts a new table in the place of the old one, and only then closes the pools deleted. */
    method Switch(infos: Groups, delServers: seq<ChunkServer>, addServers: seq<ChunkServer>)
      requires Keyed(Pools()) && forall k :: k in Pools() ==> Pools()[k].open
      modifies this, table, Pools().Values
      ensures groups == Some(infos) && fresh(table) && Keyed(Pools())
      ensures Pools().Keys == old(Pools()).Keys - Keys(delServers) + Keys(addServers)
      ensures forall k :: k in Pools() ==> Pools()[k].open
      ensures forall k :: k in Pools() && (k in Keys(delServers) || k !in old(Pools())) ==> fresh(Pools()[k])
      ensures forall k :: k in old(Pools()) && k !in Keys(delServers) ==> Pools()[k] == old(Pools()[k])
      ensures forall k :: k in old(Pools()) && k in Keys(delServers) ==> !old(Pools()[k]).open
    {
      hide Keys;
      var oldTable := table;
      var newTable := Rebuild(oldTable, delServers, addServers);
      table, groups := newTable, Some(infos);
      if oldTable != null {
        oldTable.CloseAll(delServers, Pools());
      }
    }

    /** Refresh after refresh: where no host is ever dropped, and so where none is ever in two groups, the
        pools are always those of the hosts. */
    method GetChunkServerInfoTicker(snapshots: seq<Groups>)
      requires Valid() && Exact()
      modifies this, table, Pools().Values
      ensures Valid() && Current() == if snapshots == [] then old(Current()) else snapshots[|snapshots| - 1]
      ensures NeverDrops([old(Current())] + snapshots) ==> Exact()
    {
      hide Hosts, Keyed, Drops, Exact;
      ghost var all := [Current()] + snapshots;
      var i := 0;
      while i < |snapshots|
        invariant 0 <= i <= |snapshots| && Valid() && Current() == all[i]
        invariant NeverDrops(all) ==> Exact()
        invariant Current() == if i == 0 then old(Current()) else snapshots[i - 1]
        invariant table == old(table) || fresh(table)
        invariant forall k :: k in Pools() ==> fresh(Pools()[k]) || Pools()[k] in old(Pools().Values)
      {
        HandleChunkServerInfo(snapshots[i]);
        i := i + 1;
      }
    }
  }

  function PoolsOf(table: ConnTable?): PoolMap
    reads table
  {
    if table == null then map[] else table.pools
  }

  /** A new table: the pools of the old one but for those deleted, and new ones for those added. */
  method Rebuild(oldTable: ConnTable?, delServers: seq<ChunkServer>, addServers: seq<ChunkServer>) returns (t: ConnTable)
    ensures fresh(t) && t.pools.Keys == PoolsOf(oldTable).Keys - Keys(delServers) + Keys(addServers)
    ensures forall k :: k in PoolsOf(oldTable) && k !in Keys(delServers) ==> t.pools[k] == PoolsOf(oldTable)[k]
    ensures forall k :: k in t.pools && !(k in PoolsOf(oldTable) && k !in Keys(delServers)) ==>
              fresh(t.pools[k]) && t.pools[k].open && t.pools[k].key == k
  {
    hide Keys;
    t := new ConnTable();
    if oldTable != null {
      t.CopyFrom(oldTable);
    }
    t.RemoveAll(delServers);
    t.AddAll(addServers);
  }

  /** The keys `d` are those that a group of the first snapshot has and the second one has not. */
  ghost predicate Difference(d: set<string>, info1: Groups, info2: Groups) {
    forall k :: k in d <==> exists g :: InGroup(info1, g, k) && !InGroup(info2, g, k)
  }

  lemma DiffExact(info1: Groups, info2: Groups, diff: seq<ChunkServer>)
    requires forall c :: c in diff <==> exists g :: g in info1 && c in info1[g] && Missing(c, info2, g)
    ensures Difference(Keys(diff), info1, info2)
  {
    hide Keys, InGroup;
    forall k ensures k in Keys(diff) <==> exists g :: InGroup(info1, g, k) && !InGroup(info2, g, k) {
      DiffKeys(info1, info2, diff, k);
    }
  }

  /** Where no host is in two groups, taking out what is deleted and then putting in what is added
      gives the new hosts; and a host that stays in its group is in neither. */
  lemma RefreshedKeys(was: Groups, infos: Groups, keys: set<string>, add: set<string>, del: set<string>)
    requires Single(was) && Single(infos) && forall k :: k in keys <==> Hosts(was, k)
    requires Difference(add, infos, was) && Difference(del, was, infos)
    ensures forall k :: k in keys - del + add <==> Hosts(infos, k)
    ensures forall g, k :: InGroup(infos, g, k) && InGroup(was, g, k) ==> k in keys && k !in del && k !in add
    ensures add !! keys - del && del <= keys
  {
    hide InGroup, Drops;
    KeptExact(was, infos, keys, add, del);
    SingleNeverDrops([was, infos]);
    assert !Drops([was, infos][0], [was, infos][1]);
    forall g, k | InGroup(infos, g, k) && InGroup(was, g, k) ensures k in keys && k !in del && k !in add {
      assert Hosts(was, k);
    }
    forall k | k in keys - del ensures k !in add {
      var g :| InGroup(was, g, k);
      assert InGroup(infos, g, k);
    }
    forall k | k in del ensures k in keys {
      assert Hosts(was, k);
    }
  }

  /** A host of the new snapshot has left one group and has not entered another, as happens when a host
      that was in two groups leaves one of them. */
  ghost predicate Drops(was: Groups, infos: Groups) {
    exists k :: Hosts(infos, k) && Left(was, infos, k) && !Left(infos, was, k)
  }

  /** The host is in a group of the first snapshot in which the second does not have it. */
  ghost predicate Left(info1: Groups, info2: Groups, k: string) {
    exists g :: InGroup(info1, g, k) && !InGroup(info2, g, k)
  }

  ghost predicate NeverDrops(snapshots: seq<Groups>) {
    forall i :: 0 < i < |snapshots| ==> !Drops(snapshots[i - 1], snapshots[i])
  }

  /** No host is dropped where none is in two groups. */
  lemma SingleNeverDrops(snapshots: seq<Groups>)
    requires forall i :: 0 <= i < |snapshots| ==> Single(snapshots[i])
    ensures NeverDrops(snapshots)
  {
    hide InGroup;
    forall i | 0 < i < |snapshots| ensures !Drops(snapshots[i - 1], snapshots[i]) {
      var was, infos := snapshots[i - 1], snapshots[i];
      forall k | Hosts(infos, k) && Left(was, infos, k) ensures Left(infos, was, k) {
        var g :| InGroup(infos, g, k);
        var h :| InGroup(was, h, k) && !InGroup(infos, h, k);
        assert !InGroup(was, g, k);
      }
    }
  }

  /** In general the pools are those of the new hosts exactly if no host is dropped. */
  lemma KeptExact(was: Groups, infos: Groups, keys: set<string>, add: set<string>, del: set<string>)
    requires forall k :: k in keys <==> Hosts(was, k)
    requires Difference(add, infos, was) && Difference(del, was, infos)
    ensures (forall k :: k in keys - del + add <==> Hosts(infos, k)) <==> !Drops(was, infos)
    ensures forall k :: k in keys - del + add ==> Hosts(infos, k)
  {
    hide InGroup;
    assert forall k :: (k in add <==> Left(infos, was, k)) && (k in del <==> Left(was, infos, k));
    forall k ensures k in keys - del + add ==> Hosts(infos, k) {
      if k in keys && k !in del {
        var g :| InGroup(was, g, k);
        assert InGroup(infos, g, k);
      }
    }
    forall k | Hosts(infos, k) && k !in del ensures k in keys || k in add {
      var g :| InGroup(infos, g, k);
      if InGroup(was, g, k) { assert Hosts(was, k); }
    }
  }

  lemma LeavesOne(host: ChunkServer, was: Groups, infos: Groups, key: string)
    requires was == map["a" := [host], "b" := [host]] && infos == map["b" := [host]] && key == Key(host)
    ensures !Drops(map[], was) && Drops(was, infos) && forall k :: Hosts(infos, k) <==> k == key
  {
    hide Key;
    forall g, k ensures InGroup(was, g, k) <==> (g == "a" || g == "b") && k == key {
      if (g == "a" || g == "b") && k == key { assert host in was[g]; }
    }
    forall g, k ensures InGroup(infos, g, k) <==> g == "b" && k == key {
      if g == "b" && k == key { assert host in infos[g]; }
    }
    assert InGroup(was, "a", key) && InGroup(infos, "b", key);
    assert Hosts(infos, key) && Left(was, infos, key) && !Left(infos, was, key);
  }

  /** Two refreshes that show it: a host in two groups leaves one of them. It is still a host, and it has
      no pool. */
  method HostLosesPool(router: Router) returns (infos: Groups, key: string)
    requires router.Valid() && router.Exact() && router.Current() == map[]
    modifies router, router.table, router.Pools().Values
    ensures router.groups == Some(infos) && Hosts(infos, key) && key !in router.Pools()
  {
    hide Key, Drops;
    var host := ChunkServer("10.0.0.1", 80, RW_STATUS, GLOBAL_NORMAL_STATUS, 0, 0, 0);
    var was := map["a" := [host], "b" := [host]];
    infos, key := map["b" := [host]], Key(host);
    LeavesOne(host, was, infos, key);
    router.HandleChunkServerInfo(was);
    router.HandleChunkServerInfo(infos);
  }
}

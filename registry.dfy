/** The server's client registry and free-id pool as values: the ids
    InitializeClientIds hands out, the filters its foreach loops apply to the
    registered connections, and the accounting that ties pool and registry together. */
module Registry {
  import opened Common
  import opened SteamNet
  import opened Connection

  /** The pool InitializeClientIds builds: 1, 2, ..., n in ascending order. */
  function InitialIds(n: nat): (ids: seq<ushort>)
    requires n < 0x1_0000
    ensures |ids| == n
  {
    if n == 0 then [] else InitialIds(n - 1) + [n]
  }

  /** The initial pool is 1, 2, ..., n in ascending order. */
  lemma {:induction false} InitialIdsAscending(n: nat)
    requires n < 0x1_0000
    ensures forall i :: 0 <= i < n ==> InitialIds(n)[i] == i + 1
  {
    if n > 0 {
      InitialIdsAscending(n - 1);
    }
  }

  /** Every id from 1 to n is in the initial pool exactly once, and nothing else is. */
  lemma {:induction false} InitialIdsOnce(n: nat, x: ushort)
    requires n < 0x1_0000
    ensures multiset(InitialIds(n))[x] == if 1 <= x <= n then 1 else 0
  {
    if n > 0 {
      InitialIdsOnce(n - 1, x);
      CountSnoc(InitialIds(n - 1), n, x);
    }
  }

  /** Appending `y` adds one occurrence of `y` and no other. */
  lemma CountSnoc(s: seq<ushort>, y: ushort, x: ushort)
    ensures multiset(s + [y])[x] == multiset(s)[x] + (if x == y then 1 else 0)
  {
    assert multiset(s + [y]) == multiset(s) + multiset{y};
  }

  /** The ids of a sequence of connections, in order. */
  function Ids(cs: seq<SteamConnection>): (ids: seq<ushort>)
    ensures |ids| == |cs|
    ensures forall i :: 0 <= i < |cs| ==> ids[i] == cs[i].id
  {
    seq(|cs|, i requires 0 <= i < |cs| => cs[i].id)
  }

  /** Connections `i` and `j` of `cs` share neither key. */
  ghost predicate DistinctAt(cs: seq<SteamConnection>, i: int, j: int)
    requires 0 <= i < |cs| && 0 <= j < |cs|
  {
    cs[i].id != cs[j].id && cs[i].steamId != cs[j].steamId
  }

  /** No two connections share an id or a Steam id (the two keys of the registry). */
  ghost predicate KeysDistinct(cs: seq<SteamConnection>)
  {
    forall i, j :: 0 <= i < j < |cs| ==> DistinctAt(cs, i, j)
  }

  lemma KeysDistinctAt(cs: seq<SteamConnection>, i: int, j: int)
    requires KeysDistinct(cs) && 0 <= i < |cs| && 0 <= j < |cs| && i != j
    ensures cs[i].id != cs[j].id && cs[i].steamId != cs[j].steamId
  {
    if i < j {
      assert DistinctAt(cs, i, j);
    } else {
      assert DistinctAt(cs, j, i);
    }
  }

  /** Dropping the last connection keeps the keys distinct. */
  lemma KeysDistinctInit(cs: seq<SteamConnection>)
    requires KeysDistinct(cs) && cs != []
    ensures KeysDistinct(cs[..|cs| - 1])
  {
    var init := cs[..|cs| - 1];
    forall i, j | 0 <= i < j < |init|
      ensures DistinctAt(init, i, j)
    {
      assert DistinctAt(cs, i, j);
    }
  }

  /** One message sent to each connection of `cs`, in order, over its handle. */
  function SendsTo(cs: seq<SteamConnection>, m: Message): (r: seq<Outgoing>)
    ensures |r| == |cs|
    ensures forall i {:trigger r[i]} :: 0 <= i < |cs| ==> r[i] == Outgoing(cs[i].handle, m)
  {
    if cs == [] then [] else SendsTo(cs[..|cs| - 1], m) + [Outgoing(cs[|cs| - 1].handle, m)]
  }

  /** Sending to one more connection appends one send. */
  lemma {:induction false} SendsToSnoc(cs: seq<SteamConnection>, c: SteamConnection, m: Message)
    ensures SendsTo(cs + [c], m) == SendsTo(cs, m) + [Outgoing(c.handle, m)]
  {
    assert (cs + [c])[..|cs|] == cs;
  }

  /** One CloseConnection with `reason` for each connection of `cs`, in order. */
  function ClosuresOf(cs: seq<SteamConnection>, reason: string): (r: seq<Closure>)
    ensures |r| == |cs|
    ensures forall i {:trigger r[i]} :: 0 <= i < |cs| ==> r[i] == Closure(cs[i].handle, reason)
  {
    if cs == [] then [] else ClosuresOf(cs[..|cs| - 1], reason) + [Closure(cs[|cs| - 1].handle, reason)]
  }

  /** The connections of `cs` other than `c`, in order. */
  function Without(cs: seq<SteamConnection>, c: SteamConnection): (r: seq<SteamConnection>)
    ensures |r| <= |cs|
  {
    if cs == [] then []
    else
      var rest := Without(cs[..|cs| - 1], c);
      if cs[|cs| - 1] == c then rest else rest + [cs[|cs| - 1]]
  }

  /** The connections of `cs` whose id differs from `id`, in order. */
  function ExceptId(cs: seq<SteamConnection>, id: ushort): (r: seq<SteamConnection>)
    ensures |r| <= |cs|
  {
    if cs == [] then []
    else
      var rest := ExceptId(cs[..|cs| - 1], id);
      if cs[|cs| - 1].id == id then rest else rest + [cs[|cs| - 1]]
  }

  lemma {:induction false} ExceptIdSnoc(cs: seq<SteamConnection>, c: SteamConnection, id: ushort)
    ensures ExceptId(cs + [c], id) == ExceptId(cs, id) + (if c.id == id then [] else [c])
  {
    assert (cs + [c])[..|cs|] == cs;
  }

  /** The connections of `cs` whose Steam id differs from `steamId`, in order. */
  function ExceptSteamId(cs: seq<SteamConnection>, steamId: SteamId): (r: seq<SteamConnection>)
    ensures |r| <= |cs|
  {
    if cs == [] then []
    else
      var rest := ExceptSteamId(cs[..|cs| - 1], steamId);
      if cs[|cs| - 1].steamId == steamId then rest else rest + [cs[|cs| - 1]]
  }

  lemma {:induction false} ExceptSteamIdSnoc(cs: seq<SteamConnection>, c: SteamConnection, steamId: SteamId)
    ensures ExceptSteamId(cs + [c], steamId) == ExceptSteamId(cs, steamId) + (if c.steamId == steamId then [] else [c])
  {
    assert (cs + [c])[..|cs|] == cs;
  }

  /** `Without(cs, c)` keeps exactly the connections of `cs` other than `c`. */
  lemma {:induction false} WithoutMembers(cs: seq<SteamConnection>, c: SteamConnection)
    ensures forall i :: 0 <= i < |Without(cs, c)| ==> Without(cs, c)[i] in cs && Without(cs, c)[i] != c
    ensures forall i :: 0 <= i < |cs| && cs[i] != c ==> cs[i] in Without(cs, c)
  {
    if cs != [] {
      var init := cs[..|cs| - 1];
      WithoutMembers(init, c);
      assert cs == init + [cs[|cs| - 1]];
    }
  }

  /** `ExceptId(cs, id)` keeps exactly the connections of `cs` whose id is not `id`. */
  lemma {:induction false} ExceptIdMembers(cs: seq<SteamConnection>, id: ushort)
    ensures forall i :: 0 <= i < |ExceptId(cs, id)| ==> ExceptId(cs, id)[i] in cs && ExceptId(cs, id)[i].id != id
    ensures forall i :: 0 <= i < |cs| && cs[i].id != id ==> cs[i] in ExceptId(cs, id)
  {
    if cs != [] {
      var init := cs[..|cs| - 1];
      ExceptIdMembers(init, id);
      assert cs == init + [cs[|cs| - 1]];
    }
  }

  /** `ExceptSteamId(cs, steamId)` keeps exactly the connections of `cs` whose
      Steam id is not `steamId`. */
  lemma {:induction false} ExceptSteamIdMembers(cs: seq<SteamConnection>, steamId: SteamId)
    ensures forall i :: 0 <= i < |ExceptSteamId(cs, steamId)| ==> ExceptSteamId(cs, steamId)[i] in cs && ExceptSteamId(cs, steamId)[i].steamId != steamId
    ensures forall i :: 0 <= i < |cs| && cs[i].steamId != steamId ==> cs[i] in ExceptSteamId(cs, steamId)
  {
    if cs != [] {
      var init := cs[..|cs| - 1];
      ExceptSteamIdMembers(init, steamId);
      assert cs == init + [cs[|cs| - 1]];
    }
  }

  /** One more step of a loop that sends to every connection whose id is not `id`. */
  lemma SendsToExceptIdStep(cs: seq<SteamConnection>, i: nat, id: ushort, m: Message)
    requires i < |cs|
    ensures SendsTo(ExceptId(cs[..i + 1], id), m)
            == SendsTo(ExceptId(cs[..i], id), m) + (if cs[i].id == id then [] else [Outgoing(cs[i].handle, m)])
  {
    assert cs[..i + 1] == cs[..i] + [cs[i]];
    ExceptIdSnoc(cs[..i], cs[i], id);
    if cs[i].id != id {
      SendsToSnoc(ExceptId(cs[..i], id), cs[i], m);
    }
  }

  /** One more step of a loop that sends to every connection whose Steam id is not `steamId`. */
  lemma SendsToExceptSteamIdStep(cs: seq<SteamConnection>, i: nat, steamId: SteamId, m: Message)
    requires i < |cs|
    ensures SendsTo(ExceptSteamId(cs[..i + 1], steamId), m)
            == SendsTo(ExceptSteamId(cs[..i], steamId), m)
               + (if cs[i].steamId == steamId then [] else [Outgoing(cs[i].handle, m)])
  {
    assert cs[..i + 1] == cs[..i] + [cs[i]];
    ExceptSteamIdSnoc(cs[..i], cs[i], steamId);
    if cs[i].steamId != steamId {
      SendsToSnoc(ExceptSteamId(cs[..i], steamId), cs[i], m);
    }
  }

  /** Removing a connection that is registered once shortens the registry by one
      and keeps both keys distinct. */
  lemma {:induction false} WithoutRegistered(cs: seq<SteamConnection>, c: SteamConnection)
    requires KeysDistinct(cs) && c in cs
    ensures |Without(cs, c)| == |cs| - 1
    ensures KeysDistinct(Without(cs, c))
    ensures multiset(Ids(Without(cs, c))) + multiset{c.id} == multiset(Ids(cs))
  {
    var init, last := cs[..|cs| - 1], cs[|cs| - 1];
    assert cs == init + [last];
    assert Ids(cs) == Ids(init) + [last.id];
    KeysDistinctInit(cs);
    if last == c {
      forall k | 0 <= k < |init|
        ensures init[k] != c
      {
        KeysDistinctAt(cs, k, |cs| - 1);
      }
      assert c !in init;
      WithoutAbsent(init, c);
    } else {
      assert c in init;
      WithoutRegistered(init, c);
      WithoutMembers(init, c);
      var rest := Without(init, c);
      var r := rest + [last];
      assert Without(cs, c) == r;
      assert Ids(r) == Ids(rest) + [last.id];
      forall i, j | 0 <= i < j < |r|
        ensures DistinctAt(r, i, j)
      {
        if j == |rest| {
          var d := rest[i];
          assert d in init;
          var k :| 0 <= k < |init| && init[k] == d;
          KeysDistinctAt(cs, k, |cs| - 1);
        } else {
          assert DistinctAt(rest, i, j);
        }
      }
    }
  }

  /** Removing a connection that is not there changes nothing. */
  lemma {:induction false} WithoutAbsent(cs: seq<SteamConnection>, c: SteamConnection)
    requires c !in cs
    ensures Without(cs, c) == cs
  {
    if cs != [] {
      var init := cs[..|cs| - 1];
      assert c !in init;
      WithoutAbsent(init, c);
      assert cs == init + [cs[|cs| - 1]];
    }
  }

  /** Every id is either free in the pool or held by exactly one registered
      connection, and together they are exactly the initial pool. */
  ghost predicate Accounted(pool: seq<ushort>, cs: seq<SteamConnection>, max: ushort)
  {
    multiset(pool) + multiset(Ids(cs)) == multiset(InitialIds(max))
  }

  /** What accounting guarantees: the registry and the pool together hold `max`
      ids, every pooled id lies in 1..max, is free and occurs once, and every
      registered id lies in 1..max. In particular the registry never exceeds `max`. */
  lemma AccountedFacts(pool: seq<ushort>, cs: seq<SteamConnection>, max: ushort)
    requires Accounted(pool, cs, max)
    ensures |pool| + |cs| == max
    ensures forall x :: x in pool ==> 1 <= x <= max && x !in Ids(cs)
    ensures forall i, j :: 0 <= i < j < |pool| ==> pool[i] != pool[j]
    ensures forall c :: c in cs ==> 1 <= c.id <= max
  {
    assert |multiset(pool) + multiset(Ids(cs))| == |pool| + |cs|;
    forall x | x in pool
      ensures 1 <= x <= max && x !in Ids(cs)
    {
      InitialIdsOnce(max, x);
    }
    forall i, j | 0 <= i < j < |pool|
      ensures pool[i] != pool[j]
    {
      if pool[i] == pool[j] {
        TwiceInSeq(pool, i, j);
        InitialIdsOnce(max, pool[i]);
        assert false;
      }
    }
    forall c | c in cs
      ensures 1 <= c.id <= max
    {
      var k :| 0 <= k < |cs| && cs[k] == c;
      assert Ids(cs)[k] == c.id;
      InitialIdsOnce(max, c.id);
    }
  }

  /** A value at two positions of a sequence occurs at least twice in it. */
  lemma TwiceInSeq(s: seq<ushort>, i: nat, j: nat)
    requires i < j < |s| && s[i] == s[j]
    ensures multiset(s)[s[i]] >= 2
  {
    assert s == s[..j] + [s[j]] + s[j + 1..];
    assert s[i] in s[..j];
  }

  /** Moving the first pooled id to a new connection keeps the accounting. */
  lemma AllocateKeepsAccounted(pool: seq<ushort>, cs: seq<SteamConnection>, c: SteamConnection, max: ushort)
    requires Accounted(pool, cs, max) && |pool| > 0 && c.id == pool[0]
    ensures Accounted(pool[1..], cs + [c], max)
  {
    assert pool == [pool[0]] + pool[1..];
    assert Ids(cs + [c]) == Ids(cs) + [c.id];
  }

  /** Returning a removed connection's id once to the end of the pool keeps the accounting. */
  lemma ReleaseKeepsAccounted(pool: seq<ushort>, cs: seq<SteamConnection>, c: SteamConnection, max: ushort)
    requires Accounted(pool, cs, max) && KeysDistinct(cs) && c in cs
    ensures Accounted(pool + [c.id], Without(cs, c), max)
  {
    WithoutRegistered(cs, c);
  }

  /** Returning the id twice, as a kick does, breaks the accounting: the id is
      then pooled twice although the initial pool holds it once. */
  lemma ReleaseTwiceBreaksAccounted(pool: seq<ushort>, cs: seq<SteamConnection>, c: SteamConnection, max: ushort)
    requires Accounted(pool, cs, max) && KeysDistinct(cs) && c in cs
    ensures !Accounted(pool + [c.id] + [c.id], Without(cs, c), max)
    ensures multiset(pool + [c.id] + [c.id])[c.id] >= 2
  {
    WithoutRegistered(cs, c);
    InitialIdsOnce(max, c.id);
  }

  /** Taking an id from an empty pool, as an accept or a local join does when the
      server is full, registers a connection under id 0: the registry then holds
      one connection more than `max` and the accounting is broken. */
  lemma AllocateFromEmptyPool(cs: seq<SteamConnection>, c: SteamConnection, max: ushort)
    requires Accounted([], cs, max) && c.id == 0
    ensures |cs + [c]| == max as int + 1
    ensures !Accounted([], cs + [c], max)
  {
    AccountedFacts([], cs, max);
    if Accounted([], cs + [c], max) {
      AccountedFacts([], cs + [c], max);
      assert false;
    }
  }

  /** The client-connected notice skips exactly the newcomer: when the newcomer's
      Steam id is not among the earlier connections, filtering it out of the
      registry leaves exactly the earlier connections. */
  lemma {:induction false} ExceptNewcomer(cs: seq<SteamConnection>, c: SteamConnection)
    requires forall i :: 0 <= i < |cs| ==> cs[i].steamId != c.steamId
    ensures ExceptSteamId(cs + [c], c.steamId) == cs
  {
    assert (cs + [c])[..|cs|] == cs;
    ExceptSteamIdNone(cs, c.steamId);
  }

  /** The client-connected notice for a newcomer `c` appended to `before`: it
      reaches exactly the connections of `before`, and nobody when `before` is empty. */
  lemma NoticeAfterAdd(before: seq<SteamConnection>, c: SteamConnection, m: Message)
    requires forall i :: 0 <= i < |before| ==> before[i].steamId != c.steamId
    ensures SendsTo(ExceptSteamId(before + [c], c.steamId), m) == SendsTo(before, m)
    ensures before == [] ==> SendsTo(before, m) == []
  {
    ExceptNewcomer(before, c);
  }

  lemma {:induction false} ExceptSteamIdNone(cs: seq<SteamConnection>, steamId: SteamId)
    requires forall i :: 0 <= i < |cs| ==> cs[i].steamId != steamId
    ensures ExceptSteamId(cs, steamId) == cs
  {
    if cs != [] {
      ExceptSteamIdNone(cs[..|cs| - 1], steamId);
      assert cs == cs[..|cs| - 1] + [cs[|cs| - 1]];
    }
  }

  /** One index of the DoubleKeyDictionary, by id: every connection of `values`
      is found under its id, the index holds only connections of `values` under
      their own ids, and it has one entry per connection. */
  ghost predicate IdIndexed(byId: map<ushort, SteamConnection>, values: seq<SteamConnection>)
  {
    && (forall i :: 0 <= i < |values| ==> values[i].id in byId && byId[values[i].id] == values[i])
    && (forall k {:trigger byId[k]} :: k in byId ==> byId[k] in values && byId[k].id == k)
    && |byId| == |values|
  }

  /** The other index, by Steam id. */
  ghost predicate SteamIdIndexed(bySteamId: map<SteamId, SteamConnection>, values: seq<SteamConnection>)
  {
    && (forall i :: 0 <= i < |values| ==> values[i].steamId in bySteamId && bySteamId[values[i].steamId] == values[i])
    && (forall s {:trigger bySteamId[s]} :: s in bySteamId ==> bySteamId[s] in values && bySteamId[s].steamId == s)
    && |bySteamId| == |values|
  }

  /** The DoubleKeyDictionary invariant: both indexes agree with `values` and no
      key is shared. */
  ghost predicate Indexed(byId: map<ushort, SteamConnection>, bySteamId: map<SteamId, SteamConnection>,
                          values: seq<SteamConnection>)
  {
    KeysDistinct(values) && IdIndexed(byId, values) && SteamIdIndexed(bySteamId, values)
  }

  lemma AddKeepsIdIndexed(byId: map<ushort, SteamConnection>, values: seq<SteamConnection>, c: SteamConnection)
    requires IdIndexed(byId, values) && c.id !in byId
    ensures IdIndexed(byId[c.id := c], values + [c])
  {
    var values', byId' := values + [c], byId[c.id := c];
    forall i | 0 <= i < |values'|
      ensures values'[i].id in byId' && byId'[values'[i].id] == values'[i]
    {
      if i < |values| {
        assert values'[i] == values[i];
      }
    }
    forall k | k in byId'
      ensures byId'[k] in values' && byId'[k].id == k
    {
      if k != c.id {
        assert byId'[k] == byId[k] && byId[k] in values;
      }
    }
    assert byId'.Keys == byId.Keys + {c.id};
  }

  lemma AddKeepsSteamIdIndexed(bySteamId: map<SteamId, SteamConnection>, values: seq<SteamConnection>, c: SteamConnection)
    requires SteamIdIndexed(bySteamId, values) && c.steamId !in bySteamId
    ensures SteamIdIndexed(bySteamId[c.steamId := c], values + [c])
  {
    var values', bySteamId' := values + [c], bySteamId[c.steamId := c];
    forall i | 0 <= i < |values'|
      ensures values'[i].steamId in bySteamId' && bySteamId'[values'[i].steamId] == values'[i]
    {
      if i < |values| {
        assert values'[i] == values[i];
      }
    }
    forall t | t in bySteamId'
      ensures bySteamId'[t] in values' && bySteamId'[t].steamId == t
    {
      if t != c.steamId {
        assert bySteamId'[t] == bySteamId[t] && bySteamId[t] in values;
      }
    }
    assert bySteamId'.Keys == bySteamId.Keys + {c.steamId};
  }

  /** Adding a connection under two fresh keys keeps the dictionary consistent. */
  lemma AddKeepsIndexed(byId: map<ushort, SteamConnection>, bySteamId: map<SteamId, SteamConnection>,
                        values: seq<SteamConnection>, c: SteamConnection)
    requires Indexed(byId, bySteamId, values)
    requires c.id !in byId && c.steamId !in bySteamId
    ensures Indexed(byId[c.id := c], bySteamId[c.steamId := c], values + [c])
  {
    AddKeepsIdIndexed(byId, values, c);
    AddKeepsSteamIdIndexed(bySteamId, values, c);
    var values' := values + [c];
    forall i, j | 0 <= i < j < |values'|
      ensures DistinctAt(values', i, j)
    {
      if j == |values| {
        assert values'[i] == values[i];
      } else {
        assert DistinctAt(values, i, j);
      }
    }
  }

  lemma RemoveKeepsIdIndexed(byId: map<ushort, SteamConnection>, values: seq<SteamConnection>, c: SteamConnection)
    requires IdIndexed(byId, values) && c in values && |Without(values, c)| == |values| - 1
    ensures c.id in byId
    ensures IdIndexed(byId - {c.id}, Without(values, c))
  {
    var values', byId' := Without(values, c), byId - {c.id};
    WithoutMembers(values, c);
    forall i | 0 <= i < |values'|
      ensures values'[i].id in byId' && byId'[values'[i].id] == values'[i]
    {
      var d := values'[i];
      assert d in values';
      assert d in values;
      var k :| 0 <= k < |values| && values[k] == d;
      assert d.id in byId && byId[d.id] == d;
    }
    forall k | k in byId'
      ensures byId'[k] in values' && byId'[k].id == k
    {
      assert byId[k] in values;
    }
    var j :| 0 <= j < |values| && values[j] == c;
    assert byId'.Keys == byId.Keys - {c.id};
  }

  lemma RemoveKeepsSteamIdIndexed(bySteamId: map<SteamId, SteamConnection>, values: seq<SteamConnection>, c: SteamConnection)
    requires SteamIdIndexed(bySteamId, values) && c in values && |Without(values, c)| == |values| - 1
    ensures c.steamId in bySteamId
    ensures SteamIdIndexed(bySteamId - {c.steamId}, Without(values, c))
  {
    var values', bySteamId' := Without(values, c), bySteamId - {c.steamId};
    WithoutMembers(values, c);
    forall i | 0 <= i < |values'|
      ensures values'[i].steamId in bySteamId' && bySteamId'[values'[i].steamId] == values'[i]
    {
      var d := values'[i];
      assert d in values';
      assert d in values;
      var k :| 0 <= k < |values| && values[k] == d;
      assert d.steamId in bySteamId && bySteamId[d.steamId] == d;
    }
    forall t | t in bySteamId'
      ensures bySteamId'[t] in values' && bySteamId'[t].steamId == t
    {
      assert bySteamId[t] in values;
    }
    var j :| 0 <= j < |values| && values[j] == c;
    assert bySteamId'.Keys == bySteamId.Keys - {c.steamId};
  }

  /** Removing a registered connection under both of its keys keeps the
      dictionary consistent. */
  lemma RemoveKeepsIndexed(byId: map<ushort, SteamConnection>, bySteamId: map<SteamId, SteamConnection>,
                           values: seq<SteamConnection>, c: SteamConnection)
    requires Indexed(byId, bySteamId, values) && c in values
    ensures c.id in byId && c.steamId in bySteamId
    ensures Indexed(byId - {c.id}, bySteamId - {c.steamId}, Without(values, c))
  {
    WithoutRegistered(values, c);
    RemoveKeepsIdIndexed(byId, values, c);
    RemoveKeepsSteamIdIndexed(bySteamId, values, c);
  }
}

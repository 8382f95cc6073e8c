/**
When the in-memory tables and the store agree, that agreement fixes all routing, and
that a restart re-establishes it from any well-formed store.
*/
module MetaAgreement {
  import opened Options
  import opened SharePath
  import opened MetaStore
  import opened MetaTables

  // ---------------------------------------------------------------- agreement

  /** The node a user is assigned to, reachable or not. */
  ghost function HomeOf(m: Mem, u: string): Option<string> {
    if u in m.users && m.users[u] in m.nodes then Some(m.nodes[m.users[u]].id)
    else if u in m.orphans then Some(m.orphans[u])
    else None
  }

  ghost function StoredHome(s: Store, u: string): Option<string> {
    if u in s.users then Some(s.users[u]) else None
  }

  ghost predicate SameNodes(m: Mem, s: Store) {
    && (forall n :: n in m.nodes ==>
         m.nodes[n].id in s.nodes && s.nodes[m.nodes[n].id] == NodeRec(n, m.nodes[n].address))
    && (forall a {:trigger a in s.nodes} :: a in s.nodes ==> s.nodes[a].num in m.nodes && m.nodes[s.nodes[a].num].id == a)
  }

  ghost predicate SameHomes(m: Mem, s: Store) {
    forall u :: HomeOf(m, u) == StoredHome(s, u)
  }

  /** Every grant that is visible in memory is recorded. */
  ghost predicate SharesRecorded(shared: map<string, seq<Visible>>, s: Store) {
    forall g :: InMem(shared, g) ==> g in s.shares
  }

  ghost predicate Agree(m: Mem, s: Store) {
    SameNodes(m, s) && SameHomes(m, s) && SharesRecorded(m.shared, s)
  }

  /** Two tables agreeing with one store route everyone alike. */
  lemma AgreeDeterminesRouting(m: Mem, k: Mem, s: Store)
    requires MemInv(m) && MemInv(k) && Agree(m, s) && Agree(k, s)
    ensures m.users == k.users && m.orphans == k.orphans && m.nodes.Keys == k.nodes.Keys
    ensures forall n :: n in m.nodes ==>
      m.nodes[n].id == k.nodes[n].id && m.nodes[n].address == k.nodes[n].address && m.nodes[n].load == k.nodes[n].load
  {
    hide SharesRecorded, SameHomes, SameNodes;
    SameTable(m, k, s);
    SameTable(k, m, s);
    forall u | u in m.users ensures u in k.users && k.users[u] == m.users[u] { SameRoute(m, k, s, u); }
    forall u | u in k.users ensures u in m.users && k.users[u] == m.users[u] { SameRoute(k, m, s, u); }
    forall u | u in m.orphans ensures u in k.orphans && k.orphans[u] == m.orphans[u] { SameRoute(m, k, s, u); }
    forall u | u in k.orphans ensures u in m.orphans && k.orphans[u] == m.orphans[u] { SameRoute(k, m, s, u); }
    assert m.users == k.users;
    assert m.orphans == k.orphans;
  }

  lemma SameTable(m: Mem, k: Mem, s: Store)
    requires SameNodes(m, s) && SameNodes(k, s)
    ensures forall n :: n in m.nodes ==> n in k.nodes && m.nodes[n].id == k.nodes[n].id && m.nodes[n].address == k.nodes[n].address
  {
  }

  lemma SameRoute(m: Mem, k: Mem, s: Store, u: string)
    requires MemInv(m) && MemInv(k) && Agree(m, s) && Agree(k, s)
    ensures u in m.users ==> u in k.users && k.users[u] == m.users[u]
    ensures u in m.orphans ==> u in k.orphans && k.orphans[u] == m.orphans[u]
  {
    hide SharesRecorded, LoadsExact;
    assert HomeOf(m, u) == StoredHome(s, u) == HomeOf(k, u);
    if u in m.users {
      var a := m.nodes[m.users[u]].id;
      assert s.nodes[a].num == m.users[u];
      if u in k.users { assert k.nodes[k.users[u]].id == a; }
    }
  }

  // ---------------------------------------------------------------- hydration

  lemma {:induction false} HydrateSharedHas(order: seq<Grant>, g: Grant)
    ensures InMem(HydrateShared(order), g) <==> g in order
    decreases |order|
  {
    if order == [] {
    } else {
      var before, last := order[..|order| - 1], order[|order| - 1];
      HydrateSharedHas(before, g);
      assert order == before + [last];
    }
  }

  lemma WithListsHas(shared: map<string, seq<Visible>>, who: set<string>, g: Grant)
    ensures InMem(WithLists(shared, who), g) <==> InMem(shared, g)
  {
  }

  lemma HydrateNodes(s: Store, live: map<string, Live>, order: seq<Grant>, now: int, allowPurge: bool, timeout: int)
    requires StoreInv(s)
    ensures SameNodes(Hydrate(s, live, order, now, allowPurge, timeout), s)
  {
    hide WithLists, HydrateShared, HydrateUsers, Seen, Hosted;
    var m := Hydrate(s, live, order, now, allowPurge, timeout);
    forall a | a in s.nodes ensures s.nodes[a].num in m.nodes && m.nodes[s.nodes[a].num].id == a {
      assert Numbered(s, s.nodes[a].num);
    }
    forall n | n in m.nodes ensures m.nodes[n].id in s.nodes && s.nodes[m.nodes[n].id] == NodeRec(n, m.nodes[n].address) {
      assert Numbered(s, n);
      assert m.nodes[n].id == NodeNamed(s, n);
    }
  }

  lemma HydrateHomes(s: Store, m: Mem)
    requires StoreInv(s) && SameNodes(m, s)
    requires m.users == HydrateUsers(s) && m.orphans == (map u | u in s.users && s.users[u] !in s.nodes :: s.users[u])
    ensures SameHomes(m, s)
  {
    forall u ensures HomeOf(m, u) == StoredHome(s, u) {
      if u in s.users && s.users[u] in s.nodes { assert m.users[u] == s.nodes[s.users[u]].num; }
    }
  }

  lemma HydrateWellFormed(s: Store, m: Mem)
    requires StoreInv(s) && SameNodes(m, s)
    requires m.users == HydrateUsers(s) && m.orphans == (map u | u in s.users && s.users[u] !in s.nodes :: s.users[u])
    requires LoadsExact(m)
    ensures MemInv(m)
  {
    hide LoadsExact;
    forall u, n | u in m.orphans && n in m.nodes ensures m.nodes[n].id != m.orphans[u] { }
    forall u | u in m.users ensures m.users[u] in m.nodes && u !in m.orphans { }
  }

  /** Whatever well-formed store a restart finds, the tables it builds are well formed and agree with it. */
  lemma HydrateAgrees(s: Store, live: map<string, Live>, order: seq<Grant>, now: int, allowPurge: bool, timeout: int) returns (m: Mem)
    requires StoreInv(s) && Lists(s.shares, order)
    ensures m == Hydrate(s, live, order, now, allowPurge, timeout)
    ensures MemInv(m) && Agree(m, s)
    ensures forall g :: InMem(m.shared, g) <==> g in s.shares
  {
    hide WithLists, HydrateShared, Seen, Hosted, SameNodes, SameHomes, HydrateUsers, MemInv, StoreInv, InMem;
    m := Hydrate(s, live, order, now, allowPurge, timeout);
    HydrateNodes(s, live, order, now, allowPurge, timeout);
    HydrateHomes(s, m);
    assert LoadsExact(m);
    HydrateWellFormed(s, m);
    forall g ensures InMem(m.shared, g) <==> g in s.shares {
      WithListsHas(HydrateShared(order), HydrateUsers(s).Keys, g);
      HydrateSharedHas(order, g);
    }
  }
}

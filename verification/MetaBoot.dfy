/**
Starting a metaserver: the in-memory tables are rebuilt from a snapshot of the store,
map by map, and are exactly the tables a restart is defined to have.
*/
module MetaBoot {
  import opened MetaStore
  import opened MetaTables
  import opened MetaAgreement

  /** The node table of a snapshot, with every load still at zero. */
  ghost predicate LoadedNodes(nodes: map<nat, Node>, done: map<string, NodeRec>, live: map<string, Live>, now: int) {
    && (forall a {:trigger a in done} :: a in done ==> done[a].num in nodes && nodes[done[a].num].id == a)
    && (forall n :: n in nodes ==>
         var a := nodes[n].id;
         a in done && done[a].num == n && nodes[n] == Node(a, done[a].address, 0, Seen(live, a, now).lastSeen, Seen(live, a, now).status))
  }

  ghost predicate DistinctNumbers(docs: map<string, NodeRec>) {
    forall a, b :: a in docs && b in docs && docs[a].num == docs[b].num ==> a == b
  }

  method LoadNodes(docs: map<string, NodeRec>, live: map<string, Live>, now: int) returns (nodes: map<nat, Node>, numbers: map<string, nat>)
    requires DistinctNumbers(docs)
    ensures LoadedNodes(nodes, docs, live, now)
    ensures numbers == Numbers(docs)
  {
    hide LoadedNodes, DistinctNumbers;
    NothingLoaded(live, now);
    nodes, numbers := map[], map[];
    var todo := docs.Keys;
    ghost var done: map<string, NodeRec> := map[];
    while todo != {}
      invariant todo <= docs.Keys && done == docs - todo
      invariant LoadedNodes(nodes, done, live, now)
      invariant numbers == Numbers(done)
      decreases |todo|
    {
      var a :| a in todo;
      var info := Node(a, docs[a].address, 0, if a in live then live[a].lastSeen else 0, if a in live then live[a].status else Healthy);
      if info.lastSeen == 0 { info := info.(lastSeen := now); }
      LoadOne(nodes, done, docs, live, now, a, info);
      nodes := nodes[docs[a].num := info];
      numbers := numbers[a := docs[a].num];
      assert docs - (todo - {a}) == done[a := docs[a]];
      todo := todo - {a};
      done := done[a := docs[a]];
    }
    assert done == docs;
  }

  function Numbers(docs: map<string, NodeRec>): map<string, nat> {
    map a | a in docs :: docs[a].num
  }

  lemma NothingLoaded(live: map<string, Live>, now: int)
    ensures LoadedNodes(map[], map[], live, now)
  {
  }

  lemma LoadOne(nodes: map<nat, Node>, done: map<string, NodeRec>, docs: map<string, NodeRec>, live: map<string, Live>, now: int, a: string, info: Node)
    requires DistinctNumbers(docs) && LoadedNodes(nodes, done, live, now)
    requires a in docs && a !in done && forall b :: b in done ==> b in docs && docs[b] == done[b]
    requires info == Node(a, docs[a].address, 0, Seen(live, a, now).lastSeen, Seen(live, a, now).status)
    ensures LoadedNodes(nodes[docs[a].num := info], done[a := docs[a]], live, now)
  {
    hide Seen;
  }

  function Reached(homes: map<string, string>, numbers: map<string, nat>): map<string, nat> {
    map u | u in homes && homes[u] in numbers :: numbers[homes[u]]
  }

  function Unreached(homes: map<string, string>, numbers: map<string, nat>): map<string, string> {
    map u | u in homes && homes[u] !in numbers :: homes[u]
  }

  method LoadUsers(homes: map<string, string>, numbers: map<string, nat>) returns (users: map<string, nat>, orphans: map<string, string>)
    ensures users == Reached(homes, numbers) && orphans == Unreached(homes, numbers)
  {
    users, orphans := map[], map[];
    var todo := homes.Keys;
    while todo != {}
      invariant todo <= homes.Keys
      invariant users == map u | u in homes && u !in todo && homes[u] in numbers :: numbers[homes[u]]
      invariant orphans == map u | u in homes && u !in todo && homes[u] !in numbers :: homes[u]
      decreases |todo|
    {
      var u :| u in todo;
      if homes[u] in numbers { users := users[u := numbers[homes[u]]]; } else { orphans := orphans[u := homes[u]]; }
      todo := todo - {u};
    }
  }

  /** The users among `done` that are routed to `n`. */
  ghost function HostedAmong(users: map<string, nat>, done: set<string>, n: nat): set<string> {
    set u | u in done && u in users && users[u] == n
  }

  lemma HostedGrows(users: map<string, nat>, done: set<string>, u: string, n: nat)
    requires u in users && u !in done
    ensures HostedAmong(users, done + {u}, n) == HostedAmong(users, done, n) + if users[u] == n then {u} else {}
    ensures |HostedAmong(users, done + {u}, n)| == |HostedAmong(users, done, n)| + if users[u] == n then 1 else 0
  {
    assert HostedAmong(users, done + {u}, n) == HostedAmong(users, done, n) + if users[u] == n then {u} else {};
  }

  ghost function Loaded(nodes: map<nat, Node>, users: map<string, nat>, done: set<string>): map<nat, Node> {
    map n | n in nodes :: nodes[n].(load := |HostedAmong(users, done, n)|)
  }

  lemma LoadGrows(nodes: map<nat, Node>, users: map<string, nat>, done: set<string>, u: string)
    requires u in users && u !in done && users[u] in nodes
    ensures var n := users[u];
      n in Loaded(nodes, users, done) && Loaded(nodes, users, done + {u}) == Loaded(nodes, users, done)[n := Loaded(nodes, users, done)[n].(load := Loaded(nodes, users, done)[n].load + 1)]
  {
    hide HostedAmong;
    forall n | n in nodes ensures |HostedAmong(users, done + {u}, n)| == |HostedAmong(users, done, n)| + if users[u] == n then 1 else 0 {
      HostedGrows(users, done, u, n);
    }
  }

  /** Load is counted from the assignments. */
  method CountLoads(nodes: map<nat, Node>, users: map<string, nat>) returns (r: map<nat, Node>)
    requires forall n :: n in nodes ==> nodes[n].load == 0
    requires forall u :: u in users ==> users[u] in nodes
    ensures r == map n | n in nodes :: nodes[n].(load := |Hosted(users, n)|)
  {
    hide Loaded;
    r := nodes;
    NoneLoaded(nodes, users);
    var todo := users.Keys;
    ghost var done: set<string> := {};
    while todo != {}
      invariant todo <= users.Keys && done == users.Keys - todo
      invariant r == Loaded(nodes, users, done)
      decreases |todo|
    {
      var u :| u in todo;
      LoadGrows(nodes, users, done, u);
      var n := users[u];
      if n in r { r := r[n := r[n].(load := r[n].load + 1)]; }
      assert users.Keys - (todo - {u}) == done + {u};
      todo, done := todo - {u}, done + {u};
    }
    AllLoaded(nodes, users, done);
  }

  lemma NoneLoaded(nodes: map<nat, Node>, users: map<string, nat>)
    requires forall n :: n in nodes ==> nodes[n].load == 0
    ensures Loaded(nodes, users, {}) == nodes
  {
    forall n | n in nodes ensures nodes[n].(load := |HostedAmong(users, {}, n)|) == nodes[n] {
      assert HostedAmong(users, {}, n) == {};
    }
  }

  lemma AllLoaded(nodes: map<nat, Node>, users: map<string, nat>, done: set<string>)
    requires done == users.Keys
    ensures Loaded(nodes, users, done) == map n | n in nodes :: nodes[n].(load := |Hosted(users, n)|)
  {
    forall n | n in nodes ensures HostedAmong(users, done, n) == Hosted(users, n) { }
  }

  method LoadShares(order: seq<Grant>) returns (shared: map<string, seq<Visible>>)
    ensures shared == HydrateShared(order)
  {
    shared := map[];
    for i := 0 to |order|
      invariant shared == HydrateShared(order[..i])
    {
      var g := order[i];
      assert order[..i + 1][..i] == order[..i];
      shared := shared[g.grantee := (if g.grantee in shared then shared[g.grantee] else []) + [Visible(g.owner, g.path)]];
    }
    assert order[..|order|] == order;
  }

  lemma ListedOneMore(shared: map<string, seq<Visible>>, done: set<string>, u: string)
    ensures WithLists(shared, done + {u})
      == if u in WithLists(shared, done) then WithLists(shared, done) else WithLists(shared, done)[u := []]
  {
  }

  lemma NobodyListed(shared: map<string, seq<Visible>>)
    ensures WithLists(shared, {}) == shared
  {
  }

  /** Every known user gets a list. */
  method GiveLists(before: map<string, seq<Visible>>, known: set<string>) returns (shared: map<string, seq<Visible>>)
    ensures shared == WithLists(before, known)
  {
    hide WithLists;
    shared := before;
    NobodyListed(before);
    var todo := known;
    ghost var done: set<string> := {};
    while todo != {}
      invariant todo <= known && done == known - todo && shared == WithLists(before, done)
      decreases |todo|
    {
      var u :| u in todo;
      ListedOneMore(before, done, u);
      if u !in shared { shared := shared[u := []]; }
      todo, done := todo - {u}, done + {u};
    }
    assert done == known;
  }

  /** The tables a starting server builds are those of a restart on that store. */
  method Boot(docs: map<string, NodeRec>, homes: map<string, string>, order: seq<Grant>, live: map<string, Live>, now: int,
              allowPurge: bool, timeout: int, ghost store: Store) returns (m: Mem)
    requires StoreInv(store) && docs == store.nodes && homes == store.users
    ensures m == Hydrate(store, live, order, now, allowPurge, timeout)
  {
    hide Seen, WithLists, HydrateShared, LoadedNodes, Reached, Unreached, HydrateUsers, Hosted, Numbers;
    assert DistinctNumbers(docs);
    var nodes, numbers := LoadNodes(docs, live, now);
    var users, orphans := LoadUsers(homes, numbers);
    RoutedSomewhere(store, nodes, numbers, users, live, now);
    var loaded := CountLoads(nodes, users);
    BootNodes(store, nodes, loaded, live, order, now, allowPurge, timeout);
    var shared := LoadShares(order);
    shared := GiveLists(shared, users.Keys);
    m := Mem(loaded, users, orphans, shared, allowPurge, timeout);
  }

  lemma BootNodes(s: Store, nodes: map<nat, Node>, loaded: map<nat, Node>, live: map<string, Live>, order: seq<Grant>, now: int, allowPurge: bool, timeout: int)
    requires StoreInv(s) && LoadedNodes(nodes, s.nodes, live, now) && nodes.Keys == (set a | a in s.nodes :: s.nodes[a].num)
    requires forall n :: n in nodes ==> Numbered(s, n) && nodes[n].id == NodeNamed(s, n)
    requires loaded == map n | n in nodes :: nodes[n].(load := |Hosted(HydrateUsers(s), n)|)
    ensures loaded == Hydrate(s, live, order, now, allowPurge, timeout).nodes
  {
    hide Seen, WithLists, HydrateShared, Hosted, HydrateUsers, NodeNamed;
    var h := Hydrate(s, live, order, now, allowPurge, timeout).nodes;
    forall n | n in nodes ensures loaded[n] == h[n] { }
  }

  lemma RoutedSomewhere(s: Store, nodes: map<nat, Node>, numbers: map<string, nat>, users: map<string, nat>, live: map<string, Live>, now: int)
    requires StoreInv(s) && LoadedNodes(nodes, s.nodes, live, now)
    requires numbers == Numbers(s.nodes)
    requires users == Reached(s.users, numbers)
    ensures Unreached(s.users, numbers) == map u | u in s.users && s.users[u] !in s.nodes :: s.users[u]
    ensures users == HydrateUsers(s) && forall u :: u in users ==> users[u] in nodes
    ensures nodes.Keys == (set a | a in s.nodes :: s.nodes[a].num)
    ensures forall n :: n in nodes ==> nodes[n].load == 0 && Numbered(s, n) && nodes[n].id == NodeNamed(s, n)
  {
    hide Seen;
    forall n | n in nodes ensures nodes[n].load == 0 && Numbered(s, n) && nodes[n].id == NodeNamed(s, n) {
      assert s.nodes[nodes[n].id].num == n;
    }
  }
}

/**
The metaserver's in-memory tables and what each request does to them while it
holds the table lock: the new tables and the list of store writes to issue after
the lock is released.
*/
module MetaTables {
  import opened Options
  import opened SharePath
  import opened MetaStore

  datatype Status = Healthy | Stale

  datatype Node = Node(id: string, address: string, load: nat, lastSeen: int, status: Status)

  /** One directory visible to a user. */
  datatype Visible = Visible(owner: string, path: string)

  datatype Mem = Mem(
    nodes: map<nat, Node>,
    users: map<string, nat>,
    orphans: map<string, string>,
    shared: map<string, seq<Visible>>,
    allowPurge: bool,
    timeout: int)

  // ---------------------------------------------------------------- identity and health

  const LEGACY_PREFIX: string := "addr:"

  function ResolveNodeID(fsId: string, address: string): string {
    if fsId != "" then fsId else LEGACY_PREFIX + address
  }

  predicate IsLegacy(id: string) {
    LEGACY_PREFIX <= id
  }

  const SECOND := 1_000_000_000

  /** `now` and `lastSeen` count seconds, the timeout nanoseconds; none means no deadline. */
  predicate IsHealthy(m: Mem, n: Node, now: int) {
    n.status == Healthy && n.lastSeen != 0 && (m.timeout <= 0 || now - n.lastSeen <= m.timeout / SECOND)
  }

  ghost predicate Registered(m: Mem, id: string) {
    exists n :: n in m.nodes && m.nodes[n].id == id
  }

  /** The numeric id of a node id, if it is registered. */
  ghost function FindNode(m: Mem, id: string): (r: Option<nat>)
    ensures r.Some? ==> id != "" && r.value in m.nodes && m.nodes[r.value].id == id
    ensures r.None? && id != "" ==> !Registered(m, id)
  {
    if id != "" && Registered(m, id) then
      var n :| n in m.nodes && m.nodes[n].id == id;
      Some(n)
    else None
  }

  /** What a scan for an address may come back with: any node there, or nothing if there is none. */
  ghost predicate FoundAt(m: Mem, address: string, pick: Option<nat>) {
    match pick
    case Some(n) => address != "" && n in m.nodes && m.nodes[n].address == address
    case None => address == "" || forall n :: n in m.nodes ==> m.nodes[n].address != address
  }

  // ---------------------------------------------------------------- invariant

  ghost function Hosted(users: map<string, nat>, n: nat): set<string> {
    set u | u in users && users[u] == n
  }

  /** Node ids are distinct and non-empty, users are routed to registered nodes, orphans wait
      for unregistered ones, nobody is both, and each node's load is its number of users. */
  ghost predicate MemInv(m: Mem) {
    IdsDistinct(m) && UsersRouted(m) && OrphansApart(m) && LoadsExact(m)
  }

  ghost predicate IdsDistinct(m: Mem) {
    && (forall n :: n in m.nodes ==> m.nodes[n].id != "")
    && (forall a, b :: a in m.nodes && b in m.nodes && m.nodes[a].id == m.nodes[b].id ==> a == b)
  }

  ghost predicate UsersRouted(m: Mem) {
    forall u :: u in m.users ==> m.users[u] in m.nodes && u !in m.orphans
  }

  ghost predicate OrphansApart(m: Mem) {
    forall u, n :: u in m.orphans && n in m.nodes ==> m.nodes[n].id != m.orphans[u]
  }

  ghost predicate LoadsExact(m: Mem) {
    forall n :: n in m.nodes ==> m.nodes[n].load == |Hosted(m.users, n)|
  }

  // ---------------------------------------------------------------- shares in memory

  predicate ContainsShare(entries: seq<Visible>, owner: string, path: string) {
    Visible(owner, path) in entries
  }

  function WithoutOwners(entries: seq<Visible>, owners: set<string>): seq<Visible> {
    if entries == [] then []
    else if entries[0].owner in owners then WithoutOwners(entries[1..], owners)
    else [entries[0]] + WithoutOwners(entries[1..], owners)
  }

  function WithoutEntry(entries: seq<Visible>, e: Visible): seq<Visible> {
    if entries == [] then []
    else if entries[0] == e then WithoutEntry(entries[1..], e)
    else [entries[0]] + WithoutEntry(entries[1..], e)
  }

  lemma {:induction false} WithoutOwnersHas(entries: seq<Visible>, owners: set<string>, e: Visible)
    ensures e in WithoutOwners(entries, owners) <==> e in entries && e.owner !in owners
  {
    if entries == [] {
    } else {
      WithoutOwnersHas(entries[1..], owners, e);
      assert entries == [entries[0]] + entries[1..];
    }
  }

  lemma {:induction false} WithoutEntryHas(entries: seq<Visible>, x: Visible, e: Visible)
    ensures e in WithoutEntry(entries, x) <==> e in entries && e != x
  {
    if entries == [] {
    } else {
      WithoutEntryHas(entries[1..], x, e);
      assert entries == [entries[0]] + entries[1..];
    }
  }

  /** Drops every entry published by one of `owners`. */
  function DropOwners(shared: map<string, seq<Visible>>, owners: set<string>): map<string, seq<Visible>> {
    map g | g in shared :: WithoutOwners(shared[g], owners)
  }

  /** Gives each of `who` a list. */
  function WithLists(shared: map<string, seq<Visible>>, who: set<string>): map<string, seq<Visible>> {
    map g | g in shared.Keys + who :: if g in shared then shared[g] else []
  }

  function AddGrant(shared: map<string, seq<Visible>>, g: Grant): map<string, seq<Visible>> {
    var have := if g.grantee in shared then shared[g.grantee] else [];
    shared[g.grantee := if ContainsShare(have, g.owner, g.path) then have else have + [Visible(g.owner, g.path)]]
  }

  function AddGrants(shared: map<string, seq<Visible>>, gs: seq<Grant>): map<string, seq<Visible>>
    decreases |gs|
  {
    if gs == [] then shared else AddGrants(AddGrant(shared, gs[0]), gs[1..])
  }

  /** The grant is visible to its grantee. */
  predicate InMem(shared: map<string, seq<Visible>>, g: Grant) {
    g.grantee in shared && Visible(g.owner, g.path) in shared[g.grantee]
  }

  lemma {:induction false} AddGrantsHas(shared: map<string, seq<Visible>>, gs: seq<Grant>, g: Grant)
    ensures InMem(AddGrants(shared, gs), g) <==> InMem(shared, g) || g in gs
    decreases |gs|
  {
    if gs == [] {
    } else {
      AddGrantsHas(AddGrant(shared, gs[0]), gs[1..], g);
      assert gs == [gs[0]] + gs[1..];
      assert InMem(AddGrant(shared, gs[0]), g) <==> InMem(shared, g) || g == gs[0];
    }
  }

  lemma DropOwnersHas(shared: map<string, seq<Visible>>, owners: set<string>, g: Grant)
    ensures InMem(DropOwners(shared, owners), g) <==> InMem(shared, g) && g.owner !in owners
  {
    if g.grantee in shared { WithoutOwnersHas(shared[g.grantee], owners, Visible(g.owner, g.path)); }
  }

  // ---------------------------------------------------------------- registration

  datatype SharedDir = SharedDir(owner: string, path: string, users: seq<string>)

  datatype Req = Req(fsId: string, address: string, users: seq<string>, dirs: seq<SharedDir>)

  function Incoming(req: Req): set<string> {
    set u | u in req.users
  }

  /** The grants one shared directory stands for. */
  function DirGrants(d: SharedDir, users: seq<string>): seq<Grant> {
    if users == [] then []
    else (if users[0] == d.owner then [] else [Grant(users[0], d.owner, Normalize(d.path))]) + DirGrants(d, users[1..])
  }

  function GrantsFrom(dirs: seq<SharedDir>, owners: set<string>): seq<Grant> {
    if dirs == [] then []
    else (if dirs[0].owner in owners then DirGrants(dirs[0], dirs[0].users) else []) + GrantsFrom(dirs[1..], owners)
  }

  /** The grants a registration publishes: only for owners it reports, never to the owner. */
  function Grants(req: Req): seq<Grant> {
    GrantsFrom(req.dirs, Incoming(req))
  }

  /** Some reported user is routed, or waits, elsewhere. */
  ghost predicate Conflict(m: Mem, nodeId: string, num: Option<nat>, users: seq<string>) {
    exists u :: u in users && (
      || (u in m.users && (num.None? || m.users[u] != num.value))
      || (u in m.orphans && m.orphans[u] != nodeId))
  }

  datatype Refusal = EmptyAddress | IdInUse | UserElsewhere | NumberTaken

  /** What the first critical section of a registration decides. */
  datatype Start = Refuse(why: Refusal) | Allocate | Proceed(num: nat, adoptFrom: Option<string>)

  ghost function Begin(m: Mem, req: Req, now: int, pick: Option<nat>): Start
    requires FoundAt(m, req.address, pick)
  {
    if req.address == "" then Refuse(EmptyAddress)
    else
      var nodeId := ResolveNodeID(req.fsId, req.address);
      var known := FindNode(m, nodeId);
      var adopt := known.None? && req.fsId != "" && pick.Some? && IsLegacy(m.nodes[pick.value].id);
      var num := if adopt then pick else known;
      if known.Some? && m.nodes[known.value].address != req.address && IsHealthy(m, m.nodes[known.value], now) then Refuse(IdInUse)
      else if Conflict(m, nodeId, num, req.users) then Refuse(UserElsewhere)
      else if num.None? then Allocate
      else Proceed(num.value, if adopt then Some(m.nodes[pick.value].id) else None)
  }

  /** Users the node hosted but no longer reports; they go only if purging is allowed. */
  ghost function Missing(m: Mem, req: Req, num: nat): set<string> {
    if m.allowPurge then Hosted(m.users, num) - Incoming(req) else {}
  }

  /** Users waiting for this node. */
  ghost function Claimed(m: Mem, nodeId: string): set<string> {
    set u | u in m.orphans && m.orphans[u] == nodeId
  }

  function RoutedTo(users: map<string, nat>, who: set<string>, num: nat): map<string, nat> {
    users + map u | u in who :: num
  }

  ghost function CommitUsers(m: Mem, req: Req, num: nat, nodeId: string): map<string, nat> {
    RoutedTo(m.users - Missing(m, req, num), Claimed(m, nodeId) + Incoming(req), num)
  }

  ghost function CommitShared(m: Mem, req: Req, num: nat, nodeId: string): map<string, seq<Visible>> {
    var gone := Missing(m, req, num);
    AddGrants(
      DropOwners(WithLists(DropOwners(m.shared - gone, gone), Claimed(m, nodeId) + Incoming(req)), Incoming(req)),
      Grants(req))
  }

  /** The tables after a registration has committed. */
  ghost function Commit(m: Mem, req: Req, num: nat, now: int): Mem {
    var nodeId := ResolveNodeID(req.fsId, req.address);
    var users := CommitUsers(m, req, num, nodeId);
    m.(nodes := m.nodes[num := Node(nodeId, req.address, |Hosted(users, num)|, now, Healthy)],
       users := users,
       orphans := m.orphans - Claimed(m, nodeId),
       shared := CommitShared(m, req, num, nodeId))
  }

  /** The store writes of a registration: node first, then departures, arrivals and shares. */
  ghost function RegisterWrites(m: Mem, req: Req, num: nat, adoptFrom: Option<string>): seq<Write> {
    var nodeId := ResolveNodeID(req.fsId, req.address);
    var gone := Missing(m, req, num);
    (if adoptFrom.Some? then [Rename(adoptFrom.value, nodeId)] else [])
    + [Upsert(nodeId, req.address)]
    + (if gone != {} then [RemoveUsers(gone), RemoveSharesInvolving(gone)] else [])
    + [Assign(Incoming(req), nodeId), RemoveSharesByOwner(Incoming(req)), AddShares(set g | g in Grants(req))]
  }

  // ---------------------------------------------------------------- first login

  /** A healthy node than which no healthy node has fewer users. */
  ghost predicate LeastLoaded(m: Mem, now: int, n: nat) {
    && n in m.nodes && IsHealthy(m, m.nodes[n], now)
    && forall k :: k in m.nodes && IsHealthy(m, m.nodes[k], now) ==> m.nodes[n].load <= m.nodes[k].load
  }

  function Login(m: Mem, user: string, n: nat): Mem
    requires n in m.nodes
  {
    m.(users := m.users[user := n],
       nodes := m.nodes[n := m.nodes[n].(load := m.nodes[n].load + 1)],
       shared := m.shared[user := []])
  }

  /** Undo of a login whose write failed. */
  function LoginUndo(m: Mem, user: string, n: nat): Mem {
    m.(users := m.users - {user},
       shared := m.shared - {user},
       nodes := if n in m.nodes && m.nodes[n].load > 0 then m.nodes[n := m.nodes[n].(load := m.nodes[n].load - 1)] else m.nodes)
  }

  // ---------------------------------------------------------------- deregistration

  /** Everyone routed to the node and everyone waiting for it. */
  ghost function Released(m: Mem, num: Option<nat>, nodeId: string): set<string> {
    (if num.Some? then Hosted(m.users, num.value) else {}) + (if nodeId != "" then Claimed(m, nodeId) else {})
  }

  ghost function Deregister(m: Mem, num: Option<nat>, nodeId: string): Mem {
    var gone := Released(m, num, nodeId);
    m.(users := m.users - gone,
       orphans := m.orphans - gone,
       shared := DropOwners(m.shared - gone, gone),
       nodes := if num.Some? then m.nodes - {num.value} else m.nodes)
  }

  ghost function DeregisterWrites(m: Mem, num: Option<nat>, nodeId: string): seq<Write> {
    var gone := Released(m, num, nodeId);
    (if gone != {} then [RemoveUsers(gone), RemoveSharesInvolving(gone)] else [])
    + (if num.Some? then [RemoveNode(nodeId)] else [])
  }

  /** Which node a deregistration means: by id when one is given, by address otherwise. */
  ghost function Target(m: Mem, fsId: string, pick: Option<nat>): (r: (Option<nat>, string))
    requires pick.Some? ==> pick.value in m.nodes
    ensures r.0.Some? ==> r.0.value in m.nodes && m.nodes[r.0.value].id == r.1
  {
    if fsId != "" then (FindNode(m, fsId), fsId)
    else if pick.Some? then (pick, m.nodes[pick.value].id)
    else (None, "")
  }

  // ---------------------------------------------------------------- hydration

  /** Liveness fields come from best-effort documents; any values are possible. */
  datatype Live = Live(lastSeen: int, status: Status)

  /** A document without liveness fields is read as a node seen just now. */
  function Seen(live: map<string, Live>, id: string, now: int): Live {
    if id !in live then Live(now, Healthy)
    else if live[id].lastSeen == 0 then live[id].(lastSeen := now)
    else live[id]
  }

  /** `order` lists exactly the share documents, in the order they are read. */
  ghost predicate Lists(shares: set<Grant>, order: seq<Grant>) {
    forall g :: g in order <==> g in shares
  }

  function HydrateShared(order: seq<Grant>): map<string, seq<Visible>>
    decreases |order|
  {
    if order == [] then map[]
    else
      var before := HydrateShared(order[..|order| - 1]);
      var g := order[|order| - 1];
      before[g.grantee := (if g.grantee in before then before[g.grantee] else []) + [Visible(g.owner, g.path)]]
  }

  ghost predicate Numbered(s: Store, n: nat) {
    exists a :: a in s.nodes && s.nodes[a].num == n
  }

  ghost function NodeNamed(s: Store, n: nat): (a: string)
    requires Numbered(s, n)
    ensures a in s.nodes && s.nodes[a].num == n
  {
    var a :| a in s.nodes && s.nodes[a].num == n; a
  }

  ghost function HydrateUsers(s: Store): map<string, nat> {
    map u | u in s.users && s.users[u] in s.nodes :: s.nodes[s.users[u]].num
  }

  /** The tables a restart builds from the store. */
  ghost function Hydrate(s: Store, live: map<string, Live>, order: seq<Grant>, now: int, allowPurge: bool, timeout: int): Mem {
    var users := HydrateUsers(s);
    Mem(
      map n | n in (set a | a in s.nodes :: s.nodes[a].num) ::
        var a := NodeNamed(s, n);
        var l := Seen(live, a, now);
        Node(a, s.nodes[a].address, |Hosted(users, n)|, l.lastSeen, l.status),
      users,
      map u | u in s.users && s.users[u] !in s.nodes :: s.users[u],
      WithLists(HydrateShared(order), users.Keys),
      allowPurge,
      timeout)
  }
}

/**
Crashes in the middle of a structural operation: for every prefix of a
deregistration's writes nobody is left waiting for the removed node, and for every
point inside a legacy rename the next registration under the new id gets all users.
*/
module MetaRecovery {
  import opened Options
  import opened SharePath
  import opened MetaStore
  import opened MetaTables
  import opened MetaAgreement
  import opened MetaCommits
  import opened MetaProtocol
  import opened MetaRuns

  // ---------------------------------------------------------------- deregistration

  /** Users the store assigns to a node it does not have; a restart reads exactly these as orphans. */
  ghost function Stranded(s: Store): map<string, string> {
    map u | u in s.users && s.users[u] !in s.nodes :: s.users[u]
  }

  lemma StrandedAreOrphans(m: Mem, s: Store)
    requires MemInv(m) && Agree(m, s)
    ensures Stranded(s) == m.orphans
  {
    hide SharesRecorded, LoadsExact, IdsDistinct;
    forall u ensures u in Stranded(s) <==> u in m.orphans
      ensures u in m.orphans ==> Stranded(s)[u] == m.orphans[u]
    {
      assert HomeOf(m, u) == StoredHome(s, u);
    }
  }

  lemma {:induction false} PrefixStep(s: Store, ws: seq<Write>, k: nat)
    requires k < |ws|
    ensures ApplyAll(s, ws[..k + 1]) == Apply(ApplyAll(s, ws[..k]), ws[k])
  {
    assert ws[..k + 1] == ws[..k] + [ws[k]];
    ApplyAllConcat(s, ws[..k], [ws[k]]);
    ApplyOne(ApplyAll(s, ws[..k]), ws[k]);
  }

  /** Users first, the node last: whichever write a crash follows, a restart finds the
      same orphans as before, so nobody waits for the removed node. */
  lemma DeregisterPrefixStrandsNobody(s: Store, m: Mem, num: nat, nodeId: string, k: nat)
    requires MemInv(m) && Agree(m, s) && num in m.nodes && m.nodes[num].id == nodeId
    requires k <= |DeregisterWrites(m, Some(num), nodeId)|
    ensures Stranded(ApplyAll(s, DeregisterWrites(m, Some(num), nodeId)[..k])) == m.orphans
  {
    hide MemInv, Agree, ApplyAll, Released, Stranded;
    var ws := DeregisterWrites(m, Some(num), nodeId);
    var gone := Released(m, Some(num), nodeId);
    StrandedAreOrphans(m, s);
    GoneAreHomed(s, m, num, nodeId);
    assert ApplyAll(s, ws[..0]) == s by { EmptyWrites(s); }
    if k >= 1 { PrefixStep(s, ws, 0); }
    if k >= 2 { PrefixStep(s, ws, 1); }
    if k >= 3 { PrefixStep(s, ws, 2); }
    var t := ApplyAll(s, ws[..k]);
    assert s.users - {} == s.users;
    assert t.users == s.users || t.users == s.users - gone;
    assert t.nodes == s.nodes || (t.nodes == s.nodes - {nodeId} && t.users == s.users - gone);
    NoneStranded(s, t, gone, nodeId);
  }

  lemma NoneStranded(s: Store, t: Store, gone: set<string>, nodeId: string)
    requires nodeId in s.nodes && forall u :: u in gone <==> StoredHome(s, u) == Some(nodeId)
    requires t.users == s.users || t.users == s.users - gone
    requires t.nodes == s.nodes || (t.nodes == s.nodes - {nodeId} && t.users == s.users - gone)
    ensures Stranded(t) == Stranded(s)
  {
    forall u ensures u in Stranded(t) <==> u in Stranded(s) {
      assert u in gone <==> StoredHome(s, u) == Some(nodeId);
    }
  }

  lemma GoneAreHomed(s: Store, m: Mem, num: nat, nodeId: string)
    requires MemInv(m) && Agree(m, s) && num in m.nodes && m.nodes[num].id == nodeId
    ensures forall u :: u in Released(m, Some(num), nodeId) <==> StoredHome(s, u) == Some(nodeId)
    ensures nodeId in s.nodes
  {
    hide SharesRecorded, LoadsExact;
    forall u ensures u in Released(m, Some(num), nodeId) <==> StoredHome(s, u) == Some(nodeId) {
      assert HomeOf(m, u) == StoredHome(s, u);
    }
  }

  /** The order matters: removing the node document first strands its users, all of them, if it has any. */
  lemma NodeFirstStrandsIff(s: Store, m: Mem, num: nat, nodeId: string)
    requires MemInv(m) && Agree(m, s) && num in m.nodes && m.nodes[num].id == nodeId
    ensures Stranded(Apply(s, RemoveNode(nodeId))) == m.orphans <==> Hosted(m.users, num) == {}
    ensures forall u :: u in Hosted(m.users, num) ==> u in Stranded(Apply(s, RemoveNode(nodeId)))
  {
    hide SharesRecorded, LoadsExact, IdsDistinct;
    StrandedAreOrphans(m, s);
    var after := Stranded(Apply(s, RemoveNode(nodeId)));
    forall u | u in Hosted(m.users, num) ensures u in after && u !in m.orphans {
      assert HomeOf(m, u) == StoredHome(s, u);
    }
    if Hosted(m.users, num) == {} {
      forall u ensures u in after <==> u in m.orphans
        ensures u in after ==> after[u] == m.orphans[u]
      {
        assert HomeOf(m, u) == StoredHome(s, u);
        assert u in Hosted(m.users, num) <==> u in m.users && m.users[u] == num;
      }
    }
  }

  // ---------------------------------------------------------------- legacy rename

  /** A store from which registering `to` at `address` recovers those of `folk` it still has: they
      are at home on the old id or the new one, and only those two may be at the address. */
  ghost predicate Recoverable(s: Store, from: string, to: string, address: string, folk: set<string>) {
    && StoreInv(s) && IsLegacy(from) && to != "" && from != to && address != ""
    && (forall u :: u in folk && u in s.users ==> (s.users[u] == to || (s.users[u] == from && from in s.nodes)))
    && (from in s.nodes ==> s.nodes[from].address == address && to !in s.nodes)
    && (to in s.nodes ==> s.nodes[to].address == address)
    && (forall a :: a in s.nodes && s.nodes[a].address == address ==> a == from || a == to)
  }

  /** A write of the adopting registration other than the rename. */
  predicate Tame(w: Write, to: string, address: string) {
    match w
    case Upsert(node, a) => node == to && a == address
    case Assign(_, home) => home == to
    case RemoveUsers(_) => true
    case AddShares(_) => true
    case RemoveSharesInvolving(_) => true
    case RemoveSharesByOwner(_) => true
    case _ => false
  }

  ghost predicate AllTame(ws: seq<Write>, to: string, address: string) {
    forall w :: w in ws ==> Tame(w, to, address)
  }

  /** The reported users are some of `folk` or have no other home. */
  ghost predicate NoForeigners(s: Store, req: Req, folk: set<string>) {
    forall u :: u in req.users && u in s.users ==> u in folk || s.users[u] == req.fsId
  }

  /** How far an adopting registration has got with its writes: before the rename, between
      any two of its three document writes, or past it. */
  ghost predicate Adopting(sys: Sys, from: string, req: Req, folk: set<string>, rest: seq<Write>) {
    && Recoverable(sys.store, from, req.fsId, req.address, folk) && NoForeigners(sys.store, req, folk)
    && AllTame(rest, req.fsId, req.address)
    && sys.phase.Writing?
    && var s, ws, to := sys.store, sys.phase.ws, req.fsId;
       || (ws == [Rename(from, to)] + rest && from in s.nodes)
       || (from in s.nodes && ws == [MoveUsers(from, to), RemoveNode(from), InsertNode(to, s.nodes[from])] + rest)
       || (from in s.nodes && ws == [RemoveNode(from), InsertNode(to, s.nodes[from])] + rest && NobodyAt(s, from))
       || (from !in s.nodes && to !in s.nodes && exists rec: NodeRec :: FreeRec(s, rec, req.address) && ws == [InsertNode(to, rec)] + rest)
       || (from !in s.nodes && to in s.nodes && AllTame(ws, to, req.address))
  }

  ghost predicate NobodyAt(s: Store, id: string) {
    forall u :: u in s.users ==> s.users[u] != id
  }

  ghost predicate FreeRec(s: Store, rec: NodeRec, address: string) {
    rec.address == address && rec.num < s.next && forall a :: a in s.nodes ==> s.nodes[a].num != rec.num
  }

  lemma TameStaysRecoverable(s: Store, w: Write, from: string, req: Req, folk: set<string>)
    requires Recoverable(s, from, req.fsId, req.address, folk) && NoForeigners(s, req, folk)
    requires from !in s.nodes && req.fsId in s.nodes && Tame(w, req.fsId, req.address)
    ensures var t := Apply(s, w);
      Recoverable(t, from, req.fsId, req.address, folk) && NoForeigners(t, req, folk) && from !in t.nodes && req.fsId in t.nodes
  {
    hide IsLegacy, StoreInv;
    ApplyKeepsInv(s, w);
  }

  /** Moving some or all of the old id's users. */
  lemma MoveStaysRecoverable(s: Store, t: Store, from: string, req: Req, folk: set<string>)
    requires Recoverable(s, from, req.fsId, req.address, folk) && NoForeigners(s, req, folk) && from in s.nodes
    requires t == s.(users := t.users) && t.users.Keys == s.users.Keys
    requires forall u :: u in s.users ==> t.users[u] == s.users[u] || (s.users[u] == from && t.users[u] == req.fsId)
    ensures Recoverable(t, from, req.fsId, req.address, folk) && NoForeigners(t, req, folk)
  {
    hide IsLegacy;
  }

  /** The node document goes once nobody is at home on it ... */
  lemma RemoveStaysRecoverable(s: Store, from: string, req: Req, folk: set<string>)
    requires Recoverable(s, from, req.fsId, req.address, folk) && NoForeigners(s, req, folk) && from in s.nodes && NobodyAt(s, from)
    ensures var t := Apply(s, RemoveNode(from));
      Recoverable(t, from, req.fsId, req.address, folk) && NoForeigners(t, req, folk) && FreeRec(t, s.nodes[from], req.address)
      && from !in t.nodes && req.fsId !in t.nodes
  {
    hide IsLegacy;
  }

  /** ... and comes back under the new id. */
  lemma InsertStaysRecoverable(s: Store, rec: NodeRec, from: string, req: Req, folk: set<string>)
    requires Recoverable(s, from, req.fsId, req.address, folk) && NoForeigners(s, req, folk) && FreeRec(s, rec, req.address)
    requires from !in s.nodes && req.fsId !in s.nodes
    ensures var t := Apply(s, InsertNode(req.fsId, rec));
      Recoverable(t, from, req.fsId, req.address, folk) && NoForeigners(t, req, folk) && from !in t.nodes && req.fsId in t.nodes
  {
    hide IsLegacy;
  }

  /** However far the registration gets, the store stays recoverable. */
  lemma WritesStayRecoverable(sys: Sys, e: Event, from: string, req: Req, folk: set<string>, rest: seq<Write>)
    requires Adopting(sys, from, req, folk, rest) && Enabled(sys, e) && (e.WriteStep? || e.MoveOne?)
    ensures Adopting(Step(sys, e).0, from, req, folk, rest)
  {
    hide Recoverable, NoForeigners, FreeRec, Hydrate, DoRegister, DoAlloc, DoFinish, DoGetRoots, DoShare, DoUnshare, DoDeregister, DoNavigate, Swept, DoHeartbeat;
    var s, ws, to := sys.store, sys.phase.ws, req.fsId;
    var after := Step(sys, e).0;
    RecoverableIds(s, from, to, req.address, folk);
    if from !in s.nodes && to in s.nodes {
      assert Tame(ws[0], to, req.address);
      TameStaysRecoverable(s, ws[0], from, req, folk);
    } else if ws[0].Rename? {
      assert ws[1..] == rest;
    } else if ws[0].MoveUsers? {
      assert ws[1..] == [RemoveNode(from), InsertNode(to, s.nodes[from])] + rest;
      MoveStaysRecoverable(s, after.store, from, req, folk);
    } else if ws[0].RemoveNode? {
      assert ws[1..] == [InsertNode(to, s.nodes[from])] + rest;
      RemoveStaysRecoverable(s, from, req, folk);
    } else {
      assert ws[1..] == rest;
      InsertStaysRecoverable(s, ws[0].rec, from, req, folk);
    }
  }

  lemma RecoverableIds(s: Store, from: string, to: string, address: string, folk: set<string>)
    requires Recoverable(s, from, to, address, folk)
    ensures from != to
  {
  }

  /** Whatever can happen while an operation holds the write-order lock, short of a crash. */
  ghost predicate UnderLock(sys: Sys, es: seq<Event>)
    decreases |es|
  {
    es == [] || (!Idle(sys) && !es[0].Crash? && Enabled(sys, es[0]) && UnderLock(Step(sys, es[0]).0, es[1..]))
  }

  lemma {:induction false} UnderLockRuns(sys: Sys, es: seq<Event>)
    requires UnderLock(sys, es)
    ensures CanRun(sys, es)
    decreases |es|
  {
    hide Enabled, Step;
    if es == [] {
    } else {
      UnderLockRuns(Step(sys, es[0]).0, es[1..]);
    }
  }

  /** Only writes change the store or what is pending; everything else that is admitted meanwhile reads or marks liveness. */
  lemma LockedStep(sys: Sys, e: Event)
    requires sys.phase.Writing? && !Idle(sys) && !e.Crash? && Enabled(sys, e)
    ensures e.WriteStep? || e.MoveOne? || (Step(sys, e).0.store == sys.store && Step(sys, e).0.phase == sys.phase)
  {
    hide DoRegister, DoAlloc, DoFinish, DoShare, DoUnshare, DoDeregister, DoWrite, Hydrate, DoNavigate, DoHeartbeat, Swept, Login, Placement, FoundAt;
  }

  lemma {:induction false} AdoptionStaysRecoverable(sys: Sys, es: seq<Event>, from: string, req: Req, folk: set<string>, rest: seq<Write>)
    requires Adopting(sys, from, req, folk, rest) && UnderLock(sys, es)
    ensures CanRun(sys, es) && Adopting(After(sys, es), from, req, folk, rest)
    decreases |es|
  {
    hide Recoverable, NoForeigners, AllTame, FreeRec, NobodyAt, Enabled, Step;
    UnderLockRuns(sys, es);
    if es == [] {
    } else {
      LockedStep(sys, es[0]);
      if es[0].WriteStep? || es[0].MoveOne? { WritesStayRecoverable(sys, es[0], from, req, folk, rest); }
      AdoptionStaysRecoverable(Step(sys, es[0]).0, es[1..], from, req, folk, rest);
    }
  }

  /** `who` are in the store, and no pending write removes any of them. */
  ghost predicate Spared(sys: Sys, who: set<string>) {
    && sys.phase.Writing? && who <= sys.store.users.Keys
    && forall w :: w in sys.phase.ws && w.RemoveUsers? ==> w.who !! who
  }

  lemma SparedStep(sys: Sys, e: Event, who: set<string>)
    requires Spared(sys, who) && Enabled(sys, e) && (e.WriteStep? || e.MoveOne?)
    ensures Spared(Step(sys, e).0, who)
  {
    hide Hydrate, DoRegister, DoAlloc, DoFinish, DoGetRoots, DoShare, DoUnshare, DoDeregister, DoNavigate, Swept, DoHeartbeat;
    if e.WriteStep? && sys.phase.ws[0].RemoveUsers? { assert sys.phase.ws[0].who !! who; }
  }

  lemma {:induction false} SparedStay(sys: Sys, es: seq<Event>, who: set<string>)
    requires Spared(sys, who) && UnderLock(sys, es)
    ensures CanRun(sys, es) && Spared(After(sys, es), who)
    decreases |es|
  {
    hide Enabled, Step;
    UnderLockRuns(sys, es);
    if es == [] {
    } else {
      LockedStep(sys, es[0]);
      if es[0].WriteStep? || es[0].MoveOne? { SparedStep(sys, es[0], who); }
      SparedStay(Step(sys, es[0]).0, es[1..], who);
    }
  }

  /** A registration that adopts the only node at its address. */
  ghost predicate Adopts(sys: Sys, req: Req, now: int, pick: Option<nat>, num: nat, from: string) {
    && Inv(sys) && Idle(sys) && FoundAt(sys.mem, req.address, pick)
    && Begin(sys.mem, req, now, pick) == Proceed(num, Some(from))
    && forall n :: n in sys.mem.nodes && sys.mem.nodes[n].address == req.address ==> n == num
  }

  /** The users it reports are at home on the old id, wait for the new one, or are new. */
  lemma AcceptedHasNoForeigners(sys: Sys, req: Req, now: int, pick: Option<nat>, num: nat, from: string)
    requires Adopts(sys, req, now, pick, num, from)
    ensures NoForeigners(sys.store, req, HomedAt(sys.store, from))
  {
    hide SameNodes, SharesRecorded, LoadsExact, IdsDistinct, OrphansApart;
    var m, s := sys.mem, sys.store;
    assert ApplyAll(s, []) == s;
    forall u | u in req.users && u in s.users ensures u in HomedAt(s, from) || s.users[u] == req.fsId {
      assert HomeOf(m, u) == StoredHome(s, u);
      assert !Conflict(m, req.fsId, pick, req.users);
    }
  }

  /** The store an adoption starts from. */
  lemma AdoptionStoreRecoverable(sys: Sys, req: Req, now: int, pick: Option<nat>, num: nat, from: string)
    requires Adopts(sys, req, now, pick, num, from)
    ensures Recoverable(sys.store, from, req.fsId, req.address, HomedAt(sys.store, from)) && from in sys.store.nodes
  {
    hide SameHomes, SharesRecorded, Conflict, LoadsExact, UsersRouted, OrphansApart, MayCommit, IdsDistinct;
    var m, s := sys.mem, sys.store;
    BeginProceeds(m, req, now, pick, num, Some(from));
    assert s.nodes[from].address == req.address;
    forall a | a in s.nodes && s.nodes[a].address == req.address ensures a == from {
      assert m.nodes[s.nodes[a].num].id == a;
    }
    if req.fsId in s.nodes { EntryNumbered(m, s, req.fsId); assert false; }
  }

  lemma AdoptionWritesTame(m: Mem, req: Req, num: nat, from: string)
    requires req.fsId != ""
    ensures var ws := RegisterWrites(m, req, num, Some(from));
      ws == [Rename(from, req.fsId)] + ws[1..] && AllTame(ws[1..], req.fsId, req.address)
  {
    hide Missing, Incoming, Grants;
  }

  /** An adoption whose legacy entry is the only node at its address starts out recoverable, purging or not. */
  lemma AdoptionStarts(sys: Sys, req: Req, now: int, pick: Option<nat>, num: nat, from: string)
    requires Adopts(sys, req, now, pick, num, from)
    ensures exists rest :: Adopting(DoRegister(sys, req, now, pick).0, from, req, HomedAt(sys.store, from), rest)
  {
    hide Inv, FoundAt, Commit, RegisterWrites, Recoverable, NoForeigners, HomedAt, AllTame;
    AcceptedHasNoForeigners(sys, req, now, pick, num, from);
    AdoptionStoreRecoverable(sys, req, now, pick, num, from);
    AdoptionWritesTame(sys.mem, req, num, from);
    var rest := RegisterWrites(sys.mem, req, num, Some(from))[1..];
    assert Adopting(DoRegister(sys, req, now, pick).0, from, req, HomedAt(sys.store, from), rest);
  }

  /** The adoption removes nobody but the users it purges. */
  lemma AdoptionSpares(sys: Sys, req: Req, now: int, pick: Option<nat>, num: nat, from: string)
    requires Adopts(sys, req, now, pick, num, from)
    ensures Spared(DoRegister(sys, req, now, pick).0, HomedAt(sys.store, from) - Missing(sys.mem, req, num))
  {
    hide Inv, Commit, FoundAt, Incoming, Grants, Missing, Begin;
  }

  ghost function HomedAt(s: Store, id: string): set<string> {
    set u | u in s.users && s.users[u] == id
  }

  /** Registering, with the allocation in between when a fresh number is needed. */
  ghost function Reregister(sys: Sys, req: Req, now: int, pick: Option<nat>): Sys
    requires Inv(sys) && Enabled(sys, Register(req, now, pick))
  {
    var r := DoRegister(sys, req, now, pick).0;
    if r.phase.Allocating? then DoFinish(DoAlloc(r).0, now).0 else r
  }

  lemma ReregisterKeepsInv(sys: Sys, req: Req, now: int, pick: Option<nat>)
    requires Inv(sys) && Enabled(sys, Register(req, now, pick))
    ensures Inv(Reregister(sys, req, now, pick))
  {
    hide Inv, DoRegister, DoAlloc, DoFinish, FoundAt;
    RegisterKeepsInv(sys, req, now, pick);
    var r := DoRegister(sys, req, now, pick).0;
    if r.phase.Allocating? {
      AllocKeepsInv(r);
      assert DoAlloc(r).0.phase.Allocated? by { AllocHasNumber(r); }
      FinishKeepsInv(DoAlloc(r).0, now);
    }
  }

  lemma AllocHasNumber(sys: Sys)
    requires sys.phase.Allocating?
    ensures DoAlloc(sys).0.phase.Allocated?
  {
  }

  /** The hydrated tables hold each of `folk` on the old entry, on the new one, or waiting for the new id. */
  lemma HydratedFolk(m: Mem, s: Store, from: string, to: string, address: string, folk: set<string>, u: string)
    requires MemInv(m) && Agree(m, s) && Recoverable(s, from, to, address, folk)
    ensures u in folk && u in m.users ==> m.nodes[m.users[u]].id == (if from in s.nodes then from else to)
    ensures u in folk && u in m.orphans ==> m.orphans[u] == to
    ensures u in s.users <==> u in m.users || u in m.orphans
    ensures u in m.users ==> u in s.users && s.users[u] == m.nodes[m.users[u]].id
    ensures u in m.orphans ==> u in s.users && s.users[u] == m.orphans[u]
  {
    hide SharesRecorded, LoadsExact, IsLegacy;
    assert HomeOf(m, u) == StoredHome(s, u);
  }

  lemma NoConflictAfterCrash(m: Mem, s: Store, from: string, req: Req, folk: set<string>, num: Option<nat>)
    requires MemInv(m) && Agree(m, s) && Recoverable(s, from, req.fsId, req.address, folk) && NoForeigners(s, req, folk)
    requires num.Some? ==> num.value in m.nodes && m.nodes[num.value].id == (if from in s.nodes then from else req.fsId)
    requires num.None? ==> from !in s.nodes && req.fsId !in s.nodes
    ensures !Conflict(m, req.fsId, num, req.users)
  {
    hide SharesRecorded, LoadsExact, IsLegacy;
    forall u | u in req.users
      ensures !(u in m.users && (num.None? || m.users[u] != num.value)) && !(u in m.orphans && m.orphans[u] != req.fsId)
    {
      HydratedFolk(m, s, from, req.fsId, req.address, folk, u);
    }
  }

  /** The registration is accepted: it adopts the old entry, finds the new one, or allocates. */
  lemma RegisterAfterCrash(m: Mem, s: Store, from: string, req: Req, folk: set<string>, now: int, pick: Option<nat>)
    requires MemInv(m) && Agree(m, s) && Recoverable(s, from, req.fsId, req.address, folk) && NoForeigners(s, req, folk)
    requires FoundAt(m, req.address, pick)
    ensures from in s.nodes ==> Begin(m, req, now, pick) == Proceed(s.nodes[from].num, Some(from))
    ensures from !in s.nodes && req.fsId in s.nodes ==> Begin(m, req, now, pick) == Proceed(s.nodes[req.fsId].num, None)
    ensures from !in s.nodes && req.fsId !in s.nodes ==> Begin(m, req, now, pick) == Allocate
  {
    hide SharesRecorded, SameHomes, LoadsExact, UsersRouted, OrphansApart, Conflict, StoreInv;
    var to := req.fsId;
    if from in s.nodes {
      assert m.nodes[s.nodes[from].num].address == req.address;
      if pick.Some? { assert m.nodes[pick.value].id in s.nodes; }
      assert pick == Some(s.nodes[from].num);
      if Registered(m, to) { RegisteredIsStored(m, s, to); assert false; }
      NoConflictAfterCrash(m, s, from, req, folk, pick);
    } else if to in s.nodes {
      StoredIsRegistered(m, s, to);
      assert FindNode(m, to) == Some(s.nodes[to].num);
      NoConflictAfterCrash(m, s, from, req, folk, Some(s.nodes[to].num));
    } else {
      if Registered(m, to) { RegisteredIsStored(m, s, to); assert false; }
      NobodyThere(m, s, req.address, pick);
      NoConflictAfterCrash(m, s, from, req, folk, None);
    }
  }

  lemma RegisteredIsStored(m: Mem, s: Store, id: string)
    requires SameNodes(m, s) && Registered(m, id)
    ensures id in s.nodes
  {
  }

  lemma NobodyThere(m: Mem, s: Store, address: string, pick: Option<nat>)
    requires SameNodes(m, s) && FoundAt(m, address, pick) && forall a :: a in s.nodes ==> s.nodes[a].address != address
    ensures pick.None?
  {
  }

  /** Whether a user of the old id ends up with the new node: it reports them, or the restart has left
      them waiting for it, or it routes them to the entry and nobody is purged. */
  ghost predicate Kept(m: Mem, req: Req, u: string) {
    u in Incoming(req) || u in m.orphans || (u in m.users && !m.allowPurge)
  }

  /** Committing under the entry that holds `folk`, or under a fresh one, routes exactly those to it. */
  lemma FolkRouted(m: Mem, s: Store, from: string, req: Req, folk: set<string>, num: nat, now: int, u: string)
    requires MemInv(m) && Agree(m, s) && Recoverable(s, from, req.fsId, req.address, folk) && u in folk
    requires num in m.nodes ==> m.nodes[num].id == (if from in s.nodes then from else req.fsId)
    requires num !in m.nodes ==> from !in s.nodes && req.fsId !in s.nodes
    ensures var c := Commit(m, req, num, now);
      && num in c.nodes && c.nodes[num].id == req.fsId && c.nodes[num].address == req.address
      && (u in c.users <==> Kept(m, req, u)) && (u in c.users ==> c.users[u] == num) && u !in c.orphans
  {
    hide Agree, LoadsExact, StoreInv, IsLegacy, CommitShared, Incoming;
    HydratedFolk(m, s, from, req.fsId, req.address, folk, u);
    if u in m.users && num !in m.nodes { AgreeIdStored(m, s, m.users[u]); assert false; }
  }

  lemma AgreeIdStored(m: Mem, s: Store, n: nat)
    requires Agree(m, s) && n in m.nodes
    ensures m.nodes[n].id in s.nodes
  {
  }

  /** `u` is routed to the registered node. */
  ghost predicate RoutedHere(m: Mem, req: Req, u: string) {
    u in m.users && m.users[u] in m.nodes && m.nodes[m.users[u]].id == req.fsId && m.nodes[m.users[u]].address == req.address
  }

  /** Restarted tables, then the registration. */
  lemma ReregisterRoutes(sys: Sys, from: string, req: Req, folk: set<string>, now: int, pick: Option<nat>, u: string)
    requires Inv(sys) && Idle(sys) && Enabled(sys, Register(req, now, pick)) && u in folk
    requires Recoverable(sys.store, from, req.fsId, req.address, folk) && NoForeigners(sys.store, req, folk)
    ensures var end := Reregister(sys, req, now, pick).mem;
      if Kept(sys.mem, req, u) then RoutedHere(end, req, u) else u !in end.users && u !in end.orphans
  {
    hide SameNodes, SameHomes, SharesRecorded, MemInv, StoreInv, Recoverable, NoForeigners, Conflict, Commit, RegisterWrites, Begin, Admissible, FoundAt, IsLegacy, Kept;
    var m, s := sys.mem, sys.store;
    RegisterAfterCrash(m, s, from, req, folk, now, pick);
    if from in s.nodes {
      EntryNumbered(m, s, from);
      FolkRouted(m, s, from, req, folk, s.nodes[from].num, now, u);
    } else if req.fsId in s.nodes {
      EntryNumbered(m, s, req.fsId);
      FolkRouted(m, s, from, req, folk, s.nodes[req.fsId].num, now, u);
    } else {
      var r := DoRegister(sys, req, now, pick).0;
      RegisterKeepsInv(sys, req, now, pick);
      AllocKeepsInv(r);
      var a := DoAlloc(r).0;
      FinishSucceeds(a, now);
      FolkRouted(m, s, from, req, folk, a.phase.num, now, u);
    }
  }

  lemma EntryNumbered(m: Mem, s: Store, id: string)
    requires Agree(m, s) && id in s.nodes
    ensures s.nodes[id].num in m.nodes && m.nodes[s.nodes[id].num].id == id
  {
  }

  /** The same, told by the store the restart found. */
  ghost predicate Recovers(s: Store, allowPurge: bool, req: Req, u: string) {
    u in Incoming(req) || (u in s.users && (allowPurge ==> s.users[u] !in s.nodes))
  }

  lemma KeptIffRecovers(s: Store, live: map<string, Live>, order: seq<Grant>, now: int, allowPurge: bool, timeout: int, req: Req, u: string)
    ensures Kept(Hydrate(s, live, order, now, allowPurge, timeout), req, u) <==> Recovers(s, allowPurge, req, u)
  {
    hide WithLists, HydrateShared, Hosted, Incoming;
  }

  /** Wherever inside a legacy rename the server crashed, once it has restarted and the node
      has registered under its new id, a user of the old id is routed to that node, in memory at once and in
      the store when the registration's writes are done, if and only if the node reports them or
      the store still has them and, with purging on, under an id without an entry; otherwise they have no home. */
  lemma LegacyCrashRecovers(s: Store, live: map<string, Live>, order: seq<Grant>, allowPurge: bool, timeout: int,
                            from: string, req: Req, folk: set<string>, now: int, now': int, pick: Option<nat>) returns (end: Sys)
    requires Recoverable(s, from, req.fsId, req.address, folk) && NoForeigners(s, req, folk)
    requires Lists(s.shares, order)
    requires FoundAt(Hydrate(s, live, order, now, allowPurge, timeout), req.address, pick)
    ensures var sys := Sys(Hydrate(s, live, order, now, allowPurge, timeout), s, Writing([]));
      Inv(sys) && Enabled(sys, Register(req, now', pick)) && end == Reregister(sys, req, now', pick)
      && !Begin(sys.mem, req, now', pick).Refuse?
    ensures Inv(end) && forall u :: u in folk ==> SettledAs(end, req, u, Recovers(s, allowPurge, req, u))
  {
    hide StoreInv, FoundAt, Lists, NoForeigners, Recoverable, Inv, Reregister, Hydrate, Kept, Recovers, SettledAs, RoutedHere;
    var sys := Sys(Hydrate(s, live, order, now, allowPurge, timeout), s, Writing([]));
    RecoverableStore(s, from, req.fsId, req.address, folk);
    StartInv(s, live, order, now, allowPurge, timeout);
    end := Reregister(sys, req, now', pick);
    ReregisterKeepsInv(sys, req, now', pick);
    AcceptedAfterCrash(sys, from, req, folk, now', pick);
    forall u | u in folk ensures SettledAs(end, req, u, Recovers(s, allowPurge, req, u)) {
      ReregisterRoutes(sys, from, req, folk, now', pick, u);
      KeptIffRecovers(s, live, order, now, allowPurge, timeout, req, u);
      RoutedIsSettled(end, req, u);
    }
  }

  lemma AcceptedAfterCrash(sys: Sys, from: string, req: Req, folk: set<string>, now: int, pick: Option<nat>)
    requires Inv(sys) && Idle(sys) && FoundAt(sys.mem, req.address, pick)
    requires Recoverable(sys.store, from, req.fsId, req.address, folk) && NoForeigners(sys.store, req, folk)
    ensures !Begin(sys.mem, req, now, pick).Refuse?
  {
    hide MemInv, StoreInv, Agree, Recoverable, NoForeigners, Begin, FoundAt;
    RegisterAfterCrash(sys.mem, sys.store, from, req, folk, now, pick);
  }

  lemma RecoverableStore(s: Store, from: string, to: string, address: string, folk: set<string>)
    requires Recoverable(s, from, to, address, folk)
    ensures StoreInv(s)
  {
  }

  /** Routed to the registered node in memory and, once the writes are done, in the store; or known to neither. */
  ghost predicate SettledAs(end: Sys, req: Req, u: string, here: bool) {
    && (if here then RoutedHere(end.mem, req, u) else u !in end.mem.users && u !in end.mem.orphans)
    && StoredHome(Settled(end), u) == if here then Some(req.fsId) else None
  }

  lemma RoutedIsSettled(end: Sys, req: Req, u: string)
    requires Inv(end)
    ensures RoutedHere(end.mem, req, u) ==> SettledAs(end, req, u, true)
    ensures u !in end.mem.users && u !in end.mem.orphans ==> SettledAs(end, req, u, false)
  {
    hide MemInv, StoreInv, PhaseInv, SameNodes, SharesRecorded, Settled;
    assert HomeOf(end.mem, u) == StoredHome(Settled(end), u);
  }

  /** What a crash in the middle of an adoption finds. */
  lemma AdoptionAtCrash(sys: Sys, req: Req, now: int, pick: Option<nat>, num: nat, from: string, es: seq<Event>)
    requires Adopts(sys, req, now, pick, num, from) && UnderLock(DoRegister(sys, req, now, pick).0, es)
    ensures CanRun(DoRegister(sys, req, now, pick).0, es)
    ensures var s, folk := After(DoRegister(sys, req, now, pick).0, es).store, HomedAt(sys.store, from);
      && Recoverable(s, from, req.fsId, req.address, folk) && NoForeigners(s, req, folk)
      && folk - Missing(sys.mem, req, num) <= s.users.Keys
  {
    hide Inv, DoRegister, HomedAt, Missing, Recoverable, NoForeigners, Begin, AllTame, NobodyAt, FreeRec, FoundAt, UnderLock, CanRun;
    var start, folk := DoRegister(sys, req, now, pick).0, HomedAt(sys.store, from);
    AdoptionStarts(sys, req, now, pick, num, from);
    var rest :| Adopting(start, from, req, folk, rest);
    AdoptionStaysRecoverable(start, es, from, req, folk, rest);
    AdoptionSpares(sys, req, now, pick, num, from);
    SparedStay(start, es, folk - Missing(sys.mem, req, num));
  }

  /** An accepted adoption, whatever happens while its writes are under way, a crash, a restart with any settings
      and the same registration again: the registration is accepted, and each user of the old id is then at
      home on the new node under exactly the condition above. The interrupted attempt has lost nobody but the users it purged. */
  lemma AdoptionCrashRecovers(sys: Sys, req: Req, now: int, pick: Option<nat>, num: nat, from: string, es: seq<Event>,
                              live: map<string, Live>, order: seq<Grant>, allowPurge: bool, timeout: int,
                              now': int, now'': int, pick': Option<nat>) returns (mid: Sys, end: Sys)
    requires Adopts(sys, req, now, pick, num, from) && UnderLock(DoRegister(sys, req, now, pick).0, es)
    requires
      && CanRun(DoRegister(sys, req, now, pick).0, es)
      && var s := After(DoRegister(sys, req, now, pick).0, es).store;
      Lists(s.shares, order) && FoundAt(Hydrate(s, live, order, now', allowPurge, timeout), req.address, pick')
    ensures mid == After(DoRegister(sys, req, now, pick).0, es) && Enabled(mid, Crash(live, order, now', allowPurge, timeout))
    ensures var up := Step(mid, Crash(live, order, now', allowPurge, timeout)).0;
      Inv(up) && Enabled(up, Register(req, now'', pick')) && end == Reregister(up, req, now'', pick')
      && !Begin(up.mem, req, now'', pick').Refuse?
    ensures Inv(end)
    ensures forall u :: u in HomedAt(sys.store, from) ==> SettledAs(end, req, u, Recovers(mid.store, allowPurge, req, u))
    ensures HomedAt(sys.store, from) - Missing(sys.mem, req, num) <= mid.store.users.Keys
  {
    hide FoundAt, Lists, Inv, DoRegister, Hydrate, Recovers, SettledAs, HomedAt, Missing, Reregister, Recoverable, NoForeigners, Begin, UnderLock, CanRun;
    AdoptionAtCrash(sys, req, now, pick, num, from, es);
    mid := After(DoRegister(sys, req, now, pick).0, es);
    end := LegacyCrashRecovers(mid.store, live, order, allowPurge, timeout, from, req, HomedAt(sys.store, from), now', now'', pick');
  }

  /** With purging off on both sides of the crash, every user of the old id is recovered. */
  lemma EveryoneRecovers(sys: Sys, req: Req, now: int, pick: Option<nat>, num: nat, from: string, es: seq<Event>,
                         live: map<string, Live>, order: seq<Grant>, timeout: int,
                         now': int, now'': int, pick': Option<nat>) returns (end: Sys)
    requires Adopts(sys, req, now, pick, num, from) && UnderLock(DoRegister(sys, req, now, pick).0, es) && !sys.mem.allowPurge
    requires
      && CanRun(DoRegister(sys, req, now, pick).0, es)
      && var s := After(DoRegister(sys, req, now, pick).0, es).store;
      Lists(s.shares, order) && FoundAt(Hydrate(s, live, order, now', false, timeout), req.address, pick')
    ensures forall u :: u in HomedAt(sys.store, from) ==> SettledAs(end, req, u, true)
  {
    hide FoundAt, Lists, Inv, DoRegister, Hydrate, SettledAs, HomedAt, Reregister, Step, Enabled, Begin;
    var mid: Sys;
    mid, end := AdoptionCrashRecovers(sys, req, now, pick, num, from, es, live, order, false, timeout, now', now'', pick');
    forall u | u in HomedAt(sys.store, from) ensures SettledAs(end, req, u, true) {
      assert u in HomedAt(sys.store, from) - Missing(sys.mem, req, num);
      assert Recovers(mid.store, false, req, u);
    }
  }
}

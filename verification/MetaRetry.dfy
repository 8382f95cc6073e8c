/**
A registration whose store writes failed without a crash is not rolled back; the
fileserver simply retries. When does the retry bring the store back into agreement?
*/
module MetaRetry {
  import opened Options
  import opened SharePath
  import opened MetaStore
  import opened MetaTables
  import opened MetaAgreement
  import opened MetaCommits
  import opened MetaProtocol
  import opened Liveness

  /** The state a first attempt commits in; a new node's empty entry is already there. */
  ghost predicate FirstAttempt(s: Store, m: Mem, req: Req, num: nat, adoptFrom: Option<string>) {
    && StoreInv(s) && Agree(m, s) && req.address != ""
    && MayCommit(m, req, num) && Entry(m, req, num, adoptFrom)
    && (adoptFrom.Some? ==> adoptFrom.value != ResolveNodeID(req.fsId, req.address))
  }

  /** The retry finds its own entry, healthy or not, at its own address, and proceeds under it. */
  lemma RetryProceeds(s: Store, m: Mem, req: Req, num: nat, adoptFrom: Option<string>, now: int, later: int, pick: Option<nat>)
    requires FirstAttempt(s, m, req, num, adoptFrom)
    requires FoundAt(Commit(m, req, num, now), req.address, pick)
    ensures var c := Commit(m, req, num, now);
      MayCommit(c, req, num) && Entry(c, req, num, None) && Begin(c, req, later, pick) == Proceed(num, None)
  {
    hide StoreInv, Agree, CommitUsers, CommitShared, IsHealthy, IsLegacy;
    var c := Commit(m, req, num, now);
    var nodeId := ResolveNodeID(req.fsId, req.address);
    CommitWellFormed(m, req, num, now);
    FindUnique(c, nodeId, num);
    forall u | u in req.users ensures u in c.users && c.users[u] == num && u !in c.orphans {
      assert u in Incoming(req);
      CommitRoutesBy(m, req, num, u);
    }
    assert !Conflict(c, nodeId, Some(num), req.users);
  }

  /** The retried tables agree with the store the first attempt was meant to leave. */
  lemma RetryAgreesWithIntended(s: Store, m: Mem, req: Req, num: nat, adoptFrom: Option<string>, now: int, later: int) returns (t: Store)
    requires FirstAttempt(s, m, req, num, adoptFrom)
    requires var c := Commit(m, req, num, now); MayCommit(c, req, num) && Entry(c, req, num, None)
    ensures t == RegisterEffect(s, m, req, num, adoptFrom) && Agree(Commit(m, req, num, now), t)
    ensures var c := Commit(m, req, num, now); Agree(Commit(c, req, num, later), RegisterEffect(t, c, req, num, None))
  {
    hide MemInv, StoreInv, Agree, Commit, RegisterEffect, MayCommit, Entry, RegisterWrites;
    var c := Commit(m, req, num, now);
    RegisterAgrees(s, m, req, num, now, adoptFrom);
    RegisterWritesEffect(s, m, req, num, adoptFrom);
    t := RegisterEffect(s, m, req, num, adoptFrom);
    RegisterAgrees(t, c, req, num, later, None);
    RegisterWritesEffect(t, c, req, num, None);
  }

  // ---------------------------------------------------------------- how far the first attempt got

  /** The document writes of the first attempt, a rename told as its three. */
  ghost function FirstWrites(s: Store, m: Mem, req: Req, num: nat, adoptFrom: Option<string>): seq<Write> {
    (if adoptFrom.Some? then Expand(s, adoptFrom.value, ResolveNodeID(req.fsId, req.address)) else [])
    + RegisterWrites(m, req, num, None)
  }

  /** How many of them have to be done: a rename completely, a purge as far as the users. */
  ghost function Needed(m: Mem, req: Req, num: nat, adoptFrom: Option<string>): nat {
    (if adoptFrom.Some? then 3 else 0) + (if Missing(m, req, num) != {} then 2 else 0)
  }

  /** The store once the rename, if there is one, is done. */
  ghost function Renamed(s: Store, req: Req, adoptFrom: Option<string>): Store {
    if adoptFrom.Some? then Apply(s, Rename(adoptFrom.value, ResolveNodeID(req.fsId, req.address))) else s
  }

  ghost predicate HasEntry(s: Store, req: Req, num: nat) {
    var nodeId := ResolveNodeID(req.fsId, req.address);
    nodeId in s.nodes && s.nodes[nodeId].num == num
  }

  lemma RenamedHasEntry(s: Store, m: Mem, req: Req, num: nat, adoptFrom: Option<string>)
    requires FirstAttempt(s, m, req, num, adoptFrom)
    ensures HasEntry(Renamed(s, req, adoptFrom), req, num) && Renamed(s, req, adoptFrom).users.Keys == s.users.Keys
    ensures RegisterEffect(s, m, req, num, adoptFrom) == RegisterEffect(Renamed(s, req, adoptFrom), m, req, num, None)
    ensures adoptFrom.Some? ==>
      var from, nodeId := adoptFrom.value, ResolveNodeID(req.fsId, req.address);
      && from in s.nodes && s.nodes[from].num == num && nodeId !in s.nodes
      && Expand(s, from, nodeId) == [MoveUsers(from, nodeId), RemoveNode(from), InsertNode(nodeId, s.nodes[from])]
  {
    hide StoreInv, SharesRecorded, SameHomes, Conflict, Incoming, Missing, Grants, LoadsExact, OrphansApart, UsersRouted, ResolveNodeID;
    assert m.nodes[num].id in s.nodes && s.nodes[m.nodes[num].id].num == num;
  }

  /** A write the retry repeats: what it does to other users, other nodes and other owners' grants is nothing. */
  ghost predicate Late(w: Write, req: Req) {
    match w
    case Upsert(node, address) => node == ResolveNodeID(req.fsId, req.address) && address == req.address
    case Assign(who, home) => who == Incoming(req)
    case AddShares(grants) => forall g :: g in grants ==> g.owner in Incoming(req)
    case RemoveSharesInvolving(_) => true
    case RemoveSharesByOwner(_) => true
    case _ => false
  }

  /** `t` differs from `x` at most in what a retry overwrites. */
  ghost predicate Near(x: Store, t: Store, req: Req, num: nat) {
    var nodeId := ResolveNodeID(req.fsId, req.address);
    && HasEntry(x, req, num) && HasEntry(t, req, num)
    && t.nodes[nodeId := NodeRec(num, req.address)] == x.nodes[nodeId := NodeRec(num, req.address)]
    && (forall u :: u !in Incoming(req) ==> StoredHome(t, u) == StoredHome(x, u))
    && (forall g :: g in t.shares && g.owner !in Incoming(req) ==> g in x.shares)
  }

  lemma LateIsNear(x: Store, w: Write, req: Req, num: nat)
    requires HasEntry(x, req, num) && Late(w, req)
    ensures Near(x, Apply(x, w), req, num)
  {
    hide Incoming, ResolveNodeID;
  }

  lemma NearTrans(x: Store, y: Store, z: Store, req: Req, num: nat)
    requires Near(x, y, req, num) && Near(y, z, req, num)
    ensures Near(x, z, req, num)
  {
    hide Incoming, ResolveNodeID, StoredHome;
  }

  lemma {:induction false} AllLateNear(x: Store, ws: seq<Write>, req: Req, num: nat)
    requires HasEntry(x, req, num) && forall w :: w in ws ==> Late(w, req)
    ensures Near(x, ApplyAll(x, ws), req, num)
    decreases |ws|
  {
    hide Near, Late, Apply;
    if ws == [] {
      NearItself(x, req, num);
    } else {
      LateIsNear(x, ws[0], req, num);
      assert HasEntry(Apply(x, ws[0]), req, num) by { NearHas(x, Apply(x, ws[0]), req, num); }
      AllLateNear(Apply(x, ws[0]), ws[1..], req, num);
      NearTrans(x, Apply(x, ws[0]), ApplyAll(x, ws), req, num);
    }
  }

  lemma NearItself(x: Store, req: Req, num: nat)
    requires HasEntry(x, req, num)
    ensures Near(x, x, req, num)
  {
  }

  lemma NearHas(x: Store, t: Store, req: Req, num: nat)
    requires Near(x, t, req, num)
    ensures HasEntry(t, req, num)
  {
  }

  /** The writes of a registration after the purge, or all of them if there is none, are repeated by a retry. */
  lemma LateTail(m: Mem, req: Req, num: nat, j: nat)
    requires j <= |RegisterWrites(m, req, num, None)| && (Missing(m, req, num) != {} ==> j >= 2)
    ensures forall w :: w in RegisterWrites(m, req, num, None)[j..] ==> Late(w, req)
  {
    hide Incoming, ResolveNodeID, Missing, Grants;
    forall g | g in Grants(req) ensures g.owner in Incoming(req) { GrantIsNormal(req, g); }
    var ws := RegisterWrites(m, req, num, None);
    forall k | j <= k < |ws| ensures Late(ws[k], req) { }
    forall w | w in ws[j..] ensures Late(w, req) { var k :| 0 <= k < |ws[j..]| && ws[j..][k] == w; assert ws[j + k] == w; }
  }

  /** No write of a registration removes its entry. */
  lemma {:induction false} EntryStays(x: Store, ws: seq<Write>, req: Req, num: nat)
    requires HasEntry(x, req, num) && forall w :: w in ws ==> Late(w, req) || w.RemoveUsers?
    ensures HasEntry(ApplyAll(x, ws), req, num)
    decreases |ws|
  {
    hide Incoming, ResolveNodeID;
    if ws == [] {
    } else {
      assert Late(ws[0], req) || ws[0].RemoveUsers?;
      EntryStays(Apply(x, ws[0]), ws[1..], req, num);
    }
  }

  lemma OnlyLateOrPurge(m: Mem, req: Req, num: nat)
    ensures forall w :: w in RegisterWrites(m, req, num, None) ==> Late(w, req) || w.RemoveUsers?
  {
    hide Incoming, ResolveNodeID, Missing, Grants;
    forall g | g in Grants(req) ensures g.owner in Incoming(req) { GrantIsNormal(req, g); }
  }

  /** From anywhere near the intended store, the retry's writes restore agreement. */
  lemma RetrySettles(x: Store, t: Store, c: Mem, req: Req, num: nat, later: int)
    requires Near(x, t, req, num) && Agree(Commit(c, req, num, later), RegisterEffect(t, c, req, num, None))
    ensures Agree(Commit(c, req, num, later), RegisterEffect(x, c, req, num, None))
  {
    hide Commit, RegisterEffect, Missing, InMem, HomeOf, StoredHome, Incoming, Grants, ResolveNodeID;
    var k, a, b := Commit(c, req, num, later), RegisterEffect(t, c, req, num, None), RegisterEffect(x, c, req, num, None);
    var nodeId := ResolveNodeID(req.fsId, req.address);
    RegisterNodes(t, c, req, num, None, nodeId);
    RegisterNodes(x, c, req, num, None, nodeId);
    forall u ensures HomeOf(k, u) == StoredHome(b, u) {
      assert HomeOf(k, u) == StoredHome(a, u);
      RegisterHomeBy(t, c, req, num, None, u);
      RegisterHomeBy(x, c, req, num, None, u);
    }
    forall g | InMem(k.shared, g) ensures g in b.shares {
      RegisterSharesBy(t, c, req, num, None, g);
      RegisterSharesBy(x, c, req, num, None, g);
    }
  }

  // ---------------------------------------------------------------- what lingers

  /** A purged user is gone from the tables for good; one the store still has stays there. */
  lemma PurgedLinger(s: Store, x: Store, m: Mem, req: Req, num: nat, adoptFrom: Option<string>, now: int, later: int, u: string)
    requires FirstAttempt(s, m, req, num, adoptFrom) && u in Missing(m, req, num) && u in x.users
    requires var c := Commit(m, req, num, now); MayCommit(c, req, num) && Entry(c, req, num, None)
    ensures var c := Commit(m, req, num, now); !SameHomes(Commit(c, req, num, later), RegisterEffect(x, c, req, num, None))
  {
    hide StoreInv, SharesRecorded, SameNodes, SameHomes, CommitShared, CommitUsers, RegisterEffect, Conflict, Incoming, ResolveNodeID, LoadsExact, OrphansApart, IdsDistinct;
    var c := Commit(m, req, num, now);
    CommitRoutesBy(m, req, num, u);
    CommitRoutesBy(c, req, num, u);
    RegisterHomeBy(x, c, req, num, None, u);
    HomesDiffer(Commit(c, req, num, later), RegisterEffect(x, c, req, num, None), u);
  }

  lemma HomesDiffer(m: Mem, s: Store, u: string)
    requires HomeOf(m, u) != StoredHome(s, u)
    ensures !SameHomes(m, s)
  {
  }

  /** While the old document is there it has the number the tables give to the new id. */
  lemma AdoptedLingers(x: Store, c: Mem, req: Req, num: nat, from: string, later: int)
    requires from in x.nodes && x.nodes[from].num == num && from != ResolveNodeID(req.fsId, req.address)
    ensures !SameNodes(Commit(c, req, num, later), RegisterEffect(x, c, req, num, None))
  {
    hide CommitShared, CommitUsers, Incoming, Missing, Grants, ResolveNodeID;
    var k, end := Commit(c, req, num, later), RegisterEffect(x, c, req, num, None);
    assert from in end.nodes && end.nodes[from] == x.nodes[from];
    assert k.nodes[num].id == ResolveNodeID(req.fsId, req.address);
  }

  /** Between the removal of the old document and the insertion of the new one, the retry is given a new number. */
  lemma NumberLost(x: Store, c: Mem, req: Req, num: nat, later: int)
    requires ResolveNodeID(req.fsId, req.address) !in x.nodes && num < x.next
    ensures !SameNodes(Commit(c, req, num, later), RegisterEffect(x, c, req, num, None))
  {
    hide CommitShared, CommitUsers, Incoming, Missing, Grants, ResolveNodeID;
    var k, end := Commit(c, req, num, later), RegisterEffect(x, c, req, num, None);
    var nodeId := ResolveNodeID(req.fsId, req.address);
    assert nodeId in end.nodes && end.nodes[nodeId].num == x.next;
    assert k.nodes[num].id == nodeId;
  }

  // ---------------------------------------------------------------- the retry

  /** A rename that was not completed is not completed by the retry. */
  lemma BrokenRename(s: Store, m: Mem, req: Req, num: nat, from: string, now: int, later: int, k: nat)
    requires FirstAttempt(s, m, req, num, Some(from)) && k < 3 && k <= |FirstWrites(s, m, req, num, Some(from))|
    ensures var c := Commit(m, req, num, now);
      !SameNodes(Commit(c, req, num, later), RegisterEffect(ApplyAll(s, FirstWrites(s, m, req, num, Some(from))[..k]), c, req, num, None))
  {
    hide MemInv, Agree, Commit, RegisterEffect, MayCommit, Entry, RegisterWrites, ResolveNodeID, SameNodes;
    var nodeId := ResolveNodeID(req.fsId, req.address);
    var c := Commit(m, req, num, now);
    RenamedHasEntry(s, m, req, num, Some(from));
    var ws := FirstWrites(s, m, req, num, Some(from));
    var x := ApplyAll(s, ws[..k]);
    if k == 0 {
      EmptyWrites(s);
    } else if k == 1 {
      assert ws[..1] == [MoveUsers(from, nodeId)];
      ApplyOne(s, ws[0]);
    } else {
      assert ws[..2] == [MoveUsers(from, nodeId), RemoveNode(from)];
      ApplyTwo(s, ws[0], ws[1]);
    }
    if k < 2 { AdoptedLingers(x, c, req, num, from, later); } else { NumberLost(x, c, req, num, later); }
  }

  /** Past the rename, what has been done is a prefix of the plain registration's writes. */
  lemma PastRename(s: Store, m: Mem, req: Req, num: nat, adoptFrom: Option<string>, k: nat) returns (j: nat)
    requires FirstAttempt(s, m, req, num, adoptFrom) && k <= |FirstWrites(s, m, req, num, adoptFrom)|
    requires adoptFrom.Some? ==> k >= 3
    ensures j == (if adoptFrom.Some? then k - 3 else k) && j <= |RegisterWrites(m, req, num, None)|
    ensures ApplyAll(s, FirstWrites(s, m, req, num, adoptFrom)[..k]) == ApplyAll(Renamed(s, req, adoptFrom), RegisterWrites(m, req, num, None)[..j])
  {
    hide FirstAttempt, RegisterWrites, ResolveNodeID, ApplyAll, Apply;
    var nodeId, rw := ResolveNodeID(req.fsId, req.address), RegisterWrites(m, req, num, None);
    var ws := FirstWrites(s, m, req, num, adoptFrom);
    j := if adoptFrom.Some? then k - 3 else k;
    if adoptFrom.Some? {
      RenamedHasEntry(s, m, req, num, adoptFrom);
      var three := Expand(s, adoptFrom.value, nodeId);
      assert |three| == 3 && ws == three + rw;
      assert ws[..k] == three + rw[..j];
      ApplyAllConcat(s, three, rw[..j]);
      ExpandIsRename(s, adoptFrom.value, nodeId);
    } else {
      assert ws == rw;
    }
  }

  /** Once enough of the first attempt is done the store is near the one it was meant to leave. */
  lemma EnoughIsNear(s: Store, m: Mem, req: Req, num: nat, adoptFrom: Option<string>, j: nat)
    requires FirstAttempt(s, m, req, num, adoptFrom) && j <= |RegisterWrites(m, req, num, None)| && (Missing(m, req, num) != {} ==> j >= 2)
    ensures Near(ApplyAll(Renamed(s, req, adoptFrom), RegisterWrites(m, req, num, None)[..j]), RegisterEffect(s, m, req, num, adoptFrom), req, num)
  {
    hide FirstAttempt, RegisterWrites, RegisterEffect, Apply, ApplyAll, Near, Late, HasEntry, Renamed, Missing;
    var y, rw := Renamed(s, req, adoptFrom), RegisterWrites(m, req, num, None);
    RenamedHasEntry(s, m, req, num, adoptFrom);
    OnlyLateOrPurge(m, req, num);
    EntryStays(y, rw[..j], req, num);
    LateTail(m, req, num, j);
    AllLateNear(ApplyAll(y, rw[..j]), rw[j..], req, num);
    assert rw == rw[..j] + rw[j..];
    ApplyAllConcat(y, rw[..j], rw[j..]);
    RegisterWritesEffect(y, m, req, num, None);
  }

  /** Before the purge everybody it is for is still stored. */
  lemma NotYetPurged(s: Store, m: Mem, req: Req, num: nat, adoptFrom: Option<string>, j: nat, u: string)
    requires FirstAttempt(s, m, req, num, adoptFrom) && j < 2 && j <= |RegisterWrites(m, req, num, None)| && u in Missing(m, req, num)
    ensures u in ApplyAll(Renamed(s, req, adoptFrom), RegisterWrites(m, req, num, None)[..j]).users
  {
    hide Entry, SameNodes, SharesRecorded, StoreInv, Renamed, Incoming, Grants, ResolveNodeID, Conflict;
    var y, rw := Renamed(s, req, adoptFrom), RegisterWrites(m, req, num, None);
    RenamedHasEntry(s, m, req, num, adoptFrom);
    assert HomeOf(m, u) == StoredHome(s, u);
    if j == 0 {
      EmptyWrites(y);
    } else {
      assert rw[..1] == [rw[0]];
      ApplyOne(y, rw[0]);
    }
  }

  /** However many of its document writes a first attempt got done, the retry proceeds under the same entry, and its
      writes restore agreement if and only if the rename, if any, was completed and the purged users, if any, removed. */
  lemma RetryRestoresIff(s: Store, m: Mem, req: Req, num: nat, adoptFrom: Option<string>, now: int, later: int, pick: Option<nat>, k: nat)
    requires FirstAttempt(s, m, req, num, adoptFrom) && k <= |FirstWrites(s, m, req, num, adoptFrom)|
    requires FoundAt(Commit(m, req, num, now), req.address, pick)
    ensures var c := Commit(m, req, num, now);
      && Begin(c, req, later, pick) == Proceed(num, None)
      && (Agree(Commit(c, req, num, later), ApplyAll(ApplyAll(s, FirstWrites(s, m, req, num, adoptFrom)[..k]), RegisterWrites(c, req, num, None)))
          <==> k >= Needed(m, req, num, adoptFrom))
  {
    hide FirstAttempt, SameNodes, SameHomes, SharesRecorded, Commit, RegisterEffect, MayCommit, Entry, RegisterWrites, Missing, Begin, Near, FirstWrites, Renamed, FoundAt;
    var c := Commit(m, req, num, now);
    var x := ApplyAll(s, FirstWrites(s, m, req, num, adoptFrom)[..k]);
    RetryProceeds(s, m, req, num, adoptFrom, now, later, pick);
    RegisterWritesEffect(x, c, req, num, None);
    if adoptFrom.Some? && k < 3 {
      BrokenRename(s, m, req, num, adoptFrom.value, now, later, k);
    } else {
      var j := PastRename(s, m, req, num, adoptFrom, k);
      if Missing(m, req, num) != {} && j < 2 {
        var u :| u in Missing(m, req, num);
        NotYetPurged(s, m, req, num, adoptFrom, j, u);
        PurgedLinger(s, x, m, req, num, adoptFrom, now, later, u);
      } else {
        EnoughIsNear(s, m, req, num, adoptFrom, j);
        var t := RetryAgreesWithIntended(s, m, req, num, adoptFrom, now, later);
        RetrySettles(x, t, c, req, num, later);
      }
    }
  }

  /** One legacy node with one user, about to register its real id. */
  function LegacyStore(): Store {
    Store(map["addr:a" := NodeRec(0, "a")], map["alice" := "addr:a"], {}, 1)
  }

  function LegacyTables(): Mem {
    Mem(map[0 := Node("addr:a", "a", 1, 1, Healthy)], map["alice" := 0], map[], map["alice" := []], false, 0)
  }

  function LegacyRequest(): Req {
    Req("fs1", "a", ["alice"], [])
  }

  lemma LegacyAgrees()
    ensures MemInv(LegacyTables()) && StoreInv(LegacyStore()) && Agree(LegacyTables(), LegacyStore())
  {
    var m, s := LegacyTables(), LegacyStore();
    assert Hosted(m.users, 0) == {"alice"};
    forall u ensures HomeOf(m, u) == StoredHome(s, u) { }
    forall g ensures !InMem(m.shared, g) { }
  }

  lemma LegacyFirstAttempt()
    ensures FirstAttempt(LegacyStore(), LegacyTables(), LegacyRequest(), 0, Some("addr:a"))
  {
    LegacyAgrees();
    assert "addr:a"[0] != "fs1"[0];
    assert !Conflict(LegacyTables(), "fs1", Some(0), ["alice"]);
    hide StoreInv, Agree, Conflict;
  }

  /** Its retry after a first attempt whose writes all failed leaves the legacy document behind and the store out of step. */
  lemma FailedAdoptionStaysOut() returns (s: Store, m: Mem, req: Req)
    ensures FirstAttempt(s, m, req, 0, Some("addr:a"))
    ensures var c := Commit(m, req, 0, 2); !Agree(Commit(c, req, 0, 3), ApplyAll(s, RegisterWrites(c, req, 0, None)))
  {
    hide FirstAttempt, Agree, RegisterWrites, CommitUsers, CommitShared, Begin;
    s, m, req := LegacyStore(), LegacyTables(), LegacyRequest();
    LegacyFirstAttempt();
    var c := Commit(m, req, 0, 2);
    assert FoundAt(c, "a", Some(0));
    EmptyWrites(s);
    RetryRestoresIff(s, m, req, 0, Some("addr:a"), 2, 3, Some(0), 0);
  }
}

/**
The in-process metadata store: every method is proved to be the write it stands for.
*/
module MemoryStore {
  import opened SharePath
  import opened MetaStore

  datatype UserRecord = UserRecord(username: string, home: string)

  /** The assignments a list of records makes, later records winning. */
  function Assigned(users: map<string, string>, recs: seq<UserRecord>): map<string, string>
    decreases |recs|
  {
    if recs == [] then users
    else Assigned(users, recs[..|recs| - 1])[recs[|recs| - 1].username := recs[|recs| - 1].home]
  }

  class MemStore {
    var fileServers: map<string, NodeRec>
    var users: map<string, string>
    var shares: set<Grant>
    var nextNumericID: nat

    ghost function Contents(): Store
      reads this
    {
      Store(fileServers, users, shares, nextNumericID)
    }

    constructor ()
      ensures Contents() == Store(map[], map[], {}, 0) && StoreInv(Contents())
    {
      fileServers, users, shares, nextNumericID := map[], map[], {}, 0;
    }

    /** A known node keeps its number; a new one gets the next. */
    method UpsertFileServer(node: string, address: string) returns (num: nat)
      modifies this
      ensures Contents() == Apply(old(Contents()), Upsert(node, address))
      ensures num == if node in old(fileServers) then old(fileServers)[node].num else old(nextNumericID)
      ensures fileServers == old(fileServers)[node := NodeRec(num, address)]
      ensures nextNumericID == if node in old(fileServers) then old(nextNumericID) else old(nextNumericID) + 1
      ensures users == old(users) && shares == old(shares)
    {
      if node in fileServers {
        num := fileServers[node].num;
      } else {
        num := nextNumericID;
        nextNumericID := nextNumericID + 1;
      }
      fileServers := fileServers[node := NodeRec(num, address)];
    }

    method RemoveFileServer(node: string)
      modifies this
      ensures Contents() == Apply(old(Contents()), RemoveNode(node))
      ensures fileServers == old(fileServers) - {node} && users == old(users) && shares == old(shares) && nextNumericID == old(nextNumericID)
    {
      fileServers := fileServers - {node};
    }

    /** Returns false if there is no such node. */
    method RenameFileServer(from: string, to: string) returns (found: bool)
      modifies this
      ensures Contents() == Apply(old(Contents()), Rename(from, to))
      ensures found <==> from == to || from in old(fileServers)
      ensures from == to || !found ==> Contents() == old(Contents())
      ensures found && from != to ==>
        && users.Keys == old(users).Keys && (forall u :: u in users ==> users[u] == if old(users)[u] == from then to else old(users)[u])
        && fileServers == (old(fileServers) - {from})[to := old(fileServers)[if to in old(fileServers) then to else from]]
        && shares == old(shares) && nextNumericID == old(nextNumericID)
    {
      if from == to { return true; }
      if from !in fileServers { return false; }
      var rec := fileServers[from];
      var todo := users.Keys;
      while todo != {}
        invariant todo <= users.Keys == old(users).Keys
        invariant forall u :: u in users ==> users[u] == if u in todo || old(users)[u] != from then old(users)[u] else to
        invariant fileServers == old(fileServers) && shares == old(shares) && nextNumericID == old(nextNumericID)
        decreases |todo|
      {
        var u :| u in todo;
        if users[u] == from { users := users[u := to]; }
        todo := todo - {u};
      }
      assert users == Moved(old(users), from, to);
      fileServers := fileServers - {from};
      if to !in fileServers { fileServers := fileServers[to := rec]; }
      found := true;
    }

    method AssignUser(user: string, node: string)
      modifies this
      ensures Contents() == Apply(old(Contents()), Assign({user}, node))
      ensures users == old(users)[user := node] && fileServers == old(fileServers) && shares == old(shares) && nextNumericID == old(nextNumericID)
    {
      ghost var who := {user};
      users := users[user := node];
      assert users == old(users) + map u | u in who :: node;
    }

    method AssignUsers(recs: seq<UserRecord>)
      modifies `users
      ensures users == Assigned(old(users), recs)
    {
      for i := 0 to |recs|
        invariant users == Assigned(old(users), recs[..i])
      {
        assert recs[..i + 1][..i] == recs[..i];
        users := users[recs[i].username := recs[i].home];
      }
      assert recs[..|recs|] == recs;
    }

    method RemoveUsers(usernames: seq<string>)
      modifies this
      ensures Contents() == Apply(old(Contents()), MetaStore.RemoveUsers(set u | u in usernames))
      ensures forall u :: u in users <==> u in old(users) && u !in usernames
      ensures forall u :: u in users ==> users[u] == old(users)[u]
    {
      for i := 0 to |usernames|
        invariant users == old(users) - (set u | u in usernames[..i])
        invariant fileServers == old(fileServers) && shares == old(shares) && nextNumericID == old(nextNumericID)
      {
        users := users - {usernames[i]};
      }
      assert usernames[..|usernames|] == usernames;
    }

    method AddShare(g: Grant)
      modifies this
      ensures Contents() == Apply(old(Contents()), MetaStore.AddShares({g}))
      ensures shares == old(shares) + {Grant(g.grantee, g.owner, Normalize(g.path))}
    {
      shares := shares + {Canonical(g)};
      assert (set h | h in {g} :: Canonical(h)) == {Canonical(g)};
    }

    method AddShares(gs: seq<Grant>)
      modifies this
      ensures Contents() == Apply(old(Contents()), MetaStore.AddShares(set g | g in gs))
      ensures forall h :: h in shares <==> h in old(shares) || exists g :: g in gs && h == Grant(g.grantee, g.owner, Normalize(g.path))
    {
      for i := 0 to |gs|
        invariant shares == old(shares) + (set g | g in gs[..i] :: Canonical(g))
        invariant fileServers == old(fileServers) && users == old(users) && nextNumericID == old(nextNumericID)
      {
        assert gs[..i + 1] == gs[..i] + [gs[i]];
        shares := shares + {Canonical(gs[i])};
      }
      assert gs[..|gs|] == gs;
      assert (set g | g in gs :: Canonical(g)) == (set g | g in (set h | h in gs) :: Canonical(g));
    }

    method RemoveShare(g: Grant)
      modifies this
      ensures Contents() == Apply(old(Contents()), MetaStore.RemoveShare(g))
      ensures shares == old(shares) - {Grant(g.grantee, g.owner, Normalize(g.path))}
    {
      shares := shares - {Canonical(g)};
    }

    method RemoveSharesInvolving(usernames: seq<string>)
      modifies this
      ensures Contents() == Apply(old(Contents()), MetaStore.RemoveSharesInvolving(set u | u in usernames))
      ensures forall g :: g in shares <==> g in old(shares) && g.grantee !in usernames && g.owner !in usernames
    {
      if |usernames| == 0 {
        assert shares == set g | g in shares && g.grantee !in (set u | u in usernames) && g.owner !in (set u | u in usernames);
        return;
      }
      var who := set u | u in usernames;
      var todo := shares;
      while todo != {}
        invariant todo <= shares
        invariant forall g :: g in shares <==> g in old(shares) && (g in todo || (g.grantee !in who && g.owner !in who))
        invariant fileServers == old(fileServers) && users == old(users) && nextNumericID == old(nextNumericID)
        decreases |todo|
      {
        var g :| g in todo;
        if g.grantee in who || g.owner in who { shares := shares - {g}; }
        todo := todo - {g};
      }
    }

    method RemoveSharesByOwner(owners: seq<string>)
      modifies this
      ensures Contents() == Apply(old(Contents()), MetaStore.RemoveSharesByOwner(set u | u in owners))
      ensures forall g :: g in shares <==> g in old(shares) && g.owner !in owners
    {
      if |owners| == 0 {
        assert shares == set g | g in shares && g.owner !in (set u | u in owners);
        return;
      }
      var who := set u | u in owners;
      var todo := shares;
      while todo != {}
        invariant todo <= shares
        invariant forall g :: g in shares <==> g in old(shares) && (g in todo || g.owner !in who)
        invariant fileServers == old(fileServers) && users == old(users) && nextNumericID == old(nextNumericID)
        decreases |todo|
      {
        var g :| g in todo;
        if g.owner in who { shares := shares - {g}; }
        todo := todo - {g};
      }
    }
  }

  /** Who is assigned by a list of records. */
  function Names(recs: seq<UserRecord>): set<string> {
    if recs == [] then {} else Names(recs[..|recs| - 1]) + {recs[|recs| - 1].username}
  }

  /** A registration's assignments, all to one node, are one bulk assignment. */
  lemma {:induction false} AssignedIsAssign(s: Store, recs: seq<UserRecord>, home: string)
    requires forall i :: 0 <= i < |recs| ==> recs[i].home == home
    ensures s.(users := Assigned(s.users, recs)) == Apply(s, Assign(Names(recs), home))
    decreases |recs|
  {
    if recs == [] {
      NobodyAssigned(s, home);
    } else {
      var last := recs[|recs| - 1];
      AssignedIsAssign(s, recs[..|recs| - 1], home);
      OneMoreAssigned(s, Names(recs[..|recs| - 1]), last.username, home);
    }
  }

  lemma NobodyAssigned(s: Store, home: string)
    ensures Apply(s, Assign({}, home)) == s
  {
  }

  lemma OneMoreAssigned(s: Store, who: set<string>, u: string, home: string)
    ensures Apply(s, Assign(who + {u}, home)).users == Apply(s, Assign(who, home)).users[u := home]
  {
  }
}

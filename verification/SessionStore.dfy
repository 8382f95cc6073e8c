/**
The session store: three maps that every method updates together, proved against the
session table.
*/
module SessionStore {
  import opened Options
  import opened Sessions

  // ---------------------------------------------------------------- dropping one session at a time

  lemma {:induction false} KeepTwice(hs: seq<string>, a: set<string>, b: set<string>)
    ensures Keep(Keep(hs, a), b) == Keep(hs, a + b)
  {
    if hs == [] {
    } else {
      KeepTwice(hs[1..], a, b);
    }
  }

  lemma DropTwice(t: Table, a: set<string>, b: set<string>)
    ensures Drop(Drop(t, a), b) == Drop(t, a + b)
  {
    hide Keep;
    forall u | u in t.byUser ensures Keep(Keep(t.byUser[u], a), b) == Keep(t.byUser[u], a + b) {
      KeepTwice(t.byUser[u], a, b);
    }
    KeepNothing(b);
    assert Drop(Drop(t, a), b).sessions == Drop(t, a + b).sessions;
    assert Drop(Drop(t, a), b).byUser == Drop(t, a + b).byUser;
    assert Drop(Drop(t, a), b).byClient == Drop(t, a + b).byClient;
  }

  lemma KeepNothing(b: set<string>)
    ensures Keep([], b) == []
  {
  }

  /** Deleting a session, its client's entry and its slot in its user's list drops it from all three indexes. */
  lemma UnlistIsDrop(t: Table, h: string)
    requires Inv(t) && h in t.sessions
    ensures Table(t.sessions - {h}, RemoveFromUser(t.byUser, t.sessions[h].user, h), t.byClient - {t.sessions[h].client}, t.ttl)
      == Drop(t, {h})
  {
    hide ListOk, Keep, RemoveFromUser;
    OthersUntouched(t, t.sessions[h].user, h);
    assert SessionOk(t, h);
    forall c | c in t.byClient ensures t.byClient[c] == h <==> c == t.sessions[h].client { assert ClientOk(t, c); }
    assert Drop(t, {h}).byClient == t.byClient - {t.sessions[h].client};
  }

  /** Dropping everything a user's list names leaves that user without a list and the other lists alone. */
  lemma DropUser(t: Table, u: string)
    requires Inv(t) && u in t.byUser
    ensures RevokeUser(t, u).byUser == t.byUser - {u}
  {
    hide SessionOk, ClientOk, Keep;
    var dead := set h | h in t.byUser[u];
    assert ListOk(t, u);
    KeepNone(t.byUser[u], dead);
    forall v | v in t.byUser && v != u ensures Keep(t.byUser[v], dead) == t.byUser[v] && t.byUser[v] != [] {
      assert ListOk(t, v);
      KeepAll(t.byUser[v], dead);
    }
  }

  lemma {:induction false} KeepNone(hs: seq<string>, dead: set<string>)
    requires forall h :: h in hs ==> h in dead
    ensures Keep(hs, dead) == []
  {
    if hs == [] {
    } else {
      assert hs[0] in hs;
      forall h | h in hs[1..] ensures h in dead { assert h in hs; }
      KeepNone(hs[1..], dead);
    }
  }

  // ---------------------------------------------------------------- the store

  class Store {
    var sessions: map<string, Session>
    var byUser: map<string, seq<string>>
    var byClient: map<string, string>
    const ttl: int

    ghost function Model(): Table
      reads this
    {
      Table(sessions, byUser, byClient, ttl)
    }

    ghost predicate Valid()
      reads this
    {
      Inv(Model())
    }

    constructor (idleTTL: int)
      ensures Valid() && Model() == Table(map[], map[], map[], if idleTTL <= 0 then 900_000_000_000 else idleTTL)
    {
      sessions, byUser, byClient := map[], map[], map[];
      ttl := if idleTTL <= 0 then 900_000_000_000 else idleTTL;
    }

    method RemoveFromUserSlice(u: string, h: string)
      modifies `byUser
      ensures byUser == RemoveFromUser(old(byUser), u, h)
    {
      if u !in byUser { return; }
      var hashes := byUser[u];
      var kept: seq<string> := [];
      for i := 0 to |hashes|
        invariant kept + Keep(hashes[i..], {h}) == Keep(hashes, {h})
      {
        assert hashes[i..][1..] == hashes[i + 1..];
        if hashes[i] != h { kept := kept + [hashes[i]]; }
      }
      KeepNothing({h});
      assert kept == Keep(hashes, {h});
      if kept == [] { byUser := byUser - {u}; } else { byUser := byUser[u := kept]; }
    }

    /** Deletes a session from all three maps. */
    method Unlist(h: string)
      requires Valid() && h in sessions
      modifies this
      ensures Valid() && Model() == Drop(old(Model()), {h})
    {
      ghost var t := Model();
      hide Inv, Drop, RemoveFromUser;
      UnlistIsDrop(t, h);
      DropKeepsInv(t, {h});
      var sess := sessions[h];
      sessions := sessions - {h};
      byClient := byClient - {sess.client};
      RemoveFromUserSlice(sess.user, h);
    }

    method FindExpired(now: int) returns (expired: seq<string>)
      ensures Distinct(expired) && forall h :: h in expired <==> h in ExpiredSet(Model(), now)
    {
      expired := [];
      var todo := sessions.Keys;
      while todo != {}
        invariant todo <= sessions.Keys
        invariant forall h :: h in expired <==> h in ExpiredSet(Model(), now) && h !in todo
        invariant Distinct(expired)
        decreases |todo|
      {
        var h :| h in todo;
        todo := todo - {h};
        if IsExpired(sessions[h], now, ttl) { expired := expired + [h]; }
      }
    }

    method PurgeExpired(now: int)
      requires Valid()
      modifies this
      ensures Valid() && Model() == Drop(old(Model()), ExpiredSet(old(Model()), now))
    {
      hide Inv, IsExpired, Keep;
      ghost var t := Model();
      var expired := FindExpired(now);
      ghost var dead: set<string> := {};
      DropNothing(t);
      for i := 0 to |expired|
        invariant Valid() && Model() == Drop(t, dead)
        invariant dead == set k | 0 <= k < i :: expired[k]
      {
        var h := expired[i];
        assert h in expired && h !in dead;
        Unlist(h);
        DropTwice(t, dead, {h});
        dead := dead + {h};
      }
      assert dead == ExpiredSet(t, now) by {
        forall h ensures h in dead <==> h in ExpiredSet(t, now) { assert h in expired <==> h in ExpiredSet(t, now); }
      }
    }

    /** Room for one more session of `u`: the cap on sessions per user. */
    method EvictOldest(u: string)
      requires Valid()
      modifies this
      ensures Valid() && Model() == Evicted(old(Model()), u)
    {
      ghost var t := Model();
      var hashes := if u in byUser then byUser[u] else [];
      if |hashes| >= MAX_PER_USER {
        var oldest := hashes[0];
        EvictsOldest(t, u);
        UnlistIsDrop(t, oldest);
        assert ListOk(t, u);
        KeepHead(hashes);
        DropKeepsInv(t, {oldest});
        if oldest in sessions { byClient := byClient - {sessions[oldest].client}; }
        sessions := sessions - {oldest};
        byUser := byUser[u := hashes[1..]];
      }
    }

    /** Puts the new session in, in place of the client's previous one. */
    method Insert(hash: string, user: string, client: string, ip: string, absoluteExp: Option<int>, now: int)
      modifies this
      ensures var s := Session(hash, user, client, ip, now, now, absoluteExp);
        Model() == Append(WithoutPrevious(old(Model()), s), s)
    {
      hide RemoveFromUser, Inv;
      if client in byClient {
        var prev := byClient[client];
        sessions := sessions - {prev};
        RemoveFromUserSlice(user, prev);
      }
      sessions := sessions[hash := Session(hash, user, client, ip, now, now, absoluteExp)];
      byUser := byUser[user := (if user in byUser then byUser[user] else []) + [hash]];
      if client != "" { byClient := byClient[client := hash]; }
    }

    /** Creation. The indexes agree afterwards exactly if the client and the hash were compatible. */
    method CreateSession(token: string, hash: string, user: string, client: string, ip: string, absoluteExp: Option<int>, now: int)
      returns (r: Option<Error>)
      requires Valid() && NotLater(Model(), now)
      modifies this
      ensures (Model(), r) == Create(old(Model()), token, Session(hash, user, client, ip, now, now, absoluteExp), now)
      ensures r == Some(BadArguments) <==> token == "" || user == ""
      ensures r == Some(Saturated) <==> token != "" && user != "" && |CurrentSet(old(Model()), now)| >= 10000
      ensures r.None? ==> hash in sessions && sessions[hash] == Session(hash, user, client, ip, now, now, absoluteExp)
      ensures r.None? ==> forall h :: h != hash ==>
        (h in sessions <==> h in old(sessions) && !MakesRoom(old(Model()), Session(hash, user, client, ip, now, now, absoluteExp), now, h))
      ensures r.Some? ==> Valid()
      ensures r.None? ==> (Valid() <==> Compatible(Room(old(Model()), user, now), user, client, hash))
    {
      hide Inv, Drop, Compatible, NotLater, ExpiredSet, Evicted, Append, WithoutPrevious;
      hide MakesRoom;
      CreateKeepsInvIff(Model(), token, Session(hash, user, client, ip, now, now, absoluteExp), now);
      CreateExact(Model(), token, Session(hash, user, client, ip, now, now, absoluteExp), now);
      if token == "" || user == "" { return Some(BadArguments); }
      if |sessions| >= MAX_GLOBAL {
        PurgeExpired(now);
        if |sessions| >= MAX_GLOBAL { return Some(Saturated); }
      }
      EvictOldest(user);
      Insert(hash, user, client, ip, absoluteExp, now);
      r := None;
    }

    /** Validation reads first and touches afterwards; the caller gets the session, and an expired one is
        handed to a revocation in the background. */
    method ValidateSession(token: string, hash: string, ip: string, now: int) returns (r: Option<Error>, found: Option<Session>, revoke: bool)
      requires Valid()
      modifies `sessions
      ensures Valid() && r == Validate(old(Model()), token, hash, ip, now)
      ensures r.None? <==> token != "" && hash in old(sessions) && Current(old(sessions)[hash], now, ttl) && SameAddress(old(sessions)[hash], ip)
      ensures r == Some(NotFound) <==> token == "" || hash !in old(sessions)
      ensures r == Some(Expired) <==> token != "" && hash in old(sessions) && !Current(old(sessions)[hash], now, ttl)
      ensures r == Some(IpMismatch) <==>
        token != "" && hash in old(sessions) && Current(old(sessions)[hash], now, ttl) && !SameAddress(old(sessions)[hash], ip)
      ensures sessions == if r.None? then old(sessions)[hash := old(sessions)[hash].(lastSeen := now)] else old(sessions)
      ensures Model() == if r.None? then Touched(old(Model()), hash, now) else old(Model())
      ensures found.Some? <==> r.None?
      ensures found.Some? ==> hash in sessions && found.value == sessions[hash] && found.value == old(sessions)[hash].(lastSeen := now)
      ensures revoke <==> r == Some(Expired)
    {
      hide Inv;
      ValidateExact(Model(), token, hash, ip, now);
      TouchKeepsInv(Model(), hash, now);
      if token == "" { return Some(NotFound), None, false; }
      if hash !in sessions { return Some(NotFound), None, false; }
      var sess := sessions[hash];
      if IsExpired(sess, now, ttl) { return Some(Expired), None, true; }
      if sess.ip != "" && ip != "" && sess.ip != ip { return Some(IpMismatch), None, false; }
      if hash in sessions { sessions := sessions[hash := sessions[hash].(lastSeen := now)]; }
      return None, Some(sessions[hash]), false;
    }

    /** The client's session, if it has one that has not expired. */
    method GetSessionByClientID(client: string, now: int) returns (r: Option<Session>)
      requires Valid()
      ensures r.Some? <==> exists h :: h in sessions && client != "" && sessions[h].client == client && Current(sessions[h], now, ttl)
      ensures r.Some? ==> r.value.client == client && r.value.hash in sessions && sessions[r.value.hash] == r.value
    {
      if client !in byClient {
        if client != "" { NoClient(Model(), client); }
        return None;
      }
      assert ClientOk(Model(), client);
      var hash := byClient[client];
      assert SessionOk(Model(), hash);
      forall h | h in sessions && sessions[h].client == client ensures h == hash { assert SessionOk(Model(), h); }
      if hash !in sessions || IsExpired(sessions[hash], now, ttl) { return None; }
      r := Some(sessions[hash]);
    }

    method RevokeSession(hash: string)
      requires Valid()
      modifies this
      ensures Valid() && Model() == Revoke(old(Model()), hash)
    {
      if hash !in sessions { return; }
      Unlist(hash);
    }

    method RevokeByClientID(client: string)
      requires Valid()
      modifies this
      ensures Valid() && Model() == RevokeClient(old(Model()), client)
    {
      if client !in byClient { return; }
      assert ClientOk(Model(), client);
      Unlist(byClient[client]);
    }

    /** Deletes the listed sessions and their clients' entries. */
    method DeleteAll(hashes: seq<string>)
      requires Valid() && forall h :: h in hashes ==> h in sessions
      modifies `sessions, `byClient
      ensures sessions == old(sessions) - (set h | h in hashes)
      ensures byClient == ClientsBut(old(Model()), hashes)
    {
      hide Inv, ClientsBut;
      ghost var t := Model();
      NoneBut(t);
      for i := 0 to |hashes|
        invariant sessions == t.sessions - (set h | h in hashes[..i])
        invariant byClient == ClientsBut(t, hashes[..i])
      {
        var h := hashes[i];
        assert h in hashes;
        assert hashes[..i + 1] == hashes[..i] + [h];
        ClientGone(t, h, hashes[..i]);
        if h in sessions { byClient := byClient - {sessions[h].client}; }
        sessions := sessions - {h};
      }
      assert hashes[..|hashes|] == hashes;
    }

    method RevokeAllForUser(u: string)
      requires Valid()
      modifies this
      ensures Valid() && Model() == RevokeUser(old(Model()), u)
    {
      hide Inv;
      ghost var t := Model();
      if u !in byUser {
        assert (set h | h in ListOf(t, u)) == {};
        DropNothing(t);
        return;
      }
      DropUser(t, u);
      DropKeepsInv(t, set h | h in t.byUser[u]);
      UserListed(t, u);
      DeleteAll(byUser[u]);
      byUser := byUser - {u};
      assert byClient == RevokeUser(t, u).byClient;
    }

    method Sweep(now: int)
      requires Valid()
      modifies this
      ensures Valid() && Model() == Drop(old(Model()), ExpiredSet(old(Model()), now))
      ensures forall h :: h in sessions <==> h in old(sessions) && Current(old(sessions)[h], now, ttl)
    {
      SweepExact(Model(), now);
      PurgeExpired(now);
    }
  }

  lemma NoClient(t: Table, client: string)
    requires Inv(t) && client !in t.byClient && client != ""
    ensures forall h :: h in t.sessions ==> t.sessions[h].client != client
  {
    forall h | h in t.sessions ensures t.sessions[h].client != client { assert SessionOk(t, h); }
  }

  lemma DropNothing(t: Table)
    requires Inv(t)
    ensures Drop(t, {}) == t
  {
    hide SessionOk, ClientOk, Keep;
    forall u | u in t.byUser ensures Keep(t.byUser[u], {}) == t.byUser[u] && t.byUser[u] != [] {
      assert ListOk(t, u);
      KeepAll(t.byUser[u], {});
    }
  }

  /** The client entries of all sessions but the listed ones. */
  ghost function ClientsBut(t: Table, gone: seq<string>): map<string, string> {
    map c | c in t.byClient && t.byClient[c] !in gone :: t.byClient[c]
  }

  lemma NoneBut(t: Table)
    ensures ClientsBut(t, []) == t.byClient
  {
  }

  lemma UserListed(t: Table, u: string)
    requires Inv(t) && u in t.byUser
    ensures forall h :: h in t.byUser[u] ==> h in t.sessions
  {
    assert ListOk(t, u);
  }

  /** Clients of other sessions keep their entries when one session's client entry goes; a
      session listed twice changes nothing the second time. */
  lemma ClientGone(t: Table, h: string, before: seq<string>)
    requires Inv(t) && h in t.sessions
    ensures ClientsBut(t, before) - {t.sessions[h].client} == ClientsBut(t, before + [h])
    ensures h in before ==> ClientsBut(t, before) == ClientsBut(t, before + [h])
  {
    hide ListOk;
    assert SessionOk(t, h);
    forall c | c in t.byClient ensures t.byClient[c] == h <==> c == t.sessions[h].client { assert ClientOk(t, c); }
  }
}

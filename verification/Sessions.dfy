/**
The session table as a value: sessions by token hash, hashes by user from oldest to
newest, and the hash of each client. Every operation other than creation only drops
sessions or touches one, so one lemma about dropping covers them all.
*/
module Sessions {
  import opened Options

  datatype Session = Session(
    hash: string,
    user: string,
    client: string,
    ip: string,
    createdAt: int,
    lastSeen: int,
    absoluteExp: Option<int>)

  datatype Table = Table(
    sessions: map<string, Session>,
    byUser: map<string, seq<string>>,
    byClient: map<string, string>,
    ttl: int)

  const MAX_PER_USER := 5
  const MAX_GLOBAL := 10000

  datatype Error = BadArguments | NotFound | Expired | IpMismatch | Saturated

  predicate IsExpired(s: Session, now: int, ttl: int) {
    (s.absoluteExp.Some? && now > s.absoluteExp.value) || now - s.lastSeen > ttl
  }

  // ---------------------------------------------------------------- invariant

  predicate Distinct(hs: seq<string>) {
    forall i, j :: 0 <= i < j < |hs| ==> hs[i] != hs[j]
  }

  /** A user's list: non-empty, one slot per session of that user, oldest first, within the cap. */
  ghost predicate ListOk(t: Table, u: string)
    requires u in t.byUser
  {
    var hs := t.byUser[u];
    && 0 < |hs| <= MAX_PER_USER && Distinct(hs)
    && (forall h :: h in hs ==> h in t.sessions && t.sessions[h].user == u)
    && (forall i, j :: 0 <= i < j < |hs| && hs[i] in t.sessions && hs[j] in t.sessions ==>
         t.sessions[hs[i]].createdAt <= t.sessions[hs[j]].createdAt)
  }

  /** A session is listed under its hash, under its user and, if it names one, under its client. */
  ghost predicate SessionOk(t: Table, h: string)
    requires h in t.sessions
  {
    var s := t.sessions[h];
    && s.hash == h && s.user in t.byUser && h in t.byUser[s.user]
    && (s.client != "" ==> s.client in t.byClient && t.byClient[s.client] == h)
  }

  ghost predicate ClientOk(t: Table, c: string)
    requires c in t.byClient
  {
    c != "" && t.byClient[c] in t.sessions && t.sessions[t.byClient[c]].client == c
  }

  /** The three indexes agree exactly, within both capacity limits. */
  ghost predicate Inv(t: Table) {
    && (forall u :: u in t.byUser ==> ListOk(t, u))
    && (forall h :: h in t.sessions ==> SessionOk(t, h))
    && (forall c :: c in t.byClient ==> ClientOk(t, c))
    && |t.sessions| <= MAX_GLOBAL
  }

  // ---------------------------------------------------------------- dropping sessions

  function Keep(hs: seq<string>, dead: set<string>): seq<string> {
    if hs == [] then []
    else if hs[0] in dead then Keep(hs[1..], dead)
    else [hs[0]] + Keep(hs[1..], dead)
  }

  /** The table without the sessions in `dead`; a user left with none has no list. */
  function Drop(t: Table, dead: set<string>): Table {
    Table(
      t.sessions - dead,
      map u | u in t.byUser && Keep(t.byUser[u], dead) != [] :: Keep(t.byUser[u], dead),
      map c | c in t.byClient && t.byClient[c] !in dead :: t.byClient[c],
      t.ttl)
  }

  lemma {:induction false} KeepHas(hs: seq<string>, dead: set<string>, h: string)
    ensures h in Keep(hs, dead) <==> h in hs && h !in dead
  {
    if hs == [] {
    } else {
      KeepHas(hs[1..], dead, h);
      assert hs == [hs[0]] + hs[1..];
    }
  }

  /** Entries kept stay in order. */
  lemma {:induction false} KeepOrder(hs: seq<string>, dead: set<string>, i: nat, j: nat) returns (a: nat, b: nat)
    requires i < j < |Keep(hs, dead)|
    ensures a < b < |hs| && hs[a] == Keep(hs, dead)[i] && hs[b] == Keep(hs, dead)[j]
  {
    if hs[0] in dead {
      a, b := KeepOrder(hs[1..], dead, i, j);
      a, b := a + 1, b + 1;
    } else if i == 0 {
      var h := Keep(hs, dead)[j];
      assert h == Keep(hs[1..], dead)[j - 1];
      KeepHas(hs[1..], dead, h);
      b :| 0 <= b < |hs[1..]| && hs[1..][b] == h;
      a, b := 0, b + 1;
    } else {
      a, b := KeepOrder(hs[1..], dead, i - 1, j - 1);
      a, b := a + 1, b + 1;
    }
  }

  lemma {:induction false} KeepShrinks(hs: seq<string>, dead: set<string>)
    ensures |Keep(hs, dead)| <= |hs|
  {
    if hs == [] {
    } else {
      KeepShrinks(hs[1..], dead);
    }
  }

  lemma DropListOk(t: Table, dead: set<string>, u: string)
    requires u in t.byUser && ListOk(t, u) && u in Drop(t, dead).byUser
    ensures ListOk(Drop(t, dead), u)
  {
    var hs, ks := t.byUser[u], Keep(t.byUser[u], dead);
    KeepShrinks(hs, dead);
    forall h | h in ks ensures h in hs && h !in dead { KeepHas(hs, dead, h); }
    forall i, j | 0 <= i < j < |ks|
      ensures ks[i] != ks[j] && t.sessions[ks[i]].createdAt <= t.sessions[ks[j]].createdAt
    {
      var a, b := KeepOrder(hs, dead, i, j);
    }
  }

  lemma DropSessionOk(t: Table, dead: set<string>, h: string)
    requires h in t.sessions && SessionOk(t, h) && h !in dead
    ensures h in Drop(t, dead).sessions && SessionOk(Drop(t, dead), h)
  {
    KeepHas(t.byUser[t.sessions[h].user], dead, h);
  }

  /** Dropping any set of sessions keeps the indexes in agreement. */
  lemma DropKeepsInv(t: Table, dead: set<string>)
    requires Inv(t)
    ensures Inv(Drop(t, dead))
  {
    hide ListOk, SessionOk;
    var k := Drop(t, dead);
    forall u | u in k.byUser ensures ListOk(k, u) { DropListOk(t, dead, u); }
    forall h | h in k.sessions ensures SessionOk(k, h) { DropSessionOk(t, dead, h); }
    SmallerMap(t.sessions, dead);
  }

  lemma SmallerMap(m: map<string, Session>, dead: set<string>)
    ensures |m - dead| <= |m|
  {
    var a, b := (m - dead).Keys, m.Keys;
    assert a <= b;
    SubsetSize(a, b);
    assert |m - dead| == |a| && |m| == |b|;
  }

  lemma {:induction false} SubsetSize(a: set<string>, b: set<string>)
    requires a <= b
    ensures |a| <= |b|
  {
    if a != {} {
      var x :| x in a;
      SubsetSize(a - {x}, b - {x});
    }
  }

  // ---------------------------------------------------------------- creation

  function ExpiredSet(t: Table, now: int): set<string> {
    set h | h in t.sessions && IsExpired(t.sessions[h], now, t.ttl)
  }

  /** A full table is swept first. */
  function Purged(t: Table, now: int): Table {
    if |t.sessions| >= MAX_GLOBAL then Drop(t, ExpiredSet(t, now)) else t
  }

  function ListOf(t: Table, u: string): seq<string> {
    if u in t.byUser then t.byUser[u] else []
  }

  /** A user at the cap loses the first session of the list. */
  function Evicted(t: Table, u: string): Table {
    if |ListOf(t, u)| >= MAX_PER_USER then Drop(t, {ListOf(t, u)[0]}) else t
  }

  function RemoveFromUser(byUser: map<string, seq<string>>, u: string, h: string): map<string, seq<string>> {
    if u !in byUser then byUser
    else if Keep(byUser[u], {h}) == [] then byUser - {u}
    else byUser[u := Keep(byUser[u], {h})]
  }

  /** Takes the client's previous session, if any, out of the table and of this user's list. */
  function WithoutPrevious(t: Table, s: Session): Table {
    if s.client in t.byClient then
      t.(sessions := t.sessions - {t.byClient[s.client]}, byUser := RemoveFromUser(t.byUser, s.user, t.byClient[s.client]))
    else t
  }

  function Append(t: Table, s: Session): Table {
    t.(sessions := t.sessions[s.hash := s],
       byUser := t.byUser[s.user := ListOf(t, s.user) + [s.hash]],
       byClient := if s.client != "" then t.byClient[s.client := s.hash] else t.byClient)
  }

  /** What is left once room has been made for one more session of `u`. */
  function Room(t: Table, u: string, now: int): Table {
    Evicted(Purged(t, now), u)
  }

  /** Creation; `token` is the raw token of which `s.hash` is the hash. */
  function Create(t: Table, token: string, s: Session, now: int): (Table, Option<Error>) {
    if token == "" || s.user == "" then (t, Some(BadArguments))
    else if |Purged(t, now).sessions| >= MAX_GLOBAL then (Purged(t, now), Some(Saturated))
    else (Append(WithoutPrevious(Room(t, s.user, now), s), s), None)
  }

  /** The client's surviving session, if any, is this user's, and the hash is new or that session's own. */
  ghost predicate Compatible(t: Table, u: string, client: string, hash: string) {
    && (client in t.byClient && t.byClient[client] in t.sessions ==> t.sessions[t.byClient[client]].user == u)
    && (hash in t.sessions ==> client in t.byClient && t.byClient[client] == hash)
  }

  /** No session claims to have been created after `now`. */
  ghost predicate NotLater(t: Table, now: int) {
    forall h :: h in t.sessions ==> t.sessions[h].createdAt <= now
  }

  lemma RoomKeepsInv(t: Table, u: string, now: int)
    requires Inv(t)
    ensures Inv(Purged(t, now)) && Inv(Room(t, u, now))
    ensures |Room(t, u, now).sessions| <= |Purged(t, now).sessions| && |ListOf(Room(t, u, now), u)| < MAX_PER_USER
    ensures NotLater(t, now) ==> NotLater(Room(t, u, now), now)
  {
    hide Keep, SessionOk, ClientOk;
    DropKeepsInv(t, ExpiredSet(t, now));
    var p := Purged(t, now);
    if |ListOf(p, u)| >= MAX_PER_USER {
      assert ListOk(p, u);
      DropKeepsInv(p, {p.byUser[u][0]});
      SmallerMap(p.sessions, {p.byUser[u][0]});
      KeepHead(p.byUser[u]);
    }
  }

  lemma KeepHead(hs: seq<string>)
    requires hs != [] && Distinct(hs)
    ensures Keep(hs, {hs[0]}) == hs[1..]
  {
    KeepAll(hs[1..], {hs[0]});
  }

  lemma {:induction false} KeepAll(hs: seq<string>, dead: set<string>)
    requires forall h :: h in hs ==> h !in dead
    ensures Keep(hs, dead) == hs
  {
    if hs == [] {
    } else {
      assert hs[0] in hs;
      forall h | h in hs[1..] ensures h !in dead { assert h in hs; }
      KeepAll(hs[1..], dead);
    }
  }

  /** Eviction takes the session the user created first, and no other. */
  lemma EvictsOldest(t: Table, u: string)
    requires Inv(t) && |ListOf(t, u)| >= MAX_PER_USER
    ensures var out := ListOf(t, u)[0];
      && Evicted(t, u).sessions == t.sessions - {out}
      && out in t.sessions && t.sessions[out].user == u
      && forall h :: h in t.sessions && t.sessions[h].user == u ==> t.sessions[out].createdAt <= t.sessions[h].createdAt
  {
    assert ListOk(t, u);
    var hs := t.byUser[u];
    assert hs[0] in hs;
    forall h | h in t.sessions && t.sessions[h].user == u ensures t.sessions[hs[0]].createdAt <= t.sessions[h].createdAt {
      assert SessionOk(t, h);
      var i :| 0 <= i < |hs| && hs[i] == h;
      assert hs[i] in hs;
    }
  }

  /** With a compatible client, taking out the previous session is dropping it, but for its client entry. */
  lemma PreviousDropped(t: Table, s: Session)
    requires Inv(t) && s.client in t.byClient && Compatible(t, s.user, s.client, s.hash)
    ensures var prev := t.byClient[s.client];
      WithoutPrevious(t, s).(byClient := Drop(t, {prev}).byClient) == Drop(t, {prev})
      && Drop(t, {prev}).byClient == t.byClient - {s.client}
  {
    hide ListOk, SessionOk, Keep, RemoveFromUser;
    var prev := t.byClient[s.client];
    assert ClientOk(t, s.client);
    var d := Drop(t, {prev});
    OthersUntouched(t, s.user, prev);
    forall c | c in t.byClient && c != s.client ensures t.byClient[c] != prev { assert ClientOk(t, c); }
    assert d.byClient == t.byClient - {s.client};
  }

  /** A session is on no list but its user's. */
  lemma OthersUntouched(t: Table, u: string, h: string)
    requires Inv(t) && h in t.sessions && t.sessions[h].user == u
    ensures Drop(t, {h}).byUser == RemoveFromUser(t.byUser, u, h)
  {
    hide SessionOk, ClientOk, Keep;
    forall v | v in t.byUser && v != u ensures Keep(t.byUser[v], {h}) == t.byUser[v] && t.byUser[v] != [] {
      assert ListOk(t, v);
      KeepAll(t.byUser[v], {h});
    }
  }

  lemma AppendListOk(t: Table, s: Session, u: string)
    requires u in t.byUser ==> ListOk(t, u)
    requires NotLater(t, s.createdAt) && s.hash !in t.sessions && |ListOf(t, s.user)| < MAX_PER_USER && u in Append(t, s).byUser
    ensures ListOk(Append(t, s), u)
  {
    var k := Append(t, s);
    if u != s.user { assert k.byUser[u] == t.byUser[u]; }
  }

  lemma AppendSessionOk(t: Table, s: Session, h: string)
    requires h in t.sessions ==> SessionOk(t, h)
    requires s.hash !in t.sessions && (s.client != "" ==> s.client !in t.byClient) && h in Append(t, s).sessions
    ensures SessionOk(Append(t, s), h)
  {
  }

  lemma AppendKeepsInv(t: Table, s: Session)
    requires Inv(t) && NotLater(t, s.createdAt) && s.hash !in t.sessions && (s.client != "" ==> s.client !in t.byClient)
    requires |t.sessions| < MAX_GLOBAL && |ListOf(t, s.user)| < MAX_PER_USER
    ensures Inv(Append(t, s))
  {
    hide ListOk, SessionOk, NotLater;
    var k := Append(t, s);
    forall u | u in k.byUser ensures ListOk(k, u) { AppendListOk(t, s, u); }
    forall h | h in k.sessions ensures SessionOk(k, h) { AppendSessionOk(t, s, h); }
    forall c | c in k.byClient ensures ClientOk(k, c) { if c != s.client { assert ClientOk(t, c); } }
  }

  /** Under a compatible client the insertion keeps the invariant ... */
  lemma CompatibleKeepsInv(t: Table, s: Session)
    requires Inv(t) && NotLater(t, s.createdAt) && |t.sessions| < MAX_GLOBAL && |ListOf(t, s.user)| < MAX_PER_USER
    requires Compatible(t, s.user, s.client, s.hash)
    ensures Inv(Append(WithoutPrevious(t, s), s))
  {
    hide ListOk, SessionOk, Keep;
    if s.client in t.byClient {
      var prev := t.byClient[s.client];
      assert ClientOk(t, s.client);
      var d := Drop(t, {prev});
      PreviousDropped(t, s);
      DropKeepsInv(t, {prev});
      SmallerMap(t.sessions, {prev});
      KeepShrinks(ListOf(t, s.user), {prev});
      assert Append(WithoutPrevious(t, s), s) == Append(d, s);
      AppendKeepsInv(d, s);
    } else {
      AppendKeepsInv(t, s);
    }
  }

  lemma ForeignBreaks(t: Table, s: Session, bad: string)
    requires Inv(t) && bad in t.sessions && t.sessions[bad].user != s.user
    requires bad == s.hash || (s.client in t.byClient && t.byClient[s.client] == bad)
    ensures !Inv(Append(WithoutPrevious(t, s), s))
  {
    hide ClientOk, Keep, ListOf;
    var k := Append(WithoutPrevious(t, s), s);
    var v := t.sessions[bad].user;
    assert SessionOk(t, bad);
    assert k.byUser[v] == t.byUser[v];
    assert !ListOk(k, v);
  }

  lemma TwiceBreaks(t: Table, s: Session)
    requires Inv(t) && s.hash in t.sessions && t.sessions[s.hash].user == s.user
    requires s.client in t.byClient ==> t.byClient[s.client] != s.hash
    ensures !Inv(Append(WithoutPrevious(t, s), s))
  {
    hide ClientOk;
    var w := WithoutPrevious(t, s);
    var k := Append(w, s);
    assert SessionOk(t, s.hash);
    if s.client in t.byClient { KeepHas(t.byUser[s.user], {t.byClient[s.client]}, s.hash); }
    var hs := ListOf(w, s.user);
    var i :| 0 <= i < |hs| && hs[i] == s.hash;
    assert k.byUser[s.user][i] == k.byUser[s.user][|hs|];
    assert !ListOk(k, s.user);
  }

  /** ... and otherwise it leaves a list that holds a session of somebody else, a missing one, or one twice. */
  lemma IncompatibleBreaksInv(t: Table, s: Session)
    requires Inv(t) && !Compatible(t, s.user, s.client, s.hash)
    ensures !Inv(Append(WithoutPrevious(t, s), s))
  {
    hide Inv, Append, WithoutPrevious;
    if s.client in t.byClient && t.byClient[s.client] in t.sessions && t.sessions[t.byClient[s.client]].user != s.user {
      ForeignBreaks(t, s, t.byClient[s.client]);
    } else if t.sessions[s.hash].user != s.user {
      ForeignBreaks(t, s, s.hash);
    } else {
      TwiceBreaks(t, s);
    }
  }

  /** Exactly when creating a session keeps the three indexes in agreement. */
  lemma CreateKeepsInvIff(t: Table, token: string, s: Session, now: int)
    requires Inv(t) && NotLater(t, now) && s.createdAt == now
    ensures Create(t, token, s, now).1.Some? ==> Inv(Create(t, token, s, now).0)
    ensures Create(t, token, s, now).1.None? ==>
      (Inv(Create(t, token, s, now).0) <==> Compatible(Room(t, s.user, now), s.user, s.client, s.hash))
  {
    hide Inv, Compatible, Room, Append, WithoutPrevious, NotLater, Purged;
    RoomKeepsInv(t, s.user, now);
    if Create(t, token, s, now).1.None? {
      var r := Room(t, s.user, now);
      if Compatible(r, s.user, s.client, s.hash) { CompatibleKeepsInv(r, s); } else { IncompatibleBreaksInv(r, s); }
    }
  }

  /** A client id that changes users leaves its old session dangling on the other user's list. */
  lemma SharedClientBreaks() returns (t: Table, s: Session)
    ensures Inv(t) && NotLater(t, 1) && Create(t, "tok", s, 1).1.None? && !Inv(Create(t, "tok", s, 1).0)
  {
    var first := Session("h1", "alice", "c", "", 0, 0, None);
    t := Table(map["h1" := first], map["alice" := ["h1"]], map["c" := "h1"], 900);
    s := Session("h2", "bob", "c", "", 1, 1, None);
    assert t.sessions.Keys == {"h1"};
    assert Room(t, "bob", 1) == t;
    assert !Compatible(t, "bob", "c", "h2");
    IncompatibleBreaksInv(t, s);
  }

  // ---------------------------------------------------------------- the other operations

  function Touched(t: Table, h: string, now: int): Table {
    if h in t.sessions then t.(sessions := t.sessions[h := t.sessions[h].(lastSeen := now)]) else t
  }

  /** Validation: the session must exist, be fresh, and come from the address it is bound to. */
  function Validate(t: Table, token: string, h: string, ip: string, now: int): Option<Error> {
    if token == "" || h !in t.sessions then Some(NotFound)
    else if IsExpired(t.sessions[h], now, t.ttl) then Some(Expired)
    else if t.sessions[h].ip != "" && ip != "" && t.sessions[h].ip != ip then Some(IpMismatch)
    else None
  }

  function Revoke(t: Table, h: string): Table {
    if h in t.sessions then Drop(t, {h}) else t
  }

  function RevokeClient(t: Table, client: string): Table {
    if client in t.byClient then Drop(t, {t.byClient[client]}) else t
  }

  function RevokeUser(t: Table, u: string): Table {
    Drop(t, set h | h in ListOf(t, u))
  }

  lemma TouchKeepsInv(t: Table, h: string, now: int)
    requires Inv(t)
    ensures Inv(Touched(t, h, now))
  {
    hide ListOk, SessionOk, ClientOk;
    var k := Touched(t, h, now);
    assert k.sessions.Keys == t.sessions.Keys;
    forall u | u in k.byUser ensures ListOk(k, u) { TouchListOk(t, h, now, u); }
    forall g | g in k.sessions ensures SessionOk(k, g) { TouchEntriesOk(t, h, now, g, ""); }
    forall c | c in k.byClient ensures ClientOk(k, c) { TouchEntriesOk(t, h, now, "", c); }
  }

  lemma TouchListOk(t: Table, h: string, now: int, u: string)
    requires u in t.byUser && ListOk(t, u)
    ensures ListOk(Touched(t, h, now), u)
  {
  }

  lemma TouchEntriesOk(t: Table, h: string, now: int, g: string, c: string)
    ensures g in t.sessions && SessionOk(t, g) ==> SessionOk(Touched(t, h, now), g)
    ensures c in t.byClient && ClientOk(t, c) ==> ClientOk(Touched(t, h, now), c)
  {
  }

  /** A session just created is found by its client and validates from its own address until it expires. */
  lemma CreateThenValidate(t: Table, token: string, s: Session, now: int, later: int)
    requires Create(t, token, s, now).1.None? && s.lastSeen == now
    ensures var k := Create(t, token, s, now).0;
      && (s.client != "" ==> s.client in k.byClient && k.byClient[s.client] == s.hash)
      && (Validate(k, token, s.hash, s.ip, later) == None <==>
           later - now <= t.ttl && (s.absoluteExp.Some? ==> later <= s.absoluteExp.value))
  {
  }

  /** After a user's sessions are revoked none of them is left, and nobody else loses one. */
  lemma RevokeUserExact(t: Table, u: string, h: string)
    requires Inv(t)
    ensures h in RevokeUser(t, u).sessions <==> h in t.sessions && t.sessions[h].user != u
  {
    if h in t.sessions { assert SessionOk(t, h); }
    if u in t.byUser { assert ListOk(t, u); }
  }

  // ---------------------------------------------------------------- what a caller sees

  /** Idle for no longer than the limit, and not past its absolute end. */
  predicate Current(s: Session, now: int, ttl: int) {
    now - s.lastSeen <= ttl && (s.absoluteExp.Some? ==> now <= s.absoluteExp.value)
  }

  /** Bound to no address, shown from none, or shown from the one it is bound to. */
  predicate SameAddress(s: Session, ip: string) {
    s.ip == "" || ip == "" || s.ip == ip
  }

  /** A token is accepted if and only if it is there, its session is current, and the address fits; each error has its exact condition. */
  lemma ValidateExact(t: Table, token: string, h: string, ip: string, now: int)
    ensures var r := Validate(t, token, h, ip, now); var known := token != "" && h in t.sessions;
      && (r == None <==> known && Current(t.sessions[h], now, t.ttl) && SameAddress(t.sessions[h], ip))
      && (r == Some(NotFound) <==> !known)
      && (r == Some(Expired) <==> known && !Current(t.sessions[h], now, t.ttl))
      && (r == Some(IpMismatch) <==> known && Current(t.sessions[h], now, t.ttl) && !SameAddress(t.sessions[h], ip))
  {
  }

  ghost function CurrentSet(t: Table, now: int): set<string> {
    set h | h in t.sessions && Current(t.sessions[h], now, t.ttl)
  }

  /** The table is full, so that a creation first drops what has lapsed. */
  predicate Full(t: Table) {
    |t.sessions| >= 10000
  }

  /** Dropped because the table is full and the session has lapsed, because it is the oldest of a user who has five,
      or because the client gets the new one in its place. */
  ghost predicate MakesRoom(t: Table, s: Session, now: int, h: string)
    requires h in t.sessions
  {
    || (Full(t) && !Current(t.sessions[h], now, t.ttl))
    || (OldestOfFive(t, s.user, now) && h == t.byUser[s.user][0])
    || (s.client in t.byClient && t.byClient[s.client] == h)
  }

  /** The user has five sessions, all of which outlast the purge of a full table. */
  ghost predicate OldestOfFive(t: Table, u: string, now: int) {
    && u in t.byUser && |t.byUser[u]| == 5
    && (Full(t) ==> forall h :: h in t.byUser[u] && h in t.sessions ==> Current(t.sessions[h], now, t.ttl))
  }

  lemma {:induction false} KeepSomeGone(hs: seq<string>, dead: set<string>, x: string)
    requires x in hs && x in dead
    ensures |Keep(hs, dead)| < |hs|
  {
    if hs[0] in dead {
      KeepShrinks(hs[1..], dead);
    } else {
      KeepSomeGone(hs[1..], dead, x);
    }
  }

  /** Who has five after the purge had five that all outlast it. */
  lemma EvictedIs(t: Table, u: string, now: int)
    requires Inv(t)
    ensures |ListOf(Purged(t, now), u)| >= MAX_PER_USER <==> OldestOfFive(t, u, now)
    ensures OldestOfFive(t, u, now) ==> ListOf(Purged(t, now), u) == t.byUser[u]
  {
    hide SessionOk, ClientOk;
    if u in t.byUser {
      assert ListOk(t, u);
      var hs, dead := t.byUser[u], ExpiredSet(t, now);
      KeepShrinks(hs, dead);
      if exists x :: x in hs && x in dead {
        var x :| x in hs && x in dead;
        KeepSomeGone(hs, dead, x);
      } else {
        KeepAll(hs, dead);
      }
    }
  }

  /** Creation is refused only for an empty argument or when ten thousand current sessions are left; otherwise the new
      session is there, exactly the sessions that make room are gone, and no other has changed. */
  lemma CreateExact(t: Table, token: string, s: Session, now: int)
    requires Inv(t)
    ensures var (k, r) := Create(t, token, s, now);
      && (r == Some(BadArguments) <==> token == "" || s.user == "")
      && (r == Some(Saturated) <==> token != "" && s.user != "" && |CurrentSet(t, now)| >= 10000)
      && (r == None <==> token != "" && s.user != "" && |CurrentSet(t, now)| < 10000)
      && (r == None ==>
            && s.hash in k.sessions && k.sessions[s.hash] == s
            && (forall h :: h != s.hash ==> (h in k.sessions <==> h in t.sessions && !MakesRoom(t, s, now, h)))
            && (forall h :: h in k.sessions && h != s.hash ==> h in t.sessions && k.sessions[h] == t.sessions[h])
            && (s.client != "" ==> s.client in k.byClient && k.byClient[s.client] == s.hash)
            && s.user in k.byUser && k.byUser[s.user] != [] && k.byUser[s.user][|k.byUser[s.user]| - 1] == s.hash)
  {
    hide Inv, Room, Purged, RemoveFromUser, OldestOfFive, Current;
    PurgedSize(t, now);
    RoomClients(t, s.user, now);
    if Create(t, token, s, now).1.None? {
      var k, q := Create(t, token, s, now).0, Room(t, s.user, now);
      forall h | h != s.hash ensures h in k.sessions <==> h in t.sessions && !MakesRoom(t, s, now, h) { RoomHas(t, s.user, now, h); }
      forall h | h in k.sessions && h != s.hash ensures h in t.sessions && k.sessions[h] == t.sessions[h] { RoomHas(t, s.user, now, h); }
    }
  }

  /** Whether the session survives making room, and that it is then as it was. */
  ghost predicate RoomFor(t: Table, u: string, now: int, h: string) {
    var q := Room(t, u, now);
    && (h in q.sessions <==>
          h in t.sessions && !(Full(t) && !Current(t.sessions[h], now, t.ttl)) && !(OldestOfFive(t, u, now) && h == t.byUser[u][0]))
    && (h in q.sessions ==> q.sessions[h] == t.sessions[h])
  }

  lemma RoomHas(t: Table, u: string, now: int, h: string)
    requires Inv(t)
    ensures RoomFor(t, u, now, h)
  {
    hide Inv, Keep, OldestOfFive;
    EvictedIs(t, u, now);
  }

  lemma RoomClients(t: Table, u: string, now: int)
    ensures var q := Room(t, u, now);
      && (forall c :: c in q.byClient ==> c in t.byClient && q.byClient[c] == t.byClient[c])
      && (forall c :: c in t.byClient && t.byClient[c] in q.sessions ==> c in q.byClient)
  {
    hide Keep;
  }

  lemma PurgedSize(t: Table, now: int)
    requires Inv(t)
    ensures |Purged(t, now).sessions| >= MAX_GLOBAL <==> |CurrentSet(t, now)| >= 10000
  {
    var cur := CurrentSet(t, now);
    SubsetSize(cur, t.sessions.Keys);
    var k := t.sessions - ExpiredSet(t, now);
    assert k.Keys == cur;
    assert |k| == |k.Keys| && |t.sessions| == |t.sessions.Keys|;
  }

  /** A sweep leaves exactly the current sessions, each as it was. */
  lemma SweepExact(t: Table, now: int)
    ensures var k := Drop(t, ExpiredSet(t, now));
      && (forall h :: h in k.sessions <==> h in t.sessions && Current(t.sessions[h], now, t.ttl))
      && (forall h :: h in k.sessions ==> k.sessions[h] == t.sessions[h])
  {
    hide Keep;
  }

  /** Revoking a token takes exactly its session, revoking a client exactly that client's. */
  lemma RevokeExact(t: Table, h: string, client: string, g: string)
    requires Inv(t)
    ensures g in Revoke(t, h).sessions <==> g in t.sessions && g != h
    ensures g in RevokeClient(t, client).sessions <==> g in t.sessions && (client == "" || t.sessions[g].client != client)
    ensures g in Revoke(t, h).sessions ==> Revoke(t, h).sessions[g] == t.sessions[g]
    ensures g in RevokeClient(t, client).sessions ==> RevokeClient(t, client).sessions[g] == t.sessions[g]
  {
    hide ListOk, Keep;
    if g in t.sessions { assert SessionOk(t, g); }
    if client in t.byClient {
      assert ClientOk(t, client);
      assert SessionOk(t, t.byClient[client]);
    }
  }

  // ---------------------------------------------------------------- runs

  datatype Op =
    | DoCreate(token: string, s: Session, now: int)
    | DoTouch(h: string, now: int)
    | DoRevoke(h: string)
    | DoRevokeClient(client: string)
    | DoRevokeUser(u: string)
    | DoSweep(now: int)

  function Apply(t: Table, op: Op): Table {
    match op
    case DoCreate(token, s, now) => Create(t, token, s, now).0
    case DoTouch(h, now) => Touched(t, h, now)
    case DoRevoke(h) => Revoke(t, h)
    case DoRevokeClient(client) => RevokeClient(t, client)
    case DoRevokeUser(u) => RevokeUser(t, u)
    case DoSweep(now) => Drop(t, ExpiredSet(t, now))
  }

  /** Creations carry the clock, which does not go back, and meet the exact condition. */
  ghost predicate Allowed(t: Table, op: Op, clock: int) {
    op.DoCreate? ==>
      && clock <= op.now == op.s.createdAt
      && (Create(t, op.token, op.s, op.now).1.None? ==> Compatible(Room(t, op.s.user, op.now), op.s.user, op.s.client, op.s.hash))
  }

  function Later(op: Op, clock: int): int {
    if op.DoCreate? then op.now else clock
  }

  ghost predicate AllowedRun(t: Table, ops: seq<Op>, clock: int)
    decreases |ops|
  {
    ops == [] || (Allowed(t, ops[0], clock) && AllowedRun(Apply(t, ops[0]), ops[1..], Later(ops[0], clock)))
  }

  function ApplyAll(t: Table, ops: seq<Op>): Table
    decreases |ops|
  {
    if ops == [] then t else ApplyAll(Apply(t, ops[0]), ops[1..])
  }

  lemma CreateNotLater(t: Table, token: string, s: Session, now: int)
    requires NotLater(t, now) && s.createdAt == now
    ensures NotLater(Create(t, token, s, now).0, now)
  {
    hide Keep;
  }

  lemma OpKeepsInv(t: Table, op: Op, clock: int)
    requires Inv(t) && NotLater(t, clock) && Allowed(t, op, clock)
    ensures Inv(Apply(t, op)) && NotLater(Apply(t, op), Later(op, clock))
  {
    hide Inv, Create, Keep, Compatible, Room;
    match op
    case DoCreate(token, s, now) =>
      assert NotLater(t, now);
      CreateKeepsInvIff(t, token, s, now);
      CreateNotLater(t, token, s, now);
    case DoTouch(h, now) => TouchKeepsInv(t, h, now);
    case DoRevoke(h) => DropKeepsInv(t, {h});
    case DoRevokeClient(client) => if client in t.byClient { DropKeepsInv(t, {t.byClient[client]}); }
    case DoRevokeUser(u) => DropKeepsInv(t, set h | h in ListOf(t, u));
    case DoSweep(now) => DropKeepsInv(t, ExpiredSet(t, now));
  }

  /** Every run keeps the three indexes in exact agreement and within both limits. */
  lemma {:induction false} RunKeepsInv(t: Table, ops: seq<Op>, clock: int)
    requires Inv(t) && NotLater(t, clock) && AllowedRun(t, ops, clock)
    ensures Inv(ApplyAll(t, ops))
    decreases |ops|
  {
    hide Inv, NotLater, Allowed, Apply;
    if ops == [] {
    } else {
      OpKeepsInv(t, ops[0], clock);
      RunKeepsInv(Apply(t, ops[0]), ops[1..], Later(ops[0], clock));
    }
  }
}

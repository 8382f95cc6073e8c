/**
The durable record of the metaserver: node, user and share documents, and the
targeted writes that change them. Liveness (heartbeats, status) and display names
are best-effort fields that play no part in routing and are not recorded here.
*/
module MetaStore {
  import opened SharePath

  /** A node document, keyed by node id. */
  datatype NodeRec = NodeRec(num: nat, address: string)

  /** (grantee, owner, path) is the key of a share document. */
  datatype Grant = Grant(grantee: string, owner: string, path: string)

  datatype Store = Store(
    nodes: map<string, NodeRec>,
    users: map<string, string>,
    shares: set<Grant>,
    next: nat)

  datatype Write =
    | Upsert(node: string, address: string)
    | RemoveNode(node: string)
    | Rename(old_: string, new_: string)
    | MoveUsers(old_: string, new_: string)
    | InsertNode(node: string, rec: NodeRec)
    | Assign(who: set<string>, home: string)
    | RemoveUsers(who: set<string>)
    | AddShares(grants: set<Grant>)
    | RemoveShare(grant: Grant)
    | RemoveSharesInvolving(who: set<string>)
    | RemoveSharesByOwner(who: set<string>)

  function Canonical(g: Grant): Grant {
    g.(path := Normalize(g.path))
  }

  function Moved(users: map<string, string>, from: string, to: string): map<string, string> {
    map u | u in users :: if users[u] == from then to else users[u]
  }

  function Inserted(nodes: map<string, NodeRec>, node: string, rec: NodeRec): map<string, NodeRec> {
    if node in nodes then nodes else nodes[node := rec]
  }

  /** One write. A rename keeps the numeric id and moves the users; an absent node is no error. */
  function Apply(s: Store, w: Write): Store {
    match w
    case Upsert(node, address) =>
      if node in s.nodes then s.(nodes := s.nodes[node := NodeRec(s.nodes[node].num, address)])
      else s.(nodes := s.nodes[node := NodeRec(s.next, address)], next := s.next + 1)
    case RemoveNode(node) => s.(nodes := s.nodes - {node})
    case Rename(from, to) =>
      if from == to || from !in s.nodes then s
      else s.(users := Moved(s.users, from, to),
              nodes := Inserted(s.nodes - {from}, to, s.nodes[from]))
    case MoveUsers(from, to) => s.(users := Moved(s.users, from, to))
    case InsertNode(node, rec) => s.(nodes := Inserted(s.nodes, node, rec))
    case Assign(who, home) => s.(users := s.users + map u | u in who :: home)
    case RemoveUsers(who) => s.(users := s.users - who)
    case AddShares(grants) => s.(shares := s.shares + set g | g in grants :: Canonical(g))
    case RemoveShare(g) => s.(shares := s.shares - {Canonical(g)})
    case RemoveSharesInvolving(who) =>
      s.(shares := set g | g in s.shares && g.grantee !in who && g.owner !in who)
    case RemoveSharesByOwner(who) => s.(shares := set g | g in s.shares && g.owner !in who)
  }

  function ApplyAll(s: Store, ws: seq<Write>): Store
    decreases |ws|
  {
    if ws == [] then s else ApplyAll(Apply(s, ws[0]), ws[1..])
  }

  lemma {:induction false} ApplyAllConcat(s: Store, a: seq<Write>, b: seq<Write>)
    ensures ApplyAll(s, a + b) == ApplyAll(ApplyAll(s, a), b)
    decreases |a|
  {
    if a == [] {
      assert a + b == b;
    } else {
      assert (a + b)[1..] == a[1..] + b;
      ApplyAllConcat(Apply(s, a[0]), a[1..], b);
    }
  }

  /** Numeric ids are distinct and below the counter; ids are non-empty. */
  ghost predicate StoreInv(s: Store) {
    && (forall a :: a in s.nodes ==> a != "" && s.nodes[a].num < s.next)
    && (forall a, b :: a in s.nodes && b in s.nodes && s.nodes[a].num == s.nodes[b].num ==> a == b)
  }

  /** The three document writes a rename consists of, with the record read at the start. */
  function Expand(s: Store, from: string, to: string): seq<Write> {
    if from == to || from !in s.nodes then []
    else [MoveUsers(from, to), RemoveNode(from), InsertNode(to, s.nodes[from])]
  }

  /** The three writes together are the rename. */
  lemma ExpandIsRename(s: Store, from: string, to: string)
    ensures ApplyAll(s, Expand(s, from, to)) == Apply(s, Rename(from, to))
  {
    if from != to && from in s.nodes {
      var ws := Expand(s, from, to);
      var s1 := Apply(s, ws[0]);
      var s2 := Apply(s1, ws[1]);
      assert ws[1..] == [ws[1], ws[2]];
      assert ws[1..][1..] == [ws[2]];
      assert [ws[2]][1..] == [];
      assert ApplyAll(s, ws) == ApplyAll(s1, [ws[1], ws[2]]) == ApplyAll(s2, [ws[2]]) == Apply(s2, ws[2]);
    }
  }

  /** Every state on the way through `ws` is well formed. */
  ghost predicate Safe(s: Store, ws: seq<Write>)
    decreases |ws|
  {
    StoreInv(s) && (ws == [] || Safe(Apply(s, ws[0]), ws[1..]))
  }

  /** Writes that keep the store well formed wherever they are applied. */
  predicate Harmless(w: Write) {
    match w
    case Upsert(node, _) => node != ""
    case Rename(_, to) => to != ""
    case InsertNode(_, _) => false
    case _ => true
  }

  lemma ApplyKeepsInv(s: Store, w: Write)
    requires StoreInv(s) && Harmless(w)
    ensures StoreInv(Apply(s, w))
  {
  }

  lemma {:induction false} HarmlessSafe(s: Store, ws: seq<Write>)
    requires StoreInv(s) && forall w :: w in ws ==> Harmless(w)
    ensures Safe(s, ws)
    decreases |ws|
  {
    if ws == [] {
    } else {
      ApplyKeepsInv(s, ws[0]);
      HarmlessSafe(Apply(s, ws[0]), ws[1..]);
    }
  }

  /** Moving one more user by hand is absorbed by the move that is still to come. */
  lemma MoveOneAbsorbed(s: Store, u: string, from: string, to: string)
    requires u in s.users && s.users[u] == from
    ensures Apply(s.(users := s.users[u := to]), MoveUsers(from, to)) == Apply(s, MoveUsers(from, to))
  {
  }
}

/**
Relative paths as sequences of segments, and the re-keying of path maps that a
subtree move performs on the persistent index and on the disk.
*/
module Paths {

  type Name = string
  type Path = seq<Name>

  /** `p` is `base` or lies inside the directory `base`. */
  predicate Under(p: Path, base: Path) {
    base <= p
  }

  /** Where `p` ends up when the subtree at `src` is moved to `dst`. */
  function Rebase(p: Path, src: Path, dst: Path): Path {
    if Under(p, src) then dst + p[|src|..] else p
  }

  /** No key of `m` lies at or below `base`. */
  ghost predicate Vacant<V>(m: map<Path, V>, base: Path) {
    forall p :: p in m ==> !Under(p, base)
  }

  lemma RebaseInverse(p: Path, src: Path, dst: Path)
    requires Under(p, src)
    ensures Under(Rebase(p, src, dst), dst)
    ensures Rebase(Rebase(p, src, dst), dst, src) == p
  {
    assert src + p[|src|..] == p;
  }

  /** The map in which every key at or below `src` is re-keyed below `dst`; a
      moved entry wins over an entry already at its destination. */
  function RenamePrefix<V>(m: map<Path, V>, src: Path, dst: Path): map<Path, V> {
    map q | q in (set p | p in m :: Rebase(p, src, dst)) ::
      if Under(q, dst) && src + q[|dst|..] in m then m[src + q[|dst|..]]
      else
        assert q in m by {
          var p :| p in m && Rebase(p, src, dst) == q;
          if Under(p, src) { RebaseInverse(p, src, dst); }
        }
        m[q]
  }

  /** Renaming to a vacant place keeps every entry under its rebased key ... */
  lemma RenameKeeps<V>(m: map<Path, V>, src: Path, dst: Path, p: Path)
    requires Vacant(m, dst) && p in m
    ensures Rebase(p, src, dst) in RenamePrefix(m, src, dst)
    ensures RenamePrefix(m, src, dst)[Rebase(p, src, dst)] == m[p]
  {
    if Under(p, src) { RebaseInverse(p, src, dst); }
  }

  /** ... and adds nothing else. */
  lemma RenameOrigin<V>(m: map<Path, V>, src: Path, dst: Path, q: Path) returns (p: Path)
    requires Vacant(m, dst) && q in RenamePrefix(m, src, dst)
    ensures p in m && Rebase(p, src, dst) == q && RenamePrefix(m, src, dst)[q] == m[p]
  {
    p :| p in m && Rebase(p, src, dst) == q;
    RenameKeeps(m, src, dst, p);
  }

  lemma RenameValues<V>(m: map<Path, V>, src: Path, dst: Path, q: Path) returns (p: Path)
    requires q in RenamePrefix(m, src, dst)
    ensures p in m && RenamePrefix(m, src, dst)[q] == m[p]
  {
    p := if Under(q, dst) && src + q[|dst|..] in m then src + q[|dst|..] else q;
    var p0 :| p0 in m && Rebase(p0, src, dst) == q;
    if Under(p0, src) { RebaseInverse(p0, src, dst); }
  }

  /** A subtree moved elsewhere leaves its old place vacant. */
  lemma RenameVacates<V>(m: map<Path, V>, src: Path, dst: Path)
    requires Vacant(m, dst) && !Under(dst, src)
    ensures Vacant(RenamePrefix(m, src, dst), src)
  {
    forall q | q in RenamePrefix(m, src, dst) ensures !Under(q, src) {
      var p := RenameOrigin(m, src, dst, q);
      if Under(p, src) && Under(q, src) { BothUnder(q, dst, src); }
    }
  }

  lemma RebaseBack(p: Path, src: Path, dst: Path)
    requires !Under(p, dst)
    ensures Rebase(Rebase(p, src, dst), dst, src) == p
  {
    if Under(p, src) { RebaseInverse(p, src, dst); }
  }

  /** Renaming there and back is the identity when the destination is vacant. */
  lemma RenameRoundTrip<V>(m: map<Path, V>, src: Path, dst: Path)
    requires Vacant(m, dst) && !Under(dst, src)
    ensures RenamePrefix(RenamePrefix(m, src, dst), dst, src) == m
  {
    var m1 := RenamePrefix(m, src, dst);
    var m2 := RenamePrefix(m1, dst, src);
    RenameVacates(m, src, dst);
    forall p | p in m ensures p in m2 && m2[p] == m[p] { RenameBackKeeps(m, src, dst, p); }
    forall q | q in m2 ensures q in m {
      RenameBackOrigin(m, src, dst, q);
    }
  }

  lemma RenameBackKeeps<V>(m: map<Path, V>, src: Path, dst: Path, p: Path)
    requires Vacant(m, dst) && Vacant(RenamePrefix(m, src, dst), src) && p in m
    ensures var m2 := RenamePrefix(RenamePrefix(m, src, dst), dst, src); p in m2 && m2[p] == m[p]
  {
    RenameKeeps(m, src, dst, p);
    RenameKeeps(RenamePrefix(m, src, dst), dst, src, Rebase(p, src, dst));
    RebaseBack(p, src, dst);
  }

  lemma RenameBackOrigin<V>(m: map<Path, V>, src: Path, dst: Path, q: Path)
    requires Vacant(m, dst) && Vacant(RenamePrefix(m, src, dst), src)
    requires q in RenamePrefix(RenamePrefix(m, src, dst), dst, src)
    ensures q in m
  {
    var q1 := RenameOrigin(RenamePrefix(m, src, dst), dst, src, q);
    var p := RenameOrigin(m, src, dst, q1);
    RebaseBack(p, src, dst);
  }

  lemma BothUnder(q: Path, a: Path, b: Path)
    requires Under(q, a) && Under(q, b)
    ensures Under(a, b) || Under(b, a)
  {
  }
}

/**
The canonical spelling of a share path: forward slashes, no empty and no "." segments.
*/
module SharePath {

  /** Backslashes become slashes. */
  function Forward(p: string): string {
    if p == "" then "" else [if p[0] == '\\' then '/' else p[0]] + Forward(p[1..])
  }

  /** The segments between slashes; always at least one. */
  function Split(p: string): (r: seq<string>)
    ensures |r| >= 1
    ensures forall s :: s in r ==> '/' !in s
  {
    if p == "" then [""]
    else
      var rest := Split(p[1..]);
      if p[0] == '/' then [""] + rest else [[p[0]] + rest[0]] + rest[1..]
  }

  function Join(segments: seq<string>): string {
    if segments == [] then ""
    else if |segments| == 1 then segments[0]
    else segments[0] + "/" + Join(segments[1..])
  }

  predicate Counts(s: string) {
    s != "" && s != "."
  }

  function Kept(segments: seq<string>): (r: seq<string>)
    ensures forall s :: s in r ==> s in segments && Counts(s)
  {
    if segments == [] then []
    else if Counts(segments[0]) then [segments[0]] + Kept(segments[1..])
    else Kept(segments[1..])
  }

  /** The segments that matter. */
  function Segments(p: string): seq<string> {
    Kept(Split(Forward(p)))
  }

  function Normalize(p: string): string {
    Join(Segments(p))
  }

  /** Segments without slashes, backslashes, empty or "." entries. */
  ghost predicate Clean(segments: seq<string>) {
    forall s :: s in segments ==> '/' !in s && '\\' !in s && Counts(s)
  }

  lemma {:induction false} ForwardChars(p: string)
    ensures '\\' !in Forward(p)
    ensures '\\' !in p ==> Forward(p) == p
  {
    if p == "" {
    } else {
      ForwardChars(p[1..]);
      assert p == [p[0]] + p[1..];
    }
  }

  lemma {:induction false} SplitChars(p: string, c: char)
    requires c !in p
    ensures forall s :: s in Split(p) ==> c !in s
  {
    if p == "" {
    } else {
      SplitChars(p[1..], c);
      var rest := Split(p[1..]);
      assert rest[0] in rest;
      assert forall s :: s in rest[1..] ==> s in rest;
    }
  }

  lemma SegmentsClean(p: string)
    ensures Clean(Segments(p))
  {
    ForwardChars(p);
    SplitChars(Forward(p), '\\');
  }

  lemma {:induction false} SplitSegment(s: string, rest: string)
    requires '/' !in s
    ensures Split(s + "/" + rest) == [s] + Split(rest)
  {
    if s == "" {
      assert s + "/" + rest == "/" + rest;
      assert ("/" + rest)[1..] == rest;
    } else {
      var p := s + "/" + rest;
      assert p[1..] == s[1..] + "/" + rest;
      SplitSegment(s[1..], rest);
      assert [s[0]] + s[1..] == s;
      assert ([s[1..]] + Split(rest))[1..] == Split(rest);
    }
  }

  lemma {:induction false} SplitWord(s: string)
    requires '/' !in s
    ensures Split(s) == [s]
  {
    if s == "" {
    } else {
      SplitWord(s[1..]);
      assert [s[0]] + s[1..] == s;
    }
  }

  /** Splitting undoes joining. */
  lemma {:induction false} SplitJoin(segments: seq<string>)
    requires segments != [] && Clean(segments)
    ensures Split(Join(segments)) == segments
  {
    if |segments| == 1 {
      SplitWord(segments[0]);
    } else {
      assert Clean(segments[1..]);
      SplitSegment(segments[0], Join(segments[1..]));
      SplitJoin(segments[1..]);
      assert segments == [segments[0]] + segments[1..];
    }
  }

  lemma {:induction false} KeptClean(segments: seq<string>)
    requires Clean(segments)
    ensures Kept(segments) == segments
  {
    if segments == [] {
    } else {
      assert Clean(segments[1..]);
      KeptClean(segments[1..]);
      assert segments == [segments[0]] + segments[1..];
    }
  }

  lemma {:induction false} JoinForward(segments: seq<string>)
    requires Clean(segments)
    ensures '\\' !in Join(segments)
  {
    if |segments| <= 1 {
    } else {
      assert Clean(segments[1..]);
      JoinForward(segments[1..]);
    }
  }

  /** The segments of a joined clean list are that list. */
  lemma SegmentsOfJoin(segments: seq<string>)
    requires Clean(segments)
    ensures Segments(Join(segments)) == segments
  {
    JoinForward(segments);
    ForwardChars(Join(segments));
    if segments != [] {
      SplitJoin(segments);
      KeptClean(segments);
    }
  }

  /** Normalising twice changes nothing more. */
  lemma NormalizeIdempotent(p: string)
    ensures Normalize(Normalize(p)) == Normalize(p)
  {
    SegmentsClean(p);
    SegmentsOfJoin(Segments(p));
  }

  /** Two spellings have the same normal form exactly when they keep the same segments. */
  lemma NormalizeIff(p: string, q: string)
    ensures Normalize(p) == Normalize(q) <==> Segments(p) == Segments(q)
  {
    SegmentsClean(p);
    SegmentsClean(q);
    SegmentsOfJoin(Segments(p));
    SegmentsOfJoin(Segments(q));
  }

  // ---------------------------------------------------------------- the normal form, told by the string

  lemma {:induction false} ForwardConcat(a: string, b: string)
    ensures Forward(a + b) == Forward(a) + Forward(b)
  {
    if a == "" {
      assert a + b == b;
    } else {
      assert (a + b)[1..] == a[1..] + b;
      ForwardConcat(a[1..], b);
    }
  }

  lemma {:induction false} SplitConcat(a: string, b: string)
    ensures Split(a + "/" + b) == Split(a) + Split(b)
  {
    if a == "" {
      assert a + "/" + b == "/" + b && ("/" + b)[1..] == b;
    } else {
      SplitConcat(a[1..], b);
      SplitStep(a, b, Split(a[1..]), Split(b));
    }
  }

  lemma SplitStep(a: string, b: string, rest: seq<string>, more: seq<string>)
    requires a != "" && rest == Split(a[1..]) && rest + more == Split(a[1..] + "/" + b)
    ensures Split(a + "/" + b) == Split(a) + more
  {
    var p := a + "/" + b;
    assert p[1..] == a[1..] + "/" + b;
    assert p[0] == a[0];
    if a[0] == '/' {
      assert [""] + (rest + more) == ([""] + rest) + more;
    } else {
      assert (rest + more)[1..] == rest[1..] + more;
      assert (rest + more)[0] == rest[0];
    }
  }

  lemma {:induction false} KeptConcat(a: seq<string>, b: seq<string>)
    ensures Kept(a + b) == Kept(a) + Kept(b)
  {
    if a == [] {
      assert a + b == b;
    } else {
      assert (a + b)[1..] == a[1..] + b;
      KeptConcat(a[1..], b);
    }
  }

  /** Two normal forms, one below the other. */
  function Below(a: string, b: string): string {
    if a == "" then b else if b == "" then a else a + "/" + b
  }

  lemma JoinEmpty(a: seq<string>)
    requires Clean(a)
    ensures Join(a) == "" <==> a == []
  {
    if a != [] { assert a[0] in a; }
  }

  lemma {:induction false} JoinConcat(a: seq<string>, b: seq<string>)
    requires Clean(a) && Clean(b)
    ensures Join(a + b) == Below(Join(a), Join(b))
  {
    JoinEmpty(a);
    JoinEmpty(b);
    if a == [] {
      assert a + b == b;
    } else if b == [] {
      assert a + b == a;
    } else if |a| == 1 {
      assert (a + b)[1..] == b;
    } else {
      assert (a + b)[1..] == a[1..] + b;
      assert Clean(a[1..]);
      JoinEmpty(a[1..]);
      JoinConcat(a[1..], b);
      assert a[0] + "/" + (Join(a[1..]) + "/" + Join(b)) == (a[0] + "/" + Join(a[1..])) + "/" + Join(b);
    }
  }

  /** A slash or a backslash puts one normal form below another. */
  lemma NormalizeConcat(a: string, sep: char, b: string)
    requires sep == '/' || sep == '\\'
    ensures Normalize(a + [sep] + b) == Below(Normalize(a), Normalize(b))
  {
    ForwardConcat(a, [sep] + b);
    ForwardConcat([sep], b);
    assert a + ([sep] + b) == a + [sep] + b;
    assert Forward([sep]) == "/" by { assert [sep][1..] == ""; }
    assert Forward(a + [sep] + b) == Forward(a) + "/" + Forward(b);
    SplitConcat(Forward(a), Forward(b));
    KeptConcat(Split(Forward(a)), Split(Forward(b)));
    SegmentsClean(a);
    SegmentsClean(b);
    JoinConcat(Segments(a), Segments(b));
  }

  /** A single segment is its own normal form, unless it is empty or a dot. */
  lemma NormalizeSegment(s: string)
    requires '/' !in s && '\\' !in s
    ensures Normalize(s) == if s == "" || s == "." then "" else s
  {
    ForwardChars(s);
    SplitWord(s);
    assert [s][1..] == [];
    assert Kept([s]) == (if Counts(s) then [s] else []);
  }

  lemma {:induction false} KeptSnoc(segments: seq<string>, s: string)
    ensures Kept(segments + [s]) == Kept(segments) + (if Counts(s) then [s] else [])
  {
    if segments == [] {
      assert segments + [s] == [s];
    } else {
      assert (segments + [s])[1..] == segments[1..] + [s];
      KeptSnoc(segments[1..], s);
    }
  }

  /** The loop over segments. */
  method NormalizeSharePath(p: string) returns (r: string)
    ensures r == Normalize(p)
    ensures Normalize(r) == r
  {
    var segments := Split(Forward(p));
    var kept: seq<string> := [];
    var k := 0;
    while k < |segments|
      invariant 0 <= k <= |segments|
      invariant kept == Kept(segments[..k])
    {
      KeptSnoc(segments[..k], segments[k]);
      assert segments[..k + 1] == segments[..k] + [segments[k]];
      if segments[k] != "" && segments[k] != "." {
        kept := kept + [segments[k]];
      }
      k := k + 1;
    }
    assert segments[..|segments|] == segments;
    NormalizeIdempotent(p);
    r := Join(kept);
  }
}

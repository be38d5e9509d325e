/**
 Path resolution: a tokeniser that writes NULs into the buffer it scans, folding a one-step
 resolver over the components it cuts out.
 */
module PathWalk {
  import opened Capabilities
  import opened TaggedMemory

  /** Resolves one name from a directory; None is an error. The state of the store is fixed throughout. */
  type Resolver = (capref, string) -> Option<capref>

  /** The walk ignores the error of a failed step and stays where it was. */
  function Follow(step: Resolver, root: capref, name: string): capref {
    match step(root, name)
    case Some(r) => r
    case None => root
  }

  function Walk(step: Resolver, root: capref, names: seq<string>): capref
    decreases |names|
  {
    if names == [] then root else Walk(step, Follow(step, root, names[0]), names[1..])
  }

  /** The first slash of s at or behind an index, or the end of s. */
  function NextSlash(s: string, from: nat): (to: nat)
    requires from <= |s|
    ensures from <= to <= |s|
    ensures forall k | from <= k < to :: s[k] != '/'
    ensures to < |s| ==> s[to] == '/'
    decreases |s| - from
  {
    if from == |s| || s[from] == '/' then from else NextSlash(s, from + 1)
  }

  /** The nonempty components of a path, from an index on. */
  function ComponentsFrom(s: string, from: nat): (names: seq<string>)
    requires from <= |s|
    decreases |s| - from
  {
    if from == |s| then []
    else if s[from] == '/' then ComponentsFrom(s, from + 1)
    else [s[from..NextSlash(s, from)]] + ComponentsFrom(s, NextSlash(s, from))
  }

  function Components(path: string): seq<string> {
    ComponentsFrom(path, 0)
  }

  /** The path "/" is handed to the resolver as it is; every other path is walked. */
  function Resolve(step: Resolver, root: capref, path: string): Option<capref> {
    if path == "/" then step(root, path) else Some(Walk(step, root, Components(path)))
  }

  /** The resolver leads from one place to the other, or fails, and they are the same. */
  predicate GoesTo(step: Resolver, here: capref, name: string, there: capref) {
    match step(here, name)
    case Some(r) => there == r
    case None => there == here
  }

  /** The places a walk passes, one more than there are names. */
  predicate IsTrail(step: Resolver, names: seq<string>, trail: seq<capref>) {
    |trail| == |names| + 1 && forall i | 0 <= i < |names| :: GoesTo(step, trail[i], names[i], trail[i + 1])
  }

  lemma {:induction false} WalkEndsTrail(step: Resolver, names: seq<string>, trail: seq<capref>)
    requires IsTrail(step, names, trail)
    ensures Walk(step, trail[0], names) == trail[|names|]
    decreases |names|
  {
    if names == [] {
    } else {
      assert GoesTo(step, trail[0], names[0], trail[1]);
      forall i | 0 <= i < |names[1..]|
        ensures GoesTo(step, trail[1..][i], names[1..][i], trail[1..][i + 1])
      {
        assert GoesTo(step, trail[i + 1], names[i + 1], trail[i + 2]);
      }
      WalkEndsTrail(step, names[1..], trail[1..]);
    }
  }

  /** A path leads to the end of its trail, and "/" to what the resolver makes of it. */
  lemma ResolveEndsTrail(step: Resolver, root: capref, path: string, trail: seq<capref>)
    requires path != "/" ==> IsTrail(step, Components(path), trail) && trail[0] == root
    ensures Resolve(step, root, path) == if path == "/" then step(root, "/") else Some(trail[|trail| - 1])
  {
    if path != "/" {
      WalkEndsTrail(step, Components(path), trail);
    }
  }

  // --- Components are the maximal slash-free segments of the path

  /** s[i..j] is a nonempty segment without slashes that cannot be extended on either side. */
  predicate IsSegment(s: string, i: nat, j: nat) {
    && i < j <= |s|
    && (forall k | i <= k < j :: s[k] != '/')
    && (i == 0 || s[i - 1] == '/')
    && (j == |s| || s[j] == '/')
  }

  /** Where the components of s[from..] start and end in s. */
  function Spans(s: string, from: nat): (spans: seq<(nat, nat)>)
    requires from <= |s|
    decreases |s| - from
  {
    if from == |s| then []
    else if s[from] == '/' then Spans(s, from + 1)
    else [(from, NextSlash(s, from))] + Spans(s, NextSlash(s, from))
  }

  /** The scan is between components: at the start, behind or before a slash, or at the end. */
  predicate AtBoundary(s: string, from: nat)
    requires from <= |s|
  {
    from == 0 || s[from - 1] == '/' || from == |s| || s[from] == '/'
  }

  /** A span of the scan from an index: a maximal segment, and the component cut out there. */
  predicate IsCut(s: string, from: nat, span: (nat, nat), name: string) {
    from <= span.0 && IsSegment(s, span.0, span.1) && name == s[span.0..span.1]
  }

  lemma {:induction false} SpansAreCuts(s: string, from: nat)
    requires from <= |s| && AtBoundary(s, from)
    ensures |Spans(s, from)| == |ComponentsFrom(s, from)|
    ensures forall k | 0 <= k < |Spans(s, from)| :: IsCut(s, from, Spans(s, from)[k], ComponentsFrom(s, from)[k])
    decreases |s| - from
  {
    if from == |s| {
    } else if s[from] == '/' {
      SpansAreCuts(s, from + 1);
      forall k | 0 <= k < |Spans(s, from)|
        ensures IsCut(s, from, Spans(s, from)[k], ComponentsFrom(s, from)[k])
      {
        assert IsCut(s, from + 1, Spans(s, from + 1)[k], ComponentsFrom(s, from + 1)[k]);
      }
    } else {
      var to := NextSlash(s, from);
      SpansAreCuts(s, to);
      forall k | 0 <= k < |Spans(s, from)|
        ensures IsCut(s, from, Spans(s, from)[k], ComponentsFrom(s, from)[k])
      {
        if k > 0 {
          assert IsCut(s, to, Spans(s, to)[k - 1], ComponentsFrom(s, to)[k - 1]);
        }
      }
    }
  }

  lemma {:induction false} SpansAreInOrder(s: string, from: nat)
    requires from <= |s| && AtBoundary(s, from)
    ensures forall k, l | 0 <= k < l < |Spans(s, from)| :: Spans(s, from)[k].1 <= Spans(s, from)[l].0
    decreases |s| - from
  {
    if from == |s| {
    } else if s[from] == '/' {
      SpansAreInOrder(s, from + 1);
    } else {
      SpansAreInOrder(s, NextSlash(s, from));
      SpansAreCuts(s, NextSlash(s, from));
    }
  }

  lemma {:induction false} SegmentsAreSpans(s: string, from: nat, i: nat, j: nat)
    requires from <= i && IsSegment(s, i, j) && AtBoundary(s, from)
    ensures (i, j) in Spans(s, from)
    decreases |s| - from
  {
    if s[from] == '/' {
      SegmentsAreSpans(s, from + 1, i, j);
    } else if i == from {
    } else {
      SegmentsAreSpans(s, NextSlash(s, from), i, j);
    }
  }

  /**
   The components of a path are exactly its maximal slash-free segments, each once and in
   order: `spans` are their places.
   */
  lemma ComponentsAreSegments(path: string)
    ensures var spans := Spans(path, 0);
            && |spans| == |Components(path)|
            && (forall k | 0 <= k < |spans| :: IsCut(path, 0, spans[k], Components(path)[k]))
            && (forall k, l | 0 <= k < l < |spans| :: spans[k].1 <= spans[l].0)
            && (forall i: nat, j: nat | IsSegment(path, i, j) :: (i, j) in spans)
  {
    SpansAreCuts(path, 0);
    SpansAreInOrder(path, 0);
    forall i: nat, j: nat | IsSegment(path, i, j)
      ensures (i, j) in Spans(path, 0)
    {
      SegmentsAreSpans(path, 0, i, j);
    }
  }

  // --- Composition

  lemma NextSlashIs(s: string, from: nat, to: nat)
    requires from <= to <= |s|
    requires forall k | from <= k < to :: s[k] != '/'
    requires to < |s| ==> s[to] == '/'
    ensures NextSlash(s, from) == to
  {
  }

  /** The scan of a path from an index on only sees what lies there. */
  lemma {:induction false} ComponentsOfSuffix(s: string, d: nat, t: string, from: nat)
    requires d <= |s| && t == s[d..] && from <= |t|
    ensures ComponentsFrom(s, d + from) == ComponentsFrom(t, from)
    decreases |t| - from
  {
    if from == |t| {
    } else if t[from] == '/' {
      ComponentsOfSuffix(s, d, t, from + 1);
    } else {
      var to := NextSlash(t, from);
      NextSlashIs(s, d + from, d + to);
      ComponentsOfSuffix(s, d, t, to);
      assert s[d + from..d + to] == t[from..to];
    }
  }

  lemma {:induction false} ComponentsOfPrefix(s: string, p: string, q: string, from: nat)
    requires s == p + "/" + q && from <= |p|
    ensures ComponentsFrom(s, from) == ComponentsFrom(p, from) + Components(q)
    decreases |p| - from
  {
    if from == |p| {
      ComponentsOfSuffix(s, |p| + 1, q, 0);
    } else if p[from] == '/' {
      ComponentsOfPrefix(s, p, q, from + 1);
    } else {
      var to := NextSlash(p, from);
      NextSlashIs(s, from, to);
      ComponentsOfPrefix(s, p, q, to);
      assert s[from..to] == p[from..to];
    }
  }

  lemma ComponentsOfJoin(p: string, q: string)
    ensures Components(p + "/" + q) == Components(p) + Components(q)
  {
    ComponentsOfPrefix(p + "/" + q, p, q, 0);
  }

  lemma {:induction false} WalkComposes(step: Resolver, root: capref, a: seq<string>, b: seq<string>)
    ensures Walk(step, root, a + b) == Walk(step, Walk(step, root, a), b)
    decreases |a|
  {
    if a == [] {
      assert a + b == b;
    } else {
      assert (a + b)[1..] == a[1..] + b;
      WalkComposes(step, Follow(step, root, a[0]), a[1..], b);
    }
  }

  /** Resolve p, and q from where that leads. */
  function ResolveTwice(step: Resolver, root: capref, p: string, q: string): Option<capref> {
    match Resolve(step, root, p)
    case None => None
    case Some(r) => Resolve(step, r, q)
  }

  lemma ResolveComposes(step: Resolver, root: capref, p: string, q: string)
    requires p != "/" && q != "/" && (p != "" || q != "")
    ensures Resolve(step, root, p + "/" + q) == ResolveTwice(step, root, p, q)
  {
    ComponentsOfJoin(p, q);
    WalkComposes(step, root, Components(p), Components(q));
    assert p + "/" + q != "/" by {
      assert |p + "/" + q| > 1;
    }
  }

  /** A resolver that only objects to the path "/". */
  function Picky(root: capref, name: string): Option<capref> {
    if name == "/" then None else Some(root)
  }

  /** Joining with a slash composes resolutions, for every resolver, exactly when no path involved is "/". */
  lemma ComposesExactly(p: string, q: string)
    ensures (forall step: Resolver, root: capref ::
               Resolve(step, root, p + "/" + q) == ResolveTwice(step, root, p, q))
            <==> p != "/" && q != "/" && p + "/" + q != "/"
  {
    assert p + "/" + q == "/" <==> p == "" && q == "" by {
      assert |p + "/" + q| == |p| + 1 + |q|;
    }
    if p != "/" && q != "/" && p + "/" + q != "/" {
      forall step: Resolver, root: capref
        ensures Resolve(step, root, p + "/" + q) == ResolveTwice(step, root, p, q)
      {
        ResolveComposes(step, root, p, q);
      }
    } else {
      var root: capref := 0;
      if p + "/" + q == "/" {
        assert Resolve(Picky, root, p + "/" + q) == None;
        assert ResolveTwice(Picky, root, p, q) != None;
      } else {
        assert Resolve(Picky, root, p + "/" + q) != None;
        assert ResolveTwice(Picky, root, p, q) == None;
      }
    }
  }

  /** Adding a leading, trailing or repeated slash changes nothing, as long as "/" itself is not involved. */
  lemma ExtraSlash(step: Resolver, root: capref, a: string, b: string)
    requires a == "" || b == "" || a[|a| - 1] == '/' || b[0] == '/'
    requires a + b != "/" && a + "/" + b != "/"
    ensures Resolve(step, root, a + "/" + b) == Resolve(step, root, a + b)
  {
    ComponentsOfJoin(a, b);
    if a == "" {
      assert a + b == b;
      assert [] + Components(b) == Components(b);
    } else if b == "" {
      assert a + b == a;
      assert Components(a) + [] == Components(a);
    } else if a[|a| - 1] == '/' {
      var a0 := a[..|a| - 1];
      assert a + b == a0 + "/" + b && a == a0 + "/" + "";
      ComponentsOfJoin(a0, b);
      ComponentsOfJoin(a0, "");
      assert Components(a0) + [] == Components(a0);
    } else {
      assert a + b == a + "/" + b[1..] && b == "" + "/" + b[1..];
      ComponentsOfJoin(a, b[1..]);
      ComponentsOfJoin("", b[1..]);
      assert [] + Components(b[1..]) == Components(b[1..]);
    }
  }

  // --- The tokeniser

  /** The C string that starts at index i of a buffer. */
  function CString(buffer: seq<char>, i: nat): string
    requires i <= |buffer|
    decreases |buffer| - i
  {
    if i == |buffer| || buffer[i] == '\0' then "" else [buffer[i]] + CString(buffer, i + 1)
  }

  lemma {:induction false} CStringIs(buffer: seq<char>, i: nat, j: nat)
    requires i <= j < |buffer| && buffer[j] == '\0'
    requires forall k | i <= k < j :: buffer[k] != '\0'
    ensures CString(buffer, i) == buffer[i..j]
    decreases j - i
  {
    if i == j {
    } else {
      CStringIs(buffer, i + 1, j);
    }
  }

  /** Up to the NUL written at p, the buffer holds the segment of the path that starts at `current`. */
  lemma NameInBuffer(buffer: seq<char>, s: string, current: nat, p: nat)
    requires '\0' !in s && |buffer| == |s| + 1 && current <= p <= |s|
    requires forall k | current <= k < p :: buffer[k] == s[k]
    requires buffer[p] == '\0'
    ensures CString(buffer, current) == s[current..p]
  {
    CStringIs(buffer, current, p);
    assert buffer[current..p] == s[current..p];
  }

  /** The part of the path before `current` has been resolved to `here`. */
  ghost predicate Resolved(step: Resolver, root: capref, s: string, here: capref, current: nat, passed: seq<string>)
    requires current <= |s|
  {
    && passed + ComponentsFrom(s, current) == Components(s)
    && Walk(step, here, ComponentsFrom(s, current)) == Walk(step, root, Components(s))
  }

  lemma NextComponent(step: Resolver, root: capref, s: string, here: capref, current: nat, passed: seq<string>, p: nat)
    requires current < p <= |s| && Resolved(step, root, s, here, current, passed)
    requires forall k | current <= k < p :: s[k] != '/'
    requires p < |s| ==> s[p] == '/'
    ensures var next := if p < |s| then p + 1 else p;
            Resolved(step, root, s, Follow(step, here, s[current..p]), next, passed + [s[current..p]])
  {
    NextSlashIs(s, current, p);
    var name, next := s[current..p], if p < |s| then p + 1 else p;
    var rest := ComponentsFrom(s, next);
    assert ComponentsFrom(s, current) == [name] + rest;
    assert passed + ([name] + rest) == passed + [name] + rest;
    assert ([name] + rest)[1..] == rest;
  }

  /** Where the scan cuts, the string that starts at `current` is the next component. */
  lemma CutComponent(step: Resolver, root: capref, buffer: seq<char>, s: string, here: capref, current: nat,
                     passed: seq<string>, p: nat)
    requires '\0' !in s && |buffer| == |s| + 1
    requires current < p <= |s| && Resolved(step, root, s, here, current, passed)
    requires forall k | current <= k < p :: buffer[k] == s[k] != '/'
    requires buffer[p] == '\0' && (p < |s| ==> s[p] == '/')
    ensures var name, next := CString(buffer, current), if p < |s| then p + 1 else p;
            Resolved(step, root, s, Follow(step, here, name), next, passed + [name])
  {
    NameInBuffer(buffer, s, current, p);
    NextComponent(step, root, s, here, current, passed, p);
  }

  /**
   Cuts the path in place and resolves each piece from where the last one led. `passed`
   records the strings the resolver is given.
   */
  method ResolvePath(step: Resolver, root: capref, path: Option<string>)
    returns (r: Option<capref>, ghost passed: seq<string>)
    requires path.Some? ==> '\0' !in path.value
    ensures r == if path.None? then None else Resolve(step, root, path.value)
    ensures passed == if path.None? then [] else if path.value == "/" then ["/"] else Components(path.value)
  {
    if path.None? {
      return None, [];
    }
    var s := path.value;
    if s == "/" {
      return step(root, s), ["/"];
    }
    var mypath := new char[|s| + 1](i requires 0 <= i <= |s| => if i < |s| then s[i] else '\0');
    var p, current := 0, 0;
    var here := root;
    passed := [];
    while mypath[p] != '\0'
      invariant 0 <= current <= p <= |s|
      invariant mypath[|s|] == '\0' && forall k | current <= k < |s| :: mypath[k] == s[k]
      invariant forall k | current <= k < p :: s[k] != '/'
      invariant Resolved(step, root, s, here, current, passed)
      decreases |s| - p
    {
      if mypath[p] == '/' {
        if p == current {
          current := current + 1;
          p := p + 1;
        } else {
          mypath[p] := '\0';
          CutComponent(step, root, mypath[..], s, here, current, passed, p);
          var name := CString(mypath[..], current);
          here := Follow(step, here, name);
          passed := passed + [name];
          p := p + 1;
          current := p;
        }
      } else {
        p := p + 1;
      }
    }
    if current != p {
      CutComponent(step, root, mypath[..], s, here, current, passed, p);
      var name := CString(mypath[..], current);
      here := Follow(step, here, name);
      passed := passed + [name];
    }
    r := Some(here);
  }
}

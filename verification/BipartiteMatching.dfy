/** A maximum matching of a bipartite graph, found by augmenting from each left node once. */
module BipartiteMatching {

  /** The "no partner" marker of the left_ and right_ vectors. */
  const UNUSED: int := -1

  type Edge = (int, int)

  // ---------- matchings and covers, on values ----------

  /** No two pairs share an element, and no two pairs share a matcher. */
  ghost predicate Disjoint(m: set<Edge>) {
    forall p, q | p in m && q in m && p != q :: p.0 != q.0 && p.1 != q.1
  }

  /** A matching of the graph: a set of its edges without common end points. */
  ghost predicate IsMatching(graph: set<Edge>, m: set<Edge>) {
    m <= graph && Disjoint(m)
  }

  /** Every edge has its left end in 'cl' or its right end in 'cr'. */
  ghost predicate IsCover(graph: set<Edge>, cl: set<int>, cr: set<int>) {
    forall p | p in graph :: p.0 in cl || p.1 in cr
  }

  lemma {:induction false} LeftEndsBound(m: set<Edge>, s: set<int>)
    requires Disjoint(m)
    requires forall p | p in m :: p.0 in s
    ensures |m| <= |s|
    decreases |m|
  {
    if m == {} {
    } else {
      var p :| p in m;
      LeftEndsBound(m - {p}, s - {p.0});
    }
  }

  lemma {:induction false} RightEndsBound(m: set<Edge>, s: set<int>)
    requires Disjoint(m)
    requires forall p | p in m :: p.1 in s
    ensures |m| <= |s|
    decreases |m|
  {
    if m == {} {
    } else {
      var p :| p in m;
      RightEndsBound(m - {p}, s - {p.1});
    }
  }

  /** Weak duality: no matching is larger than a cover. */
  lemma CoverBoundsMatching(graph: set<Edge>, m: set<Edge>, cl: set<int>, cr: set<int>)
    requires IsMatching(graph, m)
    requires IsCover(graph, cl, cr)
    ensures |m| <= |cl| + |cr|
  {
    var byLeft := set p | p in m && p.0 in cl;
    var byRight := m - byLeft;
    LeftEndsBound(byLeft, cl);
    RightEndsBound(byRight, cr);
    assert byLeft + byRight == m;
  }

  /** The pairs that a left_ vector stands for. */
  ghost function PairsOf(left: seq<int>): set<Edge> {
    set l | 0 <= l < |left| && left[l] != UNUSED :: (l, left[l])
  }

  /** left_ and right_ are in range, refer to each other, and use only edges of the graph. */
  ghost predicate Mutual(graph: set<Edge>, left: seq<int>, right: seq<int>) {
    && (forall l | 0 <= l < |left| && left[l] != UNUSED ::
          0 <= left[l] < |right| && right[left[l]] == l && (l, left[l]) in graph)
    && (forall r | 0 <= r < |right| && right[r] != UNUSED ::
          0 <= right[r] < |left| && left[right[r]] == r)
  }

  /** No search can leave 'fl' and 'fr': the neighbours of 'fl' are in 'fr', and every node of 'fr'
      is matched, with a partner in 'fl'. */
  ghost predicate Frozen(graph: set<Edge>, right: seq<int>, fl: set<int>, fr: set<int>) {
    && (forall p | p in graph && p.0 in fl :: p.1 in fr)
    && (forall r | r in fr :: 0 <= r < |right| && right[r] != UNUSED && right[r] in fl)
  }

  /** Every unmatched left node below 'n' is frozen. */
  ghost predicate FreeNodesFrozen(left: seq<int>, n: nat, fl: set<int>)
    requires n <= |left|
  {
    forall l | 0 <= l < n && left[l] == UNUSED :: l in fl
  }

  /** The certificate of optimality: once every free left node is frozen, the matched left nodes
      outside 'fl' together with 'fr' cover all edges, and there are as many of them as pairs. */
  lemma FrozenCertifiesMaximum(graph: set<Edge>, left: seq<int>, right: seq<int>,
                               fl: set<int>, fr: set<int>, other: set<Edge>)
    requires forall p | p in graph :: 0 <= p.0 < |left| && 0 <= p.1 < |right|
    requires Mutual(graph, left, right)
    requires Frozen(graph, right, fl, fr)
    requires FreeNodesFrozen(left, |left|, fl)
    requires IsMatching(graph, other)
    ensures IsMatching(graph, PairsOf(left))
    ensures |other| <= |PairsOf(left)|
  {
    var outside := LeftsOutside(left, fl);
    CoverBoundsMatching(graph, other, outside, fr);
    PairsIsMatching(graph, left, right);
    CoverIsNoLarger(graph, left, right, fl, fr);
  }

  lemma PairsIsMatching(graph: set<Edge>, left: seq<int>, right: seq<int>)
    requires Mutual(graph, left, right)
    ensures IsMatching(graph, PairsOf(left))
  {
  }

  ghost function LeftsOutside(left: seq<int>, fl: set<int>): set<int> {
    set l | 0 <= l < |left| && l !in fl
  }

  /** Each node of the cover belongs to a pair of its own. */
  lemma CoverIsNoLarger(graph: set<Edge>, left: seq<int>, right: seq<int>, fl: set<int>, fr: set<int>)
    requires Mutual(graph, left, right)
    requires Frozen(graph, right, fl, fr)
    requires FreeNodesFrozen(left, |left|, fl)
    ensures |LeftsOutside(left, fl)| + |fr| <= |PairsOf(left)|
  {
    var m := PairsOf(left);
    var out := set p | p in m && p.0 !in fl;
    forall l | l in LeftsOutside(left, fl)
      ensures (l, left[l]) in out
    {
      assert left[l] != UNUSED;
    }
    LeftEndsCount(out, LeftsOutside(left, fl), left);
    forall r | r in fr
      ensures (right[r], r) in m - out
    {
      assert left[right[r]] == r;
    }
    RightEndsCount(m - out, fr, right);
    assert m == out + (m - out);
  }

  ghost function Pick<T>(s: set<T>): (x: T)
    requires |s| > 0
    ensures x in s
  {
    var x :| x in s;
    x
  }

  lemma {:induction false} LeftEndsCount(m: set<Edge>, s: set<int>, left: seq<int>)
    requires forall l | l in s :: 0 <= l < |left| && (l, left[l]) in m
    ensures |s| <= |m|
    decreases |s|
  {
    if |s| > 0 {
      var l := Pick(s);
      LeftEndsCount(m - {(l, left[l])}, s - {l}, left);
    }
  }

  lemma {:induction false} RightEndsCount(m: set<Edge>, s: set<int>, right: seq<int>)
    requires forall r | r in s :: 0 <= r < |right| && (right[r], r) in m
    ensures |s| <= |m|
    decreases |s|
  {
    if |s| > 0 {
      var r := Pick(s);
      RightEndsCount(m - {(right[r], r)}, s - {r}, right);
    }
  }

  /** The numbers below 'n'. */
  ghost function Below(n: nat): (s: set<int>)
    ensures forall k :: k in s <==> 0 <= k < n
    ensures |s| == n
  {
    if n == 0 then {} else Below(n - 1) + {n - 1}
  }

  // ---------- the matrix ----------

  /** The connectivity matrix, flattened in element-major order. */
  class MatchMatrix {
    const numElements: nat
    const numMatchers: nat
    const matched: array<bool>

    ghost predicate Valid() {
      matched.Length == numElements * numMatchers
    }

    constructor (elements: nat, matchers: nat)
      ensures Valid() && fresh(matched) && numElements == elements && numMatchers == matchers
      ensures Edges() == {}
    {
      numElements := elements;
      numMatchers := matchers;
      matched := new bool[elements * matchers](_ => false);
    }

    static lemma IndexBound(l: nat, r: nat, elements: nat, matchers: nat)
      requires l < elements && r < matchers
      ensures 0 <= l * matchers + r < elements * matchers
    {
      assert l * matchers + matchers == (l + 1) * matchers <= elements * matchers;
    }

    static lemma IndexOrder(l: nat, r: nat, l': nat, r': nat, matchers: nat)
      requires r < matchers && l < l'
      ensures l * matchers + r < l' * matchers + r'
    {
      assert l' * matchers == (l + 1) * matchers + (l' - l - 1) * matchers;
    }

    static lemma IndexInjective(l: nat, r: nat, l': nat, r': nat, matchers: nat)
      requires r < matchers && r' < matchers
      requires l * matchers + r == l' * matchers + r'
      ensures l == l' && r == r'
    {
      if l < l' {
        IndexOrder(l, r, l', r', matchers);
      } else if l' < l {
        IndexOrder(l', r', l, r, matchers);
      }
    }

    function SpaceIndex(l: nat, r: nat): (k: nat)
      requires Valid() && l < numElements && r < numMatchers
      ensures k < matched.Length
    {
      IndexBound(l, r, numElements, numMatchers);
      l * numMatchers + r
    }

    predicate HasEdge(l: nat, r: nat)
      requires Valid() && l < numElements && r < numMatchers
      reads matched
    {
      matched[SpaceIndex(l, r)]
    }

    /** The graph the matrix stands for. */
    ghost function Edges(): (e: set<Edge>)
      requires Valid()
      reads matched
    {
      set l: int, r: int | 0 <= l < numElements && 0 <= r < numMatchers && HasEdge(l, r) :: (l, r)
    }

    /** Changes one edge and no other: two cells never share an index. */
    method SetEdge(l: nat, r: nat, b: bool)
      requires Valid() && l < numElements && r < numMatchers
      modifies matched
      ensures Edges() == if b then old(Edges()) + {(l, r)} else old(Edges()) - {(l, r)}
    {
      matched[SpaceIndex(l, r)] := b;
      forall l': nat, r': nat | l' < numElements && r' < numMatchers && (l', r') != (l, r)
        ensures HasEdge(l', r') == old(HasEdge(l', r'))
      {
        if SpaceIndex(l', r') == SpaceIndex(l, r) {
          IndexInjective(l, r, l', r', numMatchers);
        }
      }
    }
  }

  // ---------- the search ----------

  /** The right nodes not yet marked. */
  ghost function Unseen(seen: seq<bool>): set<int> {
    set r | 0 <= r < |seen| && !seen[r]
  }

  /** Marks are never taken back. */
  ghost predicate Grows(before: seq<bool>, after: seq<bool>) {
    |before| == |after| && forall r | 0 <= r < |before| && before[r] :: after[r]
  }

  /** The nodes marked by a failed search, and what it learnt about them: each is matched, and the
      search has marked all neighbours of its partner. */
  ghost predicate DeadEnds(graph: set<Edge>, right: seq<int>, before: seq<bool>, after: seq<bool>)
    requires |before| == |after| == |right|
  {
    forall r | 0 <= r < |right| && after[r] && !before[r] ::
      right[r] != UNUSED && Explored(graph, after, right[r])
  }

  /** All neighbours of left node 'l' are marked. */
  ghost predicate Explored(graph: set<Edge>, seen: seq<bool>, l: int) {
    forall r | 0 <= r < |seen| && (l, r) in graph :: seen[r]
  }

  /** What a successful search from 'l0' does to the two vectors: 'l0' gets a new partner, every other
      left node stays matched or stays free, and only nodes that were not marked before change hands.
      The entry of right_ for the old partner of 'l0' is left for the caller to overwrite. */
  ghost predicate Augmented(graph: set<Edge>, before: seq<bool>, left: seq<int>, right: seq<int>,
                            l0: int, left': seq<int>, right': seq<int>)
    requires |left'| == |left| && |right'| == |right| == |before| && 0 <= l0 < |left|
  {
    && left'[l0] != UNUSED && left'[l0] != left[l0]
    && (forall l | 0 <= l < |left| && l != l0 :: (left'[l] == UNUSED) == (left[l] == UNUSED))
    && (forall l | 0 <= l < |left| && left'[l] != UNUSED ::
          0 <= left'[l] < |right| && right'[left'[l]] == l && (l, left'[l]) in graph)
    && (forall r | 0 <= r < |right| && right'[r] != UNUSED && r != left[l0] ::
          0 <= right'[r] < |left| && left'[right'[r]] == r)
    && (forall r | 0 <= r < |right| && before[r] :: right'[r] == right[r])
    && (forall r | 0 <= r < |right| && right[r] != UNUSED :: right'[r] != UNUSED)
    && (forall l | 0 <= l < |left| && l != l0 && left[l] != left'[l] ::
          0 <= left[l] < |right| && !before[left[l]])
  }

  /** Linking 'l0' to the free right node 'r0' is an augmentation. */
  lemma LinkFree(graph: set<Edge>, before: seq<bool>, left: seq<int>, right: seq<int>, l0: int, r0: int)
    requires |right| == |before| && 0 <= l0 < |left| && 0 <= r0 < |right|
    requires Mutual(graph, left, right) && (l0, r0) in graph
    requires right[r0] == UNUSED && !before[r0]
    ensures Augmented(graph, before, left, right, l0, left[l0 := r0], right[r0 := l0])
  {
  }

  /** Linking 'l0' to 'r0' after the previous partner of 'r0' was moved is an augmentation. */
  lemma LinkMoved(graph: set<Edge>, before: seq<bool>, marked: seq<bool>, left: seq<int>, right: seq<int>,
                  left': seq<int>, right': seq<int>, l0: int, r0: int)
    requires |left'| == |left| && |right'| == |right| == |before| == |marked|
    requires 0 <= l0 < |left| && 0 <= r0 < |right|
    requires Mutual(graph, left, right) && (l0, r0) in graph
    requires right[r0] != UNUSED && !before[r0] && marked[r0]
    requires forall r | 0 <= r < |before| && before[r] :: marked[r]
    requires left[l0] == UNUSED || before[left[l0]]
    requires Augmented(graph, marked, left, right, right[r0], left', right')
    ensures Augmented(graph, before, left, right, l0, left'[l0 := r0], right'[r0 := l0])
  {
    assert right[r0] != l0;
    assert left'[l0] == left[l0];
    assert left[right[r0]] == r0;
  }

  /** After a search that began with no marks, the two vectors refer to each other again, the
      frozen sets are still frozen, and 'l0' is the only left node that changed between free and matched. */
  lemma AugmentedKeeps(graph: set<Edge>, left: seq<int>, right: seq<int>, l0: nat,
                       left': seq<int>, right': seq<int>, fl: set<int>, fr: set<int>)
    requires |left'| == |left| && |right'| == |right| && l0 < |left| && left[l0] == UNUSED
    requires Augmented(graph, NoMarks(|right|), left, right, l0, left', right')
    requires Frozen(graph, right, fl, fr)
    requires forall r | r in fr :: right'[r] == right[r]
    requires FreeNodesFrozen(left, l0, fl)
    ensures Mutual(graph, left', right') && Frozen(graph, right', fl, fr)
    ensures FreeNodesFrozen(left', l0 + 1, fl)
    ensures forall l | l0 < l < |left| && left[l] == UNUSED :: left'[l] == UNUSED
  {
  }

  ghost function UsedRights(right: seq<int>): set<int> {
    set r | 0 <= r < |right| && right[r] != UNUSED
  }

  ghost function UsedLefts(left: seq<int>): set<int> {
    set l | 0 <= l < |left| && left[l] != UNUSED
  }

  /** There are as many pairs as matched nodes on either side. */
  lemma PairsCount(graph: set<Edge>, left: seq<int>, right: seq<int>)
    requires Mutual(graph, left, right)
    ensures |PairsOf(left)| == |UsedLefts(left)| == |UsedRights(right)|
  {
    var m := PairsOf(left);
    PairsIsMatching(graph, left, right);
    LeftEndsBound(m, UsedLefts(left));
    LeftEndsCount(m, UsedLefts(left), left);
    RightEndsBound(m, UsedRights(right));
    RightEndsCount(m, UsedRights(right), right);
  }

  /** A successful search adds exactly one pair: 'l0' and one right node become matched, and nobody
      loses a partner for good. */
  lemma AugmentedAddsOnePair(graph: set<Edge>, left: seq<int>, right: seq<int>, l0: nat,
                             left': seq<int>, right': seq<int>)
    requires |left'| == |left| && |right'| == |right| && l0 < |left| && left[l0] == UNUSED
    requires Mutual(graph, left, right) && Mutual(graph, left', right')
    requires Augmented(graph, NoMarks(|right|), left, right, l0, left', right')
    ensures UsedLefts(left') == UsedLefts(left) + {l0}
    ensures UsedRights(right) <= UsedRights(right')
    ensures |PairsOf(left')| == |PairsOf(left)| + 1
    ensures |UsedRights(right') - UsedRights(right)| == 1
  {
    PairsCount(graph, left, right);
    PairsCount(graph, left', right');
    assert UsedLefts(left') == UsedLefts(left) + {l0};
  }

  ghost function NoMarks(n: nat): seq<bool> {
    seq(n, _ => false)
  }

  ghost function Seen(seen: seq<bool>): set<int> {
    set r | 0 <= r < |seen| && seen[r]
  }

  /** The left nodes visited by a failed search from 'l0'. */
  ghost function FailedLeft(right: seq<int>, seen: seq<bool>, l0: int): set<int>
    requires |seen| == |right|
  {
    {l0} + set r | 0 <= r < |seen| && seen[r] :: right[r]
  }

  /** What a failed search visited can be frozen as well. */
  lemma FreezeFailed(graph: set<Edge>, right: seq<int>, seen: seq<bool>, l0: int, fl: set<int>, fr: set<int>)
    requires |seen| == |right|
    requires forall p | p in graph :: 0 <= p.1 < |right|
    requires Explored(graph, seen, l0)
    requires DeadEnds(graph, right, NoMarks(|right|), seen)
    requires Frozen(graph, right, fl, fr)
    ensures Frozen(graph, right, fl + FailedLeft(right, seen, l0), fr + Seen(seen))
  {
    forall p | p in graph && p.0 in FailedLeft(right, seen, l0)
      ensures p.1 in Seen(seen)
    {
      if p.0 != l0 {
        var r :| 0 <= r < |seen| && seen[r] && right[r] == p.0;
        assert Explored(graph, seen, right[r]);
      }
    }
  }

  /** A failed search below right node 'r0' adds to the dead ends known before it. */
  lemma DeadEndsGrow(graph: set<Edge>, right: seq<int>, first: seq<bool>, before: seq<bool>, r0: int, after: seq<bool>)
    requires |first| == |before| == |after| == |right| && 0 <= r0 < |right|
    requires DeadEnds(graph, right, first, before)
    requires DeadEnds(graph, right, before[r0 := true], after)
    requires Grows(before, after)
    requires right[r0] != UNUSED && Explored(graph, after, right[r0])
    ensures DeadEnds(graph, right, first, after)
  {
    forall r | 0 <= r < |right| && after[r] && !first[r]
      ensures right[r] != UNUSED && Explored(graph, after, right[r])
    {
      if before[r] {
        assert Explored(graph, before, right[r]);
      }
    }
  }

  class MaxBipartiteMatchState {
    const graph: MatchMatrix
    const left: array<int>
    const right: array<int>

    constructor (g: MatchMatrix)
      requires g.Valid()
      ensures graph == g && fresh(left) && fresh(right)
      ensures Shape()
      ensures forall l | 0 <= l < left.Length :: left[l] == UNUSED
      ensures forall r | 0 <= r < right.Length :: right[r] == UNUSED
    {
      graph := g;
      left := new int[g.numElements](_ => UNUSED);
      right := new int[g.numMatchers](_ => UNUSED);
    }

    ghost predicate Shape() {
      && graph.Valid()
      && left.Length == graph.numElements
      && right.Length == graph.numMatchers
      && left != right
    }

    /** Adds the flow from 'l' to 'r'. */
    method Link(l: nat, r: nat)
      requires Shape() && l < left.Length && r < right.Length
      modifies left, right
      ensures left[..] == old(left[..])[l := r] && right[..] == old(right[..])[r := l]
    {
      left[l] := r;
      right[r] := l;
    }

    /** One depth-first search from 'ilhs' in the graph 'g'.  The frozen sets are those of the failed
        searches so far: a search started outside them never changes a match inside them, and one
        started inside fails. */
    method TryAugment(ilhs: nat, seen: array<bool>, ghost g: set<Edge>, ghost fl: set<int>, ghost fr: set<int>)
      returns (found: bool)
      requires Shape() && ilhs < left.Length
      requires g == graph.Edges() && Mutual(g, left[..], right[..])
      requires seen.Length == right.Length && seen != graph.matched
      requires left[ilhs] == UNUSED || seen[left[ilhs]]
      requires Frozen(g, right[..], fl, fr)
      modifies left, right, seen
      decreases Unseen(seen[..])
      ensures graph.Edges() == g
      // marks only grow
      ensures Grows(old(seen[..]), seen[..])
      // failure changes no match, and explores everything it can reach
      ensures !found ==> left[..] == old(left[..]) && right[..] == old(right[..])
      ensures !found ==> Explored(g, seen[..], ilhs)
      ensures !found ==> DeadEnds(g, right[..], old(seen[..]), seen[..])
      // success adds 'ilhs' to the matched left nodes, and only 'ilhs'
      ensures found ==> Augmented(g, old(seen[..]), old(left[..]), old(right[..]), ilhs, left[..], right[..])
      // frozen parts stay
      ensures ilhs in fl ==> !found
      ensures forall r | r in fr :: right[..][r] == old(right[..])[r]
    {
      hide Augmented;
      ghost var seen0, left0, right0 := seen[..], left[..], right[..];
      var irhs := 0;
      while irhs < graph.numMatchers
        invariant 0 <= irhs <= graph.numMatchers
        invariant left[..] == left0 && right[..] == right0
        invariant Grows(seen0, seen[..])
        invariant forall r | 0 <= r < irhs && (ilhs, r) in g :: seen[..][r]
        invariant DeadEnds(g, right0, seen0, seen[..])
        invariant graph.Edges() == g
      {
        if !seen[irhs] && graph.HasEdge(ilhs, irhs) {
          assert (ilhs, irhs) in g;
          assert irhs in Unseen(seen0);
          ghost var before := seen[..];
          seen[irhs] := true;
          ghost var marked := seen[..];
          assert marked == before[irhs := true];
          if right[irhs] == UNUSED {
            LinkFree(g, seen0, left0, right0, ilhs, irhs);
            Link(ilhs, irhs);
            return true;
          }
          assert irhs !in Unseen(marked) && Unseen(marked) <= Unseen(seen0);
          var open := TryAugment(right[irhs], seen, g, fl, fr);
          if open {
            LinkMoved(g, seen0, marked, left0, right0, left[..], right[..], ilhs, irhs);
            Link(ilhs, irhs);
            return true;
          }
          DeadEndsGrow(g, right0, seen0, before, irhs, seen[..]);
        }
        irhs := irhs + 1;
      }
      return false;
    }

    /** Tries every left node once, then lists the matched pairs. */
    method Compute() returns (pairs: seq<Edge>)
      requires Shape()
      requires forall l | 0 <= l < left.Length :: left[l] == UNUSED
      requires forall r | 0 <= r < right.Length :: right[r] == UNUSED
      modifies left, right
      ensures Mutual(graph.Edges(), left[..], right[..])
      ensures forall i, j | 0 <= i < j < |pairs| :: pairs[i].0 < pairs[j].0
      ensures (set p | p in pairs) == PairsOf(left[..])
      ensures IsMatching(graph.Edges(), set p | p in pairs)
      ensures forall m | IsMatching(graph.Edges(), m) :: |m| <= |pairs|
    {
      ghost var g := graph.Edges();
      ghost var fl: set<int>, fr: set<int> := {}, {};
      var ilhs := 0;
      while ilhs < left.Length
        invariant 0 <= ilhs <= left.Length
        invariant graph.Edges() == g && Mutual(g, left[..], right[..])
        invariant forall l | ilhs <= l < left.Length :: left[l] == UNUSED
        invariant Frozen(g, right[..], fl, fr)
        invariant FreeNodesFrozen(left[..], ilhs, fl)
      {
        assert left[ilhs] == UNUSED;  // the check made before every search
        ghost var left0, right0 := left[..], right[..];
        var seen := new bool[right.Length](_ => false);
        assert seen[..] == NoMarks(right.Length);
        assert graph.Edges() == g;
        var found := TryAugment(ilhs, seen, g, fl, fr);
        if found {
          AugmentedKeeps(g, left0, right0, ilhs, left[..], right[..], fl, fr);
        } else {
          FreezeFailed(g, right[..], seen[..], ilhs, fl, fr);
          fl, fr := fl + FailedLeft(right[..], seen[..], ilhs), fr + Seen(seen[..]);
        }
        ilhs := ilhs + 1;
      }
      pairs := MatchedPairs();
      assert (set p | p in pairs) == PairsOf(left[..]);
      DistinctSize(pairs);
      forall m | IsMatching(g, m)
        ensures |m| <= |pairs|
      {
        FrozenCertifiesMaximum(g, left[..], right[..], fl, fr, m);
      }
      PairsIsMatching(g, left[..], right[..]);
    }

    /** The pairs held in left_, in the order of the left nodes. */
    method MatchedPairs() returns (pairs: seq<Edge>)
      ensures (set p | p in pairs) == PairsOf(left[..])
      ensures forall i, j | 0 <= i < j < |pairs| :: pairs[i].0 < pairs[j].0
    {
      pairs := [];
      var l := 0;
      while l < left.Length
        invariant 0 <= l <= left.Length
        invariant forall p | p in pairs :: 0 <= p.0 < l && left[p.0] == p.1 != UNUSED
        invariant forall k | 0 <= k < l && left[k] != UNUSED :: (k, left[k]) in pairs
        invariant forall i, j | 0 <= i < j < |pairs| :: pairs[i].0 < pairs[j].0
      {
        if left[l] != UNUSED {
          pairs := pairs + [(l, left[l])];
        }
        l := l + 1;
      }
    }
  }

  lemma {:induction false} DistinctSize(pairs: seq<Edge>)
    requires forall i, j | 0 <= i < j < |pairs| :: pairs[i].0 < pairs[j].0
    ensures |set p | p in pairs| == |pairs|
  {
    if pairs == [] {
    } else {
      var n := |pairs| - 1;
      DistinctSize(pairs[..n]);
      assert (set p | p in pairs) == (set p | p in pairs[..n]) + {pairs[n]};
    }
  }

  // ---------- what callers ask ----------

  method FindMaxBipartiteMatching(g: MatchMatrix) returns (pairs: seq<Edge>)
    requires g.Valid()
    ensures IsMatching(g.Edges(), set p | p in pairs)
    ensures |set p | p in pairs| == |pairs|
    ensures forall m | IsMatching(g.Edges(), m) :: |m| <= |pairs|
  {
    var state := new MaxBipartiteMatchState(g);
    pairs := state.Compute();
    DistinctSize(pairs);
  }

  /** Every matcher gets an element of its own that it accepts. */
  ghost predicate IsAssignment(graph: set<Edge>, matchers: nat, element: seq<int>) {
    && |element| == matchers
    && (forall r | 0 <= r < matchers :: (element[r], r) in graph)
    && (forall r, s | 0 <= r < s < matchers :: element[r] != element[s])
  }

  ghost function AssignmentPairs(element: seq<int>): set<Edge> {
    set r | 0 <= r < |element| :: (element[r], r)
  }

  lemma {:induction false} AssignmentIsMatching(graph: set<Edge>, matchers: nat, element: seq<int>)
    requires IsAssignment(graph, matchers, element)
    ensures IsMatching(graph, AssignmentPairs(element))
    ensures |AssignmentPairs(element)| == matchers
    decreases matchers
  {
    if matchers == 0 {
      assert AssignmentPairs(element) == {};
    } else {
      var n := matchers - 1;
      var shorter := element[..n];
      AssignmentIsMatching(graph, n, shorter);
      assert AssignmentPairs(element) == AssignmentPairs(shorter) + {(element[n], n)};
    }
  }

  lemma FullMatchingIsAssignment(graph: set<Edge>, matchers: nat, m: set<Edge>)
    returns (element: seq<int>)
    requires IsMatching(graph, m) && |m| == matchers
    requires forall p | p in graph :: 0 <= p.1 < matchers
    ensures IsAssignment(graph, matchers, element)
  {
    forall r | 0 <= r < matchers
      ensures HasPartner(m, r)
    {
      if !HasPartner(m, r) {
        RightEndsBound(m, Below(matchers) - {r});
      }
    }
    element := seq(matchers, r requires 0 <= r < matchers && HasPartner(m, r) => Partner(m, r));
  }

  ghost predicate HasPartner(m: set<Edge>, r: int) {
    exists p :: p in m && p.1 == r
  }

  ghost function Partner(m: set<Edge>, r: int): (l: int)
    requires HasPartner(m, r)
    ensures (l, r) in m
  {
    var p :| p in m && p.1 == r;
    p.0
  }

  /** True exactly when every matcher can be given a distinct element. */
  method FindPairing(matrix: MatchMatrix) returns (result: bool)
    requires matrix.Valid()
    ensures result <==> exists element :: IsAssignment(matrix.Edges(), matrix.numMatchers, element)
  {
    var matches := FindMaxBipartiteMatching(matrix);
    ghost var g, n := matrix.Edges(), matrix.numMatchers;
    result := |matches| == matrix.numMatchers;
    if result {
      ghost var element := FullMatchingIsAssignment(g, n, set p | p in matches);
    } else if exists element :: IsAssignment(g, n, element) {
      ghost var element :| IsAssignment(g, n, element);
      AssignmentIsMatching(g, n, element);
      RightEndsBound((set p | p in matches), Below(n));
    }
  }
}

/**
 * The face-ordering convention of the linear tetrahedron solver, at the level
 * of vertex indices.  An element lists its four vertices v1..v4 (local indices
 * 0..3 here); its faces are numbered by the vertex each one leaves out:
 *
 *   Face1 = {v2, v3, v4}, Face2 = {v3, v4, v1}, Face3 = {v4, v1, v2}, Face4 = {v1, v2, v3}
 *
 * The solver receives the element's four triangle faces in any order, puts
 * them into this order, and then reads the traction force of each face in
 * that order.
 */
module TetrahedronFaces {
  import opened Results

  /** A local vertex (or face) number of a tetrahedron: 0..3 for v1..v4. */
  type LocalIndex = k: nat | k < 4

  /** The four global vertex indices of an element, in its local order. */
  datatype Element = Element(v1: nat, v2: nat, v3: nat, v4: nat)

  /** A triangle face: three global vertex indices and the traction force applied to it. */
  datatype TriangleFace = TriangleFace(v1: nat, v2: nat, v3: nat, traction: real)

  function Vertex(e: Element, k: LocalIndex): nat
  {
    match k
    case 0 => e.v1
    case 1 => e.v2
    case 2 => e.v3
    case 3 => e.v4
  }

  function ElementVertices(e: Element): set<nat>
  {
    {e.v1, e.v2, e.v3, e.v4}
  }

  /** The element's four vertices are pairwise different (a non-degenerate element). */
  predicate DistinctVertices(e: Element)
  {
    && e.v1 != e.v2 && e.v1 != e.v3 && e.v1 != e.v4
    && e.v2 != e.v3 && e.v2 != e.v4 && e.v3 != e.v4
  }

  /** The rule table: the local vertices of face k, in the documented order. */
  function FaceRule(k: LocalIndex): (r: seq<LocalIndex>)
    ensures |r| == 3
  {
    match k
    case 0 => [1, 2, 3]
    case 1 => [2, 3, 0]
    case 2 => [3, 0, 1]
    case 3 => [0, 1, 2]
  }

  /** Face k is the cyclic run v_{k+1}, v_{k+2}, v_{k+3} (indices mod 4), so it never names v_k. */
  lemma FaceRuleIsCyclic(k: LocalIndex)
    ensures forall i :: 0 <= i < 3 ==> FaceRule(k)[i] == (k + i + 1) % 4
    ensures k !in FaceRule(k)
    ensures forall l: LocalIndex :: l != k <==> l in FaceRule(k)
  {
  }

  /** The global vertex indices of face k of element e, in rule order. */
  function FaceVertices(e: Element, k: LocalIndex): (r: seq<nat>)
    ensures |r| == 3
  {
    var rule := FaceRule(k);
    [Vertex(e, rule[0]), Vertex(e, rule[1]), Vertex(e, rule[2])]
  }

  function FaceSet(e: Element, k: LocalIndex): set<nat>
  {
    var f := FaceVertices(e, k);
    {f[0], f[1], f[2]}
  }

  function VertexSet(f: TriangleFace): set<nat>
  {
    {f.v1, f.v2, f.v3}
  }

  /** The local faces of e that contain the global vertex v. */
  function FacesContaining(e: Element, v: nat): set<LocalIndex>
  {
    set k: LocalIndex | v in FaceSet(e, k)
  }

  /** The vertex set of each rule face, written out. */
  lemma FaceSets(e: Element)
    ensures FaceSet(e, 0) == {e.v2, e.v3, e.v4}
    ensures FaceSet(e, 1) == {e.v3, e.v4, e.v1}
    ensures FaceSet(e, 2) == {e.v4, e.v1, e.v2}
    ensures FaceSet(e, 3) == {e.v1, e.v2, e.v3}
  {
  }

  /**
   * For an element with distinct vertices, face k has three distinct vertices
   * and consists of exactly the element's vertices other than v_k.
   */
  lemma FaceOmitsItsVertex(e: Element, k: LocalIndex)
    requires DistinctVertices(e)
    ensures |FaceSet(e, k)| == 3
    ensures Vertex(e, k) !in FaceSet(e, k)
    ensures FaceSet(e, k) == ElementVertices(e) - {Vertex(e, k)}
  {
    FaceSets(e);
  }

  /** The local indices other than k, as a set. */
  function OtherLocalIndices(k: LocalIndex): (r: set<LocalIndex>)
    ensures forall l: LocalIndex :: l in r <==> l != k
    ensures |r| == 3
  {
    match k
    case 0 => {1, 2, 3}
    case 1 => {0, 2, 3}
    case 2 => {0, 1, 3}
    case 3 => {0, 1, 2}
  }

  /**
   * For an element with distinct vertices, vertex v_k lies on exactly the
   * faces other than face k, so on three faces.
   */
  lemma VertexOnThreeFaces(e: Element, k: LocalIndex)
    requires DistinctVertices(e)
    ensures FacesContaining(e, Vertex(e, k)) == OtherLocalIndices(k)
    ensures |FacesContaining(e, Vertex(e, k))| == 3
  {
    forall l: LocalIndex
      ensures l in FacesContaining(e, Vertex(e, k)) <==> l in OtherLocalIndices(k)
    {
      FaceOmitsItsVertex(e, l);
    }
  }

  /** A vertex that is not one of the element's lies on none of its faces. */
  lemma ForeignVertexOnNoFace(e: Element, v: nat)
    requires v !in ElementVertices(e)
    ensures FacesContaining(e, v) == {}
  {
    forall k: LocalIndex
      ensures v !in FaceSet(e, k)
    {
      assert FaceSet(e, k) <= ElementVertices(e);
    }
  }

  /** With distinct vertices the four rule faces are four different vertex sets. */
  lemma FaceSetsDistinct(e: Element, a: LocalIndex, b: LocalIndex)
    requires DistinctVertices(e)
    ensures FaceSet(e, a) == FaceSet(e, b) <==> a == b
  {
    if a != b {
      assert Vertex(e, a) !in FaceSet(e, a) by {
        FaceOmitsItsVertex(e, a);
      }
      assert Vertex(e, a) in FaceSet(e, b) by {
        FaceOmitsItsVertex(e, b);
        assert Vertex(e, a) in ElementVertices(e);
      }
    }
  }

  /** Some supplied face spans exactly the vertex set target. */
  predicate HasFace(faces: seq<TriangleFace>, target: set<nat>)
  {
    exists i :: 0 <= i < |faces| && VertexSet(faces[i]) == target
  }

  /** The position of the first supplied face whose vertices are exactly target. */
  function FindFace(faces: seq<TriangleFace>, target: set<nat>): (r: Option<nat>)
    ensures r.None? <==> !HasFace(faces, target)
    ensures r.Some? ==> r.value < |faces| && VertexSet(faces[r.value]) == target
    ensures r.Some? ==> forall i :: 0 <= i < r.value ==> VertexSet(faces[i]) != target
  {
    if |faces| == 0 then None
    else if VertexSet(faces[0]) == target then Some(0)
    else
      match FindFace(faces[1..], target)
      case None => None
      case Some(i) => Some(i + 1)
  }

  /**
   * The supplied faces put into rule order: position k holds the first supplied
   * face spanning the vertices of rule face k.  None when one of the four rule
   * faces is not among the supplied ones.
   */
  function OrderedTriangleFaces(e: Element, faces: seq<TriangleFace>): (r: Option<seq<TriangleFace>>)
    requires |faces| == 4
    ensures r.Some? <==> forall k: LocalIndex :: HasFace(faces, FaceSet(e, k))
    ensures r.Some? ==> |r.value| == 4
    ensures r.Some? ==> forall k: LocalIndex :: r.value[k] in faces && VertexSet(r.value[k]) == FaceSet(e, k)
  {
    if forall k: LocalIndex :: HasFace(faces, FaceSet(e, k)) then
      Some(seq(4, (k: nat) requires k < 4 => faces[FindFace(faces, FaceSet(e, k)).value]))
    else
      None
  }

  /** Summing four numbers in a permuted order gives the same total. */
  lemma PermutedSum(c: seq<int>, p0: nat, p1: nat, p2: nat, p3: nat)
    requires |c| == 4 && Permutation4(p0, p1, p2, p3)
    ensures c[p0] + c[p1] + c[p2] + c[p3] == c[0] + c[1] + c[2] + c[3]
  {
    if p0 == 0 {
    } else if p0 == 1 {
    } else if p0 == 2 {
    } else {
    }
  }

  function Occurs<T(==)>(a: T, x: T): int
  {
    if a == x then 1 else 0
  }

  lemma Count4<T>(s: seq<T>, x: T)
    requires |s| == 4
    ensures multiset(s)[x] == Occurs(s[0], x) + Occurs(s[1], x) + Occurs(s[2], x) + Occurs(s[3], x)
  {
    assert s == [s[0]] + [s[1]] + [s[2]] + [s[3]];
  }

  /** Reading four values through a permutation of their positions keeps the multiset. */
  lemma PermutedMultiset<T>(s: seq<T>, o: seq<T>, p0: nat, p1: nat, p2: nat, p3: nat)
    requires |s| == 4 && |o| == 4 && Permutation4(p0, p1, p2, p3)
    requires o[0] == s[p0] && o[1] == s[p1] && o[2] == s[p2] && o[3] == s[p3]
    ensures multiset(o) == multiset(s)
  {
    forall x
      ensures multiset(o)[x] == multiset(s)[x]
    {
      var c := seq(4, k requires 0 <= k < 4 => Occurs(s[k], x));
      Count4(o, x);
      Count4(s, x);
      PermutedSum(c, p0, p1, p2, p3);
    }
  }

  /** Four different positions, all below 4. */
  predicate Permutation4(p0: nat, p1: nat, p2: nat, p3: nat)
  {
    && p0 < 4 && p1 < 4 && p2 < 4 && p3 < 4
    && p0 != p1 && p0 != p2 && p0 != p3 && p1 != p2 && p1 != p3 && p2 != p3
  }

  /** Supplied faces spanning the four different rule faces sit at four different positions. */
  lemma PositionsDiffer(e: Element, faces: seq<TriangleFace>, p0: nat, p1: nat, p2: nat, p3: nat)
    requires DistinctVertices(e) && p0 < |faces| && p1 < |faces| && p2 < |faces| && p3 < |faces| && |faces| == 4
    requires VertexSet(faces[p0]) == FaceSet(e, 0) && VertexSet(faces[p1]) == FaceSet(e, 1)
    requires VertexSet(faces[p2]) == FaceSet(e, 2) && VertexSet(faces[p3]) == FaceSet(e, 3)
    ensures Permutation4(p0, p1, p2, p3)
  {
    FaceSetsDistinct(e, 0, 1);
    FaceSetsDistinct(e, 0, 2);
    FaceSetsDistinct(e, 0, 3);
    FaceSetsDistinct(e, 1, 2);
    FaceSetsDistinct(e, 1, 3);
    FaceSetsDistinct(e, 2, 3);
  }

  /**
   * For an element with distinct vertices, a successful ordering takes each
   * supplied face exactly once: it is the supplied sequence read through a
   * permutation of the positions.
   */
  lemma OrderedPositions(e: Element, faces: seq<TriangleFace>) returns (p0: nat, p1: nat, p2: nat, p3: nat)
    requires |faces| == 4 && DistinctVertices(e)
    requires OrderedTriangleFaces(e, faces).Some?
    ensures Permutation4(p0, p1, p2, p3)
    ensures var o := OrderedTriangleFaces(e, faces).value;
              o[0] == faces[p0] && o[1] == faces[p1] && o[2] == faces[p2] && o[3] == faces[p3]
  {
    p0 := FoundPosition(e, faces, 0);
    p1 := FoundPosition(e, faces, 1);
    p2 := FoundPosition(e, faces, 2);
    p3 := FoundPosition(e, faces, 3);
    PositionsDiffer(e, faces, p0, p1, p2, p3);
  }

  /** The position among the supplied faces of ordered face k. */
  lemma FoundPosition(e: Element, faces: seq<TriangleFace>, k: LocalIndex) returns (p: nat)
    requires |faces| == 4 && OrderedTriangleFaces(e, faces).Some?
    ensures p < 4 && VertexSet(faces[p]) == FaceSet(e, k)
    ensures OrderedTriangleFaces(e, faces).value[k] == faces[p]
  {
    p := FindFace(faces, FaceSet(e, k)).value;
  }

  /**
   * For an element with distinct vertices, a successful ordering is a
   * permutation of the supplied faces: nothing is added, dropped or altered.
   */
  lemma OrderingIsPermutation(e: Element, faces: seq<TriangleFace>)
    requires |faces| == 4 && DistinctVertices(e)
    requires OrderedTriangleFaces(e, faces).Some?
    ensures multiset(OrderedTriangleFaces(e, faces).value) == multiset(faces)
  {
    var p0, p1, p2, p3 := OrderedPositions(e, faces);
    PermutedMultiset(faces, OrderedTriangleFaces(e, faces).value, p0, p1, p2, p3);
  }

  /**
   * For an element with distinct vertices and a successful ordering, ordered
   * face k is the one and only supplied face spanning rule face k.
   */
  lemma OrderedFaceIsUnique(e: Element, faces: seq<TriangleFace>, k: LocalIndex, f: TriangleFace)
    requires |faces| == 4 && DistinctVertices(e)
    requires OrderedTriangleFaces(e, faces).Some?
    requires f in faces && VertexSet(f) == FaceSet(e, k)
    ensures OrderedTriangleFaces(e, faces).value[k] == f
  {
    var o := OrderedTriangleFaces(e, faces).value;
    OrderingIsPermutation(e, faces);
    assert f in multiset(o);
    var l: LocalIndex :| o[l] == f;
    FaceSetsDistinct(e, k, l);
  }

  /**
   * The ordering does not depend on the order in which the faces are
   * supplied: any rearrangement of the same four faces gives the same result.
   */
  lemma OrderingIgnoresSupplyOrder(e: Element, faces: seq<TriangleFace>, shuffled: seq<TriangleFace>)
    requires |faces| == 4 && DistinctVertices(e)
    requires multiset(shuffled) == multiset(faces)
    ensures |shuffled| == 4
    ensures OrderedTriangleFaces(e, shuffled) == OrderedTriangleFaces(e, faces)
  {
    assert |shuffled| == |multiset(shuffled)| == |multiset(faces)| == 4;
    forall k: LocalIndex
      ensures HasFace(shuffled, FaceSet(e, k)) <==> HasFace(faces, FaceSet(e, k))
    {
      SameMembersSameFaces(faces, shuffled, FaceSet(e, k));
    }
    var r, r' := OrderedTriangleFaces(e, faces), OrderedTriangleFaces(e, shuffled);
    if r.Some? {
      forall k: LocalIndex
        ensures r'.value[k] == r.value[k]
      {
        assert r'.value[k] in multiset(faces);
        OrderedFaceIsUnique(e, faces, k, r'.value[k]);
      }
      assert r'.value == r.value;
    }
  }

  lemma SameMembersSameFaces(a: seq<TriangleFace>, b: seq<TriangleFace>, target: set<nat>)
    requires multiset(a) == multiset(b)
    ensures HasFace(a, target) <==> HasFace(b, target)
  {
    if HasFace(a, target) {
      var i :| 0 <= i < |a| && VertexSet(a[i]) == target;
      assert a[i] in multiset(b);
      var j :| 0 <= j < |b| && b[j] == a[i];
    }
    if HasFace(b, target) {
      var j :| 0 <= j < |b| && VertexSet(b[j]) == target;
      assert b[j] in multiset(a);
      var i :| 0 <= i < |a| && a[i] == b[j];
    }
  }

  /** The traction forces of the ordered faces, in the same order. */
  function TractionForces(ordered: seq<TriangleFace>): (t: seq<real>)
    ensures |t| == |ordered|
  {
    seq(|ordered|, k requires 0 <= k < |ordered| => ordered[k].traction)
  }

  /**
   * Traction k is the traction of the supplied face that spans rule face k,
   * whatever order the faces were supplied in.
   */
  lemma TractionFollowsOrder(e: Element, faces: seq<TriangleFace>, k: LocalIndex, f: TriangleFace)
    requires |faces| == 4 && DistinctVertices(e)
    requires OrderedTriangleFaces(e, faces).Some?
    requires f in faces && VertexSet(f) == FaceSet(e, k)
    ensures TractionForces(OrderedTriangleFaces(e, faces).value)[k] == f.traction
  {
    OrderedFaceIsUnique(e, faces, k, f);
  }

  /** The traction forces read in rule order are those of the supplied faces, rearranged. */
  lemma TractionsArePermuted(e: Element, faces: seq<TriangleFace>)
    requires |faces| == 4 && DistinctVertices(e)
    requires OrderedTriangleFaces(e, faces).Some?
    ensures multiset(TractionForces(OrderedTriangleFaces(e, faces).value)) == multiset(TractionForces(faces))
  {
    var p0, p1, p2, p3 := OrderedPositions(e, faces);
    var o := OrderedTriangleFaces(e, faces).value;
    var t, u := TractionForces(faces), TractionForces(o);
    assert u[0] == t[p0] && u[1] == t[p1] && u[2] == t[p2] && u[3] == t[p3];
    PermutedMultiset(t, u, p0, p1, p2, p3);
  }
}

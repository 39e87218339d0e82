/**
 Merkle tree over record hashes (chain_adapter/merkle/merkle.go): levels built pairwise with the
 odd node paired with itself, sorted-pair hashing, inclusion proofs. The hash of a pair is a
 parameter `H`.
 */
module Merkle {
  import opened Wrappers
  import opened Bytes
  import opened Widths

  type Hash = h: Bytes | |h| == 32 witness seq(32, _ => 0)

  type PairHash = (Hash, Hash) -> Hash

  /** What is hashed at one inner node: two hashes, the smaller first. */
  type Pair = (Hash, Hash)

  /** None of these pairs collide; a hash of 64 octets to 32 cannot do better than on finitely many. */
  ghost predicate NoCollision(H: PairHash, pairs: set<Pair>) {
    forall p: Pair, q: Pair :: p in pairs && q in pairs && H(p.0, p.1) == H(q.0, q.1) ==> p == q
  }

  /** `bytes.Compare(a, b) <= 0`. */
  predicate NotAfter(a: Bytes, b: Bytes) {
    if a == [] then true
    else if b == [] then false
    else if a[0] != b[0] then a[0] < b[0]
    else NotAfter(a[1..], b[1..])
  }

  lemma {:induction false} OrderTotal(a: Bytes, b: Bytes)
    ensures NotAfter(a, b) || NotAfter(b, a)
    ensures NotAfter(a, b) && NotAfter(b, a) ==> a == b
  {
    if a != [] && b != [] && a[0] == b[0] {
      OrderTotal(a[1..], b[1..]);
      assert a == [a[0]] + a[1..] && b == [b[0]] + b[1..];
    }
  }

  /** The smaller hash goes first. */
  function Ordered(a: Hash, b: Hash): Pair { if NotAfter(a, b) then (a, b) else (b, a) }

  function HashPair(H: PairHash, a: Hash, b: Hash): Hash { H(Ordered(a, b).0, Ordered(a, b).1) }

  /** `a` comes before `b`: at the first octet in which they differ, it has the smaller one. */
  ghost predicate Before(a: Hash, b: Hash) {
    exists k: nat :: k < 32 && a[..k] == b[..k] && a[k] < b[k]
  }

  lemma {:induction false} SmallerFirst(a: Bytes, b: Bytes, k: nat)
    requires k < |a| && k < |b| && a[..k] == b[..k] && a[k] < b[k]
    ensures NotAfter(a, b) && !NotAfter(b, a)
  {
    if k > 0 {
      assert a[0] == a[..k][0] == b[..k][0] == b[0];
      assert a[1..][..k - 1] == a[..k][1..] && b[1..][..k - 1] == b[..k][1..];
      SmallerFirst(a[1..], b[1..], k - 1);
    }
  }

  lemma {:induction false} FirstDifference(a: Hash, b: Hash, k: nat)
    requires k <= 32 && a[..k] == b[..k]
    ensures a == b || Before(a, b) || Before(b, a)
    decreases 32 - k
  {
    if k == 32 {
      assert a == a[..k] && b == b[..k];
    } else if a[k] == b[k] {
      assert a[..k + 1] == a[..k] + [a[k]] && b[..k + 1] == b[..k] + [b[k]];
      FirstDifference(a, b, k + 1);
    }
  }

  /** Any two hashes are equal, or one comes before the other; what is hashed is the one before and then the other. */
  lemma HashPairIs(H: PairHash, a: Hash, b: Hash)
    ensures a == b || Before(a, b) || Before(b, a)
    ensures a == b ==> HashPair(H, a, b) == H(a, a)
    ensures Before(a, b) ==> HashPair(H, a, b) == H(a, b)
    ensures Before(b, a) ==> HashPair(H, a, b) == H(b, a)
  {
    FirstDifference(a, b, 0);
    if Before(a, b) {
      var k: nat :| k < 32 && a[..k] == b[..k] && a[k] < b[k];
      SmallerFirst(a, b, k);
    }
    if Before(b, a) {
      var k: nat :| k < 32 && b[..k] == a[..k] && b[k] < a[k];
      SmallerFirst(b, a, k);
    }
  }

  lemma HashPairCommutes(H: PairHash, a: Hash, b: Hash)
    ensures HashPair(H, a, b) == HashPair(H, b, a)
  {
    OrderTotal(a, b);
  }

  /** Where there is no collision, equal hashes come from the same two, in either order. */
  lemma HashPairDetermines(H: PairHash, pairs: set<Pair>, a: Hash, b: Hash, c: Hash, d: Hash)
    requires NoCollision(H, pairs) && Ordered(a, b) in pairs && Ordered(c, d) in pairs
    requires HashPair(H, a, b) == HashPair(H, c, d)
    ensures (a == c && b == d) || (a == d && b == c)
  {
    assert Ordered(a, b) == Ordered(c, d);
  }

  // ---------------------------------------------------------------------------
  // The tree as a specification
  // ---------------------------------------------------------------------------

  /** The node that `i` is hashed with: its neighbour, or itself if it is the odd one out. */
  function Sibling(xs: seq<Hash>, i: nat): Hash
    requires i < |xs|
  {
    if i % 2 == 1 then xs[i - 1] else if i + 1 < |xs| then xs[i + 1] else xs[i]
  }

  function NextLevel(H: PairHash, xs: seq<Hash>): (ys: seq<Hash>)
    ensures |ys| == (|xs| + 1) / 2
  {
    seq((|xs| + 1) / 2, i requires 0 <= i < (|xs| + 1) / 2 => HashPair(H, xs[2 * i], Sibling(xs, 2 * i)))
  }

  function Levels(H: PairHash, xs: seq<Hash>): (ls: seq<seq<Hash>>)
    requires xs != []
    ensures ls != [] && ls[0] == xs
    decreases |xs|
  {
    if |xs| == 1 then [xs] else [xs] + Levels(H, NextLevel(H, xs))
  }

  function Root(H: PairHash, xs: seq<Hash>): Hash
    requires xs != []
    decreases |xs|
  {
    if |xs| == 1 then xs[0] else Root(H, NextLevel(H, xs))
  }

  function Height(n: nat): nat {
    if n <= 1 then 0 else 1 + Height((n + 1) / 2)
  }

  /** Sibling hashes from node `i` to the root. */
  function Path(H: PairHash, xs: seq<Hash>, i: nat): (p: seq<Hash>)
    requires i < |xs|
    ensures |p| == Height(|xs|)
    decreases |xs|
  {
    if |xs| == 1 then [] else [Sibling(xs, i)] + Path(H, NextLevel(H, xs), i / 2)
  }

  /** The hash that a leaf and a path lead to. */
  function Climb(H: PairHash, leaf: Hash, path: seq<Hash>): Hash
    decreases |path|
  {
    if path == [] then leaf else Climb(H, HashPair(H, leaf, path[0]), path[1..])
  }

  lemma ParentOf(H: PairHash, xs: seq<Hash>, i: nat)
    requires i < |xs|
    ensures NextLevel(H, xs)[i / 2] == HashPair(H, xs[i], Sibling(xs, i))
  {
    if i % 2 == 1 {
      assert 2 * (i / 2) == i - 1;
      HashPairCommutes(H, xs[i - 1], xs[i]);
    } else {
      assert 2 * (i / 2) == i;
    }
  }

  /** Completeness: every proof for a leaf of the tree leads to its root. */
  lemma {:induction false} ProofVerifies(H: PairHash, xs: seq<Hash>, i: nat)
    requires i < |xs|
    ensures Climb(H, xs[i], Path(H, xs, i)) == Root(H, xs)
    decreases |xs|
  {
    if |xs| > 1 {
      ParentOf(H, xs, i);
      ProofVerifies(H, NextLevel(H, xs), i / 2);
      var p := Path(H, xs, i);
      assert p[1..] == Path(H, NextLevel(H, xs), i / 2);
    }
  }

  // The pairs that are hashed

  /** By one pass over a level. */
  function LevelPairs(xs: seq<Hash>): set<Pair> {
    set i | 0 <= i < (|xs| + 1) / 2 :: Ordered(xs[2 * i], Sibling(xs, 2 * i))
  }

  /** By `Build`. */
  function TreePairs(H: PairHash, xs: seq<Hash>): set<Pair>
    decreases |xs|
  {
    if |xs| <= 1 then {} else LevelPairs(xs) + TreePairs(H, NextLevel(H, xs))
  }

  /** By `Verify`. */
  function ClimbPairs(H: PairHash, leaf: Hash, path: seq<Hash>): set<Pair>
    decreases |path|
  {
    if path == [] then {} else {Ordered(leaf, path[0])} + ClimbPairs(H, HashPair(H, leaf, path[0]), path[1..])
  }

  lemma PairAtParent(xs: seq<Hash>, i: nat)
    requires i < |xs|
    ensures Ordered(xs[i], Sibling(xs, i)) in LevelPairs(xs)
  {
    var k := i / 2;
    if i % 2 == 1 {
      assert 2 * k == i - 1 && Sibling(xs, 2 * k) == xs[i];
      OrderTotal(xs[i - 1], xs[i]);
    } else {
      assert 2 * k == i;
    }
    assert Ordered(xs[2 * k], Sibling(xs, 2 * k)) in LevelPairs(xs);
  }

  /** Verifying a proof that the tree itself issued hashes no pair that building the tree did not. */
  lemma {:induction false} OwnPairs(H: PairHash, xs: seq<Hash>, i: nat)
    requires i < |xs|
    ensures ClimbPairs(H, xs[i], Path(H, xs, i)) <= TreePairs(H, xs)
    decreases |xs|
  {
    if |xs| > 1 {
      ParentOf(H, xs, i);
      PairAtParent(xs, i);
      OwnPairs(H, NextLevel(H, xs), i / 2);
      var p := Path(H, xs, i);
      assert p[1..] == Path(H, NextLevel(H, xs), i / 2);
    }
  }

  /** The two ways a pair can have produced the parent `j`. */
  lemma ChildOf(H: PairHash, pairs: set<Pair>, xs: seq<Hash>, j: nat, leaf: Hash, s: Hash) returns (i: nat)
    requires NoCollision(H, pairs) && LevelPairs(xs) <= pairs && Ordered(leaf, s) in pairs
    requires j < |NextLevel(H, xs)| && HashPair(H, leaf, s) == NextLevel(H, xs)[j]
    ensures i < |xs| && i / 2 == j && leaf == xs[i] && s == Sibling(xs, i)
  {
    PairAtParent(xs, 2 * j);
    HashPairDetermines(H, pairs, leaf, s, xs[2 * j], Sibling(xs, 2 * j));
    i := if leaf == xs[2 * j] && s == Sibling(xs, 2 * j) then 2 * j else 2 * j + 1;
  }

  /**
   Soundness by descent from the root: a path as long as the tree is high that leads to the root starts at
   a leaf and is the proof for it, unless two of the pairs hashed on the way collide.
   */
  lemma {:induction false} AcceptedIsLeaf(H: PairHash, pairs: set<Pair>, xs: seq<Hash>, leaf: Hash, path: seq<Hash>)
    returns (i: nat)
    requires NoCollision(H, pairs) && xs != [] && TreePairs(H, xs) <= pairs && ClimbPairs(H, leaf, path) <= pairs
    requires |path| == Height(|xs|) && Climb(H, leaf, path) == Root(H, xs)
    ensures i < |xs| && leaf == xs[i] && path == Path(H, xs, i)
    decreases |xs|
  {
    if |xs| == 1 {
      i := 0;
    } else {
      var j := AcceptedIsLeaf(H, pairs, NextLevel(H, xs), HashPair(H, leaf, path[0]), path[1..]);
      i := ChildOf(H, pairs, xs, j, leaf, path[0]);
      assert path == [path[0]] + path[1..];
    }
  }

  /** The proofs of the right length that are accepted are exactly the tree's own. */
  lemma VerifyExactly(H: PairHash, xs: seq<Hash>, leaf: Hash, path: seq<Hash>)
    requires xs != [] && |path| == Height(|xs|) && NoCollision(H, TreePairs(H, xs) + ClimbPairs(H, leaf, path))
    ensures Climb(H, leaf, path) == Root(H, xs)
       <==> exists i: nat :: i < |xs| && leaf == xs[i] && path == Path(H, xs, i)
  {
    if Climb(H, leaf, path) == Root(H, xs) {
      var i := AcceptedIsLeaf(H, TreePairs(H, xs) + ClimbPairs(H, leaf, path), xs, leaf, path);
    }
    if i: nat :| i < |xs| && leaf == xs[i] && path == Path(H, xs, i) {
      ProofVerifies(H, xs, i);
    }
  }

  /** The nodes `depth` levels above the leaves. */
  function LevelAbove(H: PairHash, xs: seq<Hash>, depth: nat): (ys: seq<Hash>)
    requires xs != []
    ensures ys != []
    decreases depth
  {
    if depth == 0 then xs else LevelAbove(H, NextLevel(H, xs), depth - 1)
  }

  lemma {:induction false} LevelHeight(H: PairHash, xs: seq<Hash>, depth: nat)
    requires xs != [] && depth <= Height(|xs|)
    ensures Height(|LevelAbove(H, xs, depth)|) == Height(|xs|) - depth
    decreases depth
  {
    if depth > 0 {
      LevelHeight(H, NextLevel(H, xs), depth - 1);
    }
  }

  lemma RootAbove(H: PairHash, xs: seq<Hash>)
    requires xs != []
    ensures Root(H, NextLevel(H, xs)) == Root(H, xs) || |xs| == 1
  {
  }

  lemma {:induction false} LevelRoot(H: PairHash, xs: seq<Hash>, depth: nat)
    requires xs != [] && depth <= Height(|xs|)
    ensures Root(H, LevelAbove(H, xs, depth)) == Root(H, xs)
    decreases depth
  {
    if depth > 0 {
      var ys := NextLevel(H, xs);
      RootAbove(H, xs);
      LevelRoot(H, ys, depth - 1);
    }
  }

  lemma PairsNext(H: PairHash, xs: seq<Hash>, ys: seq<Hash>)
    requires |xs| > 1 && ys == NextLevel(H, xs)
    ensures TreePairs(H, ys) <= TreePairs(H, xs)
  {
  }

  lemma LevelStep(H: PairHash, xs: seq<Hash>, depth: nat, next: seq<Hash>)
    requires xs != [] && 0 < depth <= Height(|xs|) && next == NextLevel(H, xs)
    ensures |xs| > 1 && next != [] && depth - 1 <= Height(|next|)
    ensures LevelAbove(H, xs, depth) == LevelAbove(H, next, depth - 1)
  {
  }

  lemma {:induction false} PairsAbove(H: PairHash, xs: seq<Hash>, depth: nat, ys: seq<Hash>)
    requires xs != [] && depth <= Height(|xs|) && ys == LevelAbove(H, xs, depth)
    ensures TreePairs(H, ys) <= TreePairs(H, xs)
    decreases depth
  {
    if depth > 0 {
      var next := NextLevel(H, xs);
      LevelStep(H, xs, depth, next);
      PairsNext(H, xs, next);
      PairsAbove(H, next, depth - 1, ys);
    }
  }

  lemma FewerPairs(H: PairHash, few: set<Pair>, many: set<Pair>)
    requires few <= many && NoCollision(H, many)
    ensures NoCollision(H, few)
  {
  }

  lemma VerifyInside(H: PairHash, pairs: set<Pair>, ys: seq<Hash>, leaf: Hash, path: seq<Hash>)
    requires ys != [] && |path| == Height(|ys|) && TreePairs(H, ys) <= pairs
    requires NoCollision(H, pairs + ClimbPairs(H, leaf, path))
    ensures Climb(H, leaf, path) == Root(H, ys)
       <==> exists i: nat :: i < |ys| && leaf == ys[i] && path == Path(H, ys, i)
  {
    FewerPairs(H, TreePairs(H, ys) + ClimbPairs(H, leaf, path), pairs + ClimbPairs(H, leaf, path));
    VerifyExactly(H, ys, leaf, path);
  }

  /**
   `Verify` does not look at the length of the path. A shorter path is accepted exactly when it proves an
   inner node, as many levels up as the path is too short.
   */
  lemma ShortProofsExactly(H: PairHash, xs: seq<Hash>, leaf: Hash, path: seq<Hash>, depth: nat, ys: seq<Hash>)
    requires xs != [] && depth + |path| == Height(|xs|) && ys == LevelAbove(H, xs, depth)
    requires NoCollision(H, TreePairs(H, xs) + ClimbPairs(H, leaf, path))
    ensures |path| == Height(|ys|)
    ensures Climb(H, leaf, path) == Root(H, xs)
       <==> exists i: nat :: i < |ys| && leaf == ys[i] && path == Path(H, ys, i)
  {
    LevelFacts(H, xs, depth, ys);
    VerifyInside(H, TreePairs(H, xs), ys, leaf, path);
  }

  lemma LevelFacts(H: PairHash, xs: seq<Hash>, depth: nat, ys: seq<Hash>)
    requires xs != [] && depth <= Height(|xs|) && ys == LevelAbove(H, xs, depth)
    ensures Root(H, ys) == Root(H, xs) && Height(|ys|) == Height(|xs|) - depth && TreePairs(H, ys) <= TreePairs(H, xs)
  {
    LevelRoot(H, xs, depth);
    LevelHeight(H, xs, depth);
    PairsAbove(H, xs, depth, ys);
  }

  /** Climbing a path is climbing its first part and then the rest. */
  lemma {:induction false} ClimbParts(H: PairHash, leaf: Hash, path: seq<Hash>, k: nat)
    requires k <= |path|
    ensures Climb(H, leaf, path) == Climb(H, Climb(H, leaf, path[..k]), path[k..])
    ensures ClimbPairs(H, Climb(H, leaf, path[..k]), path[k..]) <= ClimbPairs(H, leaf, path)
    decreases k
  {
    if k == 0 {
      assert path[0..] == path;
    } else {
      ClimbParts(H, HashPair(H, leaf, path[0]), path[1..], k - 1);
      assert path[..k][1..] == path[1..][..k - 1] && path[k..] == path[1..][k - 1..];
    }
  }

  /** A longer path is accepted exactly when its first steps hash up to a leaf and the rest is that leaf's proof. */
  lemma LongProofsExactly(H: PairHash, xs: seq<Hash>, leaf: Hash, path: seq<Hash>)
    requires xs != [] && |path| >= Height(|xs|) && NoCollision(H, TreePairs(H, xs) + ClimbPairs(H, leaf, path))
    ensures var k := |path| - Height(|xs|);
            Climb(H, leaf, path) == Root(H, xs) <==>
              exists i: nat :: i < |xs| && Climb(H, leaf, path[..k]) == xs[i] && path[k..] == Path(H, xs, i)
  {
    var k := |path| - Height(|xs|);
    var start := Climb(H, leaf, path[..k]);
    ClimbParts(H, leaf, path, k);
    FewerPairs(H, TreePairs(H, xs) + ClimbPairs(H, start, path[k..]), TreePairs(H, xs) + ClimbPairs(H, leaf, path));
    VerifyExactly(H, xs, start, path[k..]);
  }

  /** So what lies below a leaf that is itself a hash of two passes for a leaf, which it is only by coincidence. */
  lemma PreimageAccepted(H: PairHash, a: Hash, b: Hash, c: Hash)
    ensures var xs := [HashPair(H, a, b), c];
            && Climb(H, a, [b, c]) == Root(H, xs) && |[b, c]| == Height(|xs|) + 1
            && (a in xs <==> a == HashPair(H, a, b) || a == c)
  {
    var xs := [HashPair(H, a, b), c];
    ProofVerifies(H, xs, 0);
    assert Path(H, xs, 0) == [c] by {
      assert |NextLevel(H, xs)| == 1 && Sibling(xs, 0) == c;
    }
    assert [b, c][1..] == [c];
  }

  /** For every hash there is a tree that accepts something that is no leaf of it. */
  lemma NonLeafAccepted(H: PairHash) returns (xs: seq<Hash>, leaf: Hash, path: seq<Hash>)
    ensures |path| > Height(|xs|) && xs != [] && Climb(H, leaf, path) == Root(H, xs) && leaf !in xs
  {
    var zero: Hash, one: Hash := seq(32, _ => 0), seq(32, _ => 1);
    assert zero[0] != one[0];
    HashPairCommutes(H, zero, one);
    var a := if HashPair(H, zero, one) == zero then one else zero;
    var b := if HashPair(H, zero, one) == zero then zero else one;
    xs, leaf, path := [HashPair(H, a, b), b], a, [b, b];
    PreimageAccepted(H, a, b, b);
  }

  /** So an inner node passes for a leaf, although it is none. */
  lemma InnerNodeAccepted(H: PairHash, xs: seq<Hash>)
    requires |xs| > 1 && NextLevel(H, xs)[0] !in xs
    ensures exists leaf: Hash, path: seq<Hash> :: leaf !in xs && Climb(H, leaf, path) == Root(H, xs)
  {
    var ys := NextLevel(H, xs);
    ProofVerifies(H, ys, 0);
    assert Climb(H, ys[0], Path(H, ys, 0)) == Root(H, xs);
  }

  // The height is the logarithm of the number of leaves, rounded up.

  lemma {:induction false} HeightIsLog(n: nat)
    requires n >= 1
    ensures n <= Pow2(Height(n))
    ensures n > 1 ==> Pow2(Height(n) - 1) < n
  {
    if n > 1 {
      HeightIsLog((n + 1) / 2);
    }
  }

  /** Exchanging two siblings at the bottom does not change the root. */
  lemma SiblingSwap(H: PairHash, xs: seq<Hash>, k: nat)
    requires 2 * k + 1 < |xs|
    ensures Root(H, xs[2 * k := xs[2 * k + 1]][2 * k + 1 := xs[2 * k]]) == Root(H, xs)
  {
    var ys := xs[2 * k := xs[2 * k + 1]][2 * k + 1 := xs[2 * k]];
    forall i | 0 <= i < (|xs| + 1) / 2 ensures NextLevel(H, ys)[i] == NextLevel(H, xs)[i] {
      if i == k { HashPairCommutes(H, xs[2 * k], xs[2 * k + 1]); }
    }
    assert NextLevel(H, ys) == NextLevel(H, xs);
  }

  // ---------------------------------------------------------------------------
  // The code
  // ---------------------------------------------------------------------------

  datatype Leaf = Leaf(recordId: string, hash: Hash)

  datatype Tree = Tree(leaves: seq<Hash>, levels: seq<seq<Hash>>)

  datatype Proof = Proof(leaf: Hash, path: seq<Hash>)

  /** A tree as `Build` makes it. */
  predicate Built(H: PairHash, t: Tree) {
    t.leaves != [] && t.levels == Levels(H, t.leaves)
  }

  /** The levels of a tree stack up: the rest of the list are the levels of the next one. */
  lemma {:induction false} LevelsAt(H: PairHash, xs: seq<Hash>, k: nat)
    requires xs != [] && k < |Levels(H, xs)|
    ensures Levels(H, xs)[k] != [] && Levels(H, xs)[k..] == Levels(H, Levels(H, xs)[k])
    decreases k
  {
    if k > 0 {
      LevelsAt(H, NextLevel(H, xs), k - 1);
      assert Levels(H, xs)[k..] == Levels(H, NextLevel(H, xs))[k - 1..];
    }
  }

  lemma {:induction false} LevelCount(H: PairHash, xs: seq<Hash>)
    requires xs != []
    ensures |Levels(H, xs)| == Height(|xs|) + 1
    ensures Levels(H, xs)[Height(|xs|)] == [Root(H, xs)]
    decreases |xs|
  {
    if |xs| > 1 {
      LevelCount(H, NextLevel(H, xs));
    }
  }

  /** Each node hashes the two below it, the one before first; a last one alone is hashed with itself. */
  ghost predicate Hashed(H: PairHash, level: seq<Hash>, next: seq<Hash>) {
    && |next| == (|level| + 1) / 2
    && forall i: nat :: i < |next| ==> NodeHashed(H, level, i, next[i])
  }

  ghost predicate NodeHashed(H: PairHash, level: seq<Hash>, i: nat, node: Hash)
    requires 2 * i < |level|
  {
    var left, right := level[2 * i], if 2 * i + 1 < |level| then level[2 * i + 1] else level[2 * i];
    && (left == right ==> node == H(left, left))
    && (Before(left, right) ==> node == H(left, right))
    && (Before(right, left) ==> node == H(right, left))
  }

  lemma NextIsHashed(H: PairHash, level: seq<Hash>)
    ensures Hashed(H, level, NextLevel(H, level))
  {
    var next := NextLevel(H, level);
    forall i: nat | i < |next| ensures NodeHashed(H, level, i, next[i]) {
      HashPairIs(H, level[2 * i], Sibling(level, 2 * i));
    }
  }

  /** The levels from the leaves to the root. */
  ghost predicate AllHashed(H: PairHash, levels: seq<seq<Hash>>) {
    && levels != [] && |levels[|levels| - 1]| == 1
    && forall k: nat :: k + 1 < |levels| ==> Hashed(H, levels[k], levels[k + 1])
  }

  lemma {:induction false} LevelsHashed(H: PairHash, xs: seq<Hash>)
    requires xs != []
    ensures AllHashed(H, Levels(H, xs))
    decreases |xs|
  {
    if |xs| > 1 {
      var ls, above := Levels(H, xs), Levels(H, NextLevel(H, xs));
      LevelsHashed(H, NextLevel(H, xs));
      NextIsHashed(H, xs);
      forall k: nat | k + 1 < |ls| ensures Hashed(H, ls[k], ls[k + 1]) {
        if k > 0 {
          assert ls[k] == above[k - 1] && ls[k + 1] == above[k];
          assert Hashed(H, above[k - 1], above[k]);
        }
      }
    }
  }

  /** One pass over a level, two nodes at a time. */
  method PairUp(H: PairHash, current: seq<Hash>) returns (next: seq<Hash>)
    ensures next == NextLevel(H, current) && Hashed(H, current, next)
  {
    next := [];
    var i := 0;
    while i < |current|
      invariant 0 <= i <= |current| + 1 && i == 2 * |next|
      invariant |next| <= (|current| + 1) / 2 && next == NextLevel(H, current)[..|next|]
    {
      ghost var k := |next|;
      if i + 1 < |current| {
        next := next + [HashPair(H, current[i], current[i + 1])];
      } else {
        next := next + [HashPair(H, current[i], current[i])];
      }
      assert next[k] == NextLevel(H, current)[k];
      i := i + 2;
    }
    NextIsHashed(H, current);
  }

  /**
   `Build`: fails exactly for no leaves; otherwise level 0 holds the leaf hashes, every other level the hashes of the
   pairs below, and the last level one hash.
   */
  method Build(H: PairHash, leaves: seq<Leaf>) returns (r: Result<Tree>)
    ensures r.Failure? <==> leaves == []
    ensures r.Success? ==> Built(H, r.value) && AllHashed(H, r.value.levels) && r.value.levels[0] == r.value.leaves
    ensures r.Success? ==> r.value.leaves == seq(|leaves|, i requires 0 <= i < |leaves| => leaves[i].hash)
  {
    if |leaves| == 0 {
      return Failure("cannot build merkle tree from zero leaves");
    }
    var hashes: seq<Hash> := [];
    for i := 0 to |leaves|
      invariant |hashes| == i && forall k :: 0 <= k < i ==> hashes[k] == leaves[k].hash
    {
      hashes := hashes + [leaves[i].hash];
    }
    var levels := BuildLevels(H, hashes);
    LevelsHashed(H, hashes);
    return Success(Tree(hashes, levels));
  }

  lemma LevelsMore(H: PairHash, front: seq<seq<Hash>>, current: seq<Hash>)
    requires |current| > 1
    ensures front + Levels(H, current) == (front + [current]) + Levels(H, NextLevel(H, current))
  {
    var above := Levels(H, NextLevel(H, current));
    assert front + ([current] + above) == (front + [current]) + above;
  }

  /** The level loop of `Build`. */
  method BuildLevels(H: PairHash, hashes: seq<Hash>) returns (levels: seq<seq<Hash>>)
    requires hashes != []
    ensures levels == Levels(H, hashes)
  {
    levels := [hashes];
    var current := hashes;
    ghost var front: seq<seq<Hash>>, goal := [], Levels(H, hashes);
    while |current| > 1
      invariant current != [] && levels == front + [current] && front + Levels(H, current) == goal
      decreases |current|
    {
      var next := PairUp(H, current);
      LevelsMore(H, front, current);
      front := front + [current];
      levels := levels + [next];
      current := next;
    }
  }

  /** `Root`. */
  method RootOf(H: PairHash, t: Tree) returns (root: Hash)
    requires Built(H, t)
    ensures root == Root(H, t.leaves) && t.levels[|t.levels| - 1] == [root]
  {
    LevelCount(H, t.leaves);
    var top := t.levels[|t.levels| - 1];
    return top[0];
  }

  /** One level of `ProofFor`: the sibling's position, or the node's own when it has none. */
  method SiblingAt(levelNodes: seq<Hash>, idx: nat) returns (h: Hash)
    requires idx < |levelNodes|
    ensures h == Sibling(levelNodes, idx)
  {
    var siblingIdx := if idx % 2 == 0 then idx + 1 else idx - 1;
    if siblingIdx < |levelNodes| {
      return levelNodes[siblingIdx];
    }
    return levelNodes[idx];
  }

  lemma NextOfLevels(H: PairHash, t: Tree, k: nat)
    requires Built(H, t) && k + 1 < |t.levels|
    ensures |t.levels[k]| > 1 && t.levels[k + 1] == NextLevel(H, t.levels[k])
  {
    LevelsAt(H, t.leaves, k);
    assert t.levels[k + 1] == t.levels[k..][1];
  }

  /** Moving the sibling at one level from the proof still to be found to the proof found so far. */
  lemma PathStep(H: PairHash, path: seq<Hash>, xs: seq<Hash>, i: nat, s: Hash)
    requires i < |xs| && |xs| > 1 && s == Sibling(xs, i)
    ensures path + Path(H, xs, i) == (path + [s]) + Path(H, NextLevel(H, xs), i / 2)
  {
    var rest := Path(H, NextLevel(H, xs), i / 2);
    assert path + ([s] + rest) == (path + [s]) + rest;
  }

  /** `ProofFor`: fails exactly out of range; the proof is as long as the tree is high and verifies. */
  method ProofFor(H: PairHash, t: Tree, leafIndex: int) returns (r: Result<Proof>)
    requires Built(H, t)
    ensures r.Failure? <==> !(0 <= leafIndex < |t.leaves|)
    ensures r.Success? ==> r.value == Proof(t.leaves[leafIndex], Path(H, t.leaves, leafIndex))
    ensures r.Success? ==> Climb(H, r.value.leaf, r.value.path) == Root(H, t.leaves)
    ensures r.Success? ==> |r.value.path| == Height(|t.leaves|)
  {
    if leafIndex < 0 || leafIndex >= |t.leaves| {
      return Failure("leaf index out of range");
    }
    ghost var goal := Path(H, t.leaves, leafIndex);
    var path: seq<Hash> := [];
    var idx := leafIndex;
    for level := 0 to |t.levels| - 1
      invariant 0 <= idx < |t.levels[level]|
      invariant path + Path(H, t.levels[level], idx) == goal
    {
      NextOfLevels(H, t, level);
      var sibling := SiblingAt(t.levels[level], idx);
      PathStep(H, path, t.levels[level], idx, sibling);
      path := path + [sibling];
      idx := idx / 2;
    }
    LevelCount(H, t.leaves);
    ProofVerifies(H, t.leaves, leafIndex);
    return Success(Proof(t.leaves[leafIndex], path));
  }

  /** `Verify`. */
  method Verify(H: PairHash, proof: Proof, root: Hash) returns (ok: bool)
    ensures ok <==> Climb(H, proof.leaf, proof.path) == root
  {
    var computed := proof.leaf;
    for k := 0 to |proof.path|
      invariant Climb(H, computed, proof.path[k..]) == Climb(H, proof.leaf, proof.path)
    {
      assert proof.path[k..][1..] == proof.path[k + 1..];
      computed := HashPair(H, computed, proof.path[k]);
    }
    return computed == root;
  }
}

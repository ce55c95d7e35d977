/**
 * The sample tree of `Main.testBaum`: a root with content 4 and four children
 * with contents 0 to 3, each with four leaves with contents 0 to 3. The program
 * builds it twice and compares the two copies and their hashes.
 */
module Scenario {
  import opened Wrappers
  import opened JavaInts
  import opened TreeShape
  import opened ArrayTrees

  /** `Integer.hashCode`: the value itself. */
  function IntegerHash(x: int): i32
  {
    Wrap(x)
  }

  /** The shape `testBaum` builds. */
  function TestBaum(): Shape<int>
  {
    Node(Some(4), seq(4, i => Node(Some(i), seq(4, j => Node(Some(j), [])))))
  }

  /** The sample tree has 21 nodes: the root, four children and sixteen leaves. */
  lemma TestBaumSize()
    ensures Size(TestBaum()) == 21
  {
    forall i | 0 <= i < 4
      ensures Size(TestBaum().kids[i]) == 5
    {
      UniformSize(TestBaum().kids[i], 1);
    }
    UniformSize(TestBaum(), 5);
  }

  /**
   * Two separately built copies of the sample tree (distinct nodes with disjoint
   * subtrees, wherever they sit in the forest) count 21 nodes, compare equal, and
   * hash alike.
   */
  method CompareCopies(a: ArrayTree<int>, b: ArrayTree<int>, ghost U: set<ArrayTree<int>>)
    returns (size: int, equal: bool, hashA: i32, hashB: i32)
    requires Wf(U) && a in U && b in U && a != b && Sub(a, U) !! Sub(b, U)
    requires ShapeOf(a, U) == TestBaum() && ShapeOf(b, U) == TestBaum()
    ensures size == 21 && equal && hashA == hashB
  {
    TestBaumSize();
    size := a.Size(U);
    equal := a.Equals(b, U);
    hashA := a.HashCode(IntegerHash, U);
    hashB := b.HashCode(IntegerHash, U);
  }
}

/** uptree and Tree.tree: the Collatz tree grown upwards from a root,
    generation by generation (collatz.py:203-256). */
module UpTrees {
  import opened Steps
  import opened Sorting

  /** uptree: the numbers that one standard step sends to n, the doubling
      first and, when n is 4 mod 6, the odd predecessor (n - 1) / 3 second. */
  function UpTree(n: int): (m: seq<int>)
    ensures 1 <= |m| <= 2
    ensures m[0] == 2 * n
    ensures |m| == 2 <==> n % 6 == 4
    ensures forall x :: x in m <==> Step(x) == n
    ensures n >= 1 ==> forall x :: x in m ==> x >= 1
  {
    PredecessorsOf(n);
    if n % 6 == 4 then [2 * n, (n - 1) / 3] else [2 * n]
  }

  /** x is sent to n by one standard step exactly when x is 2n, or n is 4
      mod 6 and x is the odd number (n - 1) / 3. */
  lemma PredecessorsOf(n: int)
    ensures forall x :: Step(x) == n <==> x == 2 * n || (n % 6 == 4 && x == (n - 1) / 3)
  {
    forall x
      ensures Step(x) == n <==> x == 2 * n || (n % 6 == 4 && x == (n - 1) / 3)
    {
      var q := n / 6;
      assert n == 6 * q + n % 6;
      if x % 2 == 1 {
        var j := x / 2;
        assert x == 2 * j + 1;
        assert Step(x) == 6 * j + 4;
        if Step(x) == n {
          assert n % 6 == 4 && q == j;
        }
      }
      if n % 6 == 4 {
        assert (n - 1) / 3 == 2 * q + 1;
      }
    }
  }

  /** One pass of the inner loop of Tree.tree: uptree of every number of
      the generation g, in order, concatenated. */
  function NextGeneration(g: seq<int>): (r: seq<int>)
    ensures |g| <= |r| <= 2 * |g|
    decreases |g|
  {
    if |g| == 0 then [] else NextGeneration(g[..|g| - 1]) + UpTree(g[|g| - 1])
  }

  /** x is in the next generation exactly when one standard step sends it
      to a number of g. */
  lemma {:induction false} NextGenerationMembership(g: seq<int>, x: int)
    ensures x in NextGeneration(g) <==> Step(x) in g
    decreases |g|
  {
    if |g| > 0 {
      var init := g[..|g| - 1];
      NextGenerationMembership(init, x);
      assert g == init + [g[|g| - 1]];
      assert Step(x) in g <==> Step(x) in init || Step(x) == g[|g| - 1];
    }
  }

  /** Generation i of the tree rooted at root: the root alone, then
      uptree applied i times, generation by generation. */
  function Generation(root: int, i: nat): (g: seq<int>)
    ensures |g| >= 1
    decreases i
  {
    if i == 0 then [root] else NextGeneration(Generation(root, i - 1))
  }

  /** The numbers of all generations, in production order. */
  function Flatten(gs: seq<seq<int>>): seq<int>
    decreases |gs|
  {
    if |gs| == 0 then [] else Flatten(gs[..|gs| - 1]) + gs[|gs| - 1]
  }

  lemma FlattenSingle(x: int)
    ensures Flatten([[x]]) == [x]
  {
    assert [[x]][..0] == [];
  }

  lemma FlattenAppend(gs: seq<seq<int>>, g: seq<int>)
    ensures Flatten(gs + [g]) == Flatten(gs) + g
  {
    assert (gs + [g])[..|gs|] == gs;
  }

  /** Generation i holds exactly the numbers that reach the root in i
      standard steps: every predecessor is found, and nothing else. */
  lemma {:induction false} GenerationMembership(root: int, i: nat, x: int)
    ensures x in Generation(root, i) <==> Iterate(x, i) == root
    decreases i
  {
    if i > 0 {
      var g := Generation(root, i - 1);
      assert Generation(root, i) == NextGeneration(g);
      GenerationMembership(root, i - 1, Step(x));
      NextGenerationMembership(g, x);
      assert Iterate(x, i) == Iterate(Step(x), i - 1);
    }
  }

  /** Any list of generations 0 to |gs| - 1 starts at the root, grows by
      uptree between one and two times per generation, and holds in
      generation i exactly the numbers i standard steps above the root. */
  lemma GenerationsShape(root: int, gs: seq<seq<int>>)
    requires |gs| >= 1
    requires forall i :: 0 <= i < |gs| ==> gs[i] == Generation(root, i)
    ensures gs[0] == [root]
    ensures forall i :: 0 < i < |gs| ==> gs[i] == NextGeneration(gs[i - 1])
    ensures forall i :: 0 < i < |gs| ==> |gs[i - 1]| <= |gs[i]| <= 2 * |gs[i - 1]|
    ensures forall i, x :: 0 <= i < |gs| ==> (x in gs[i] <==> Iterate(x, i) == root)
  {
    forall i, x | 0 <= i < |gs|
      ensures x in gs[i] <==> Iterate(x, i) == root
    {
      GenerationMembership(root, i, x);
    }
  }

  /** The Tree object: a root and a height. */
  datatype Tree = Tree(root: int, steps: int)

  /** range(1, steps + 1) is empty for steps <= 0. */
  function Depth(t: Tree): nat {
    if t.steps <= 0 then 0 else t.steps
  }

  /** The inner for loop of Tree.tree: extend the new generation by uptree
      of each number of the last one, in order. */
  method Expand(last: seq<int>) returns (nextbranch: seq<int>)
    ensures nextbranch == NextGeneration(last)
  {
    nextbranch := [];
    var i := 0;
    while i < |last|
      invariant 0 <= i <= |last|
      invariant nextbranch == NextGeneration(last[..i])
    {
      assert last[..i + 1][..i] == last[..i];
      nextbranch := nextbranch + UpTree(last[i]);
      i := i + 1;
    }
    assert last[..|last|] == last;
  }

  /** The outer for loop of Tree.tree: generations 1 to d, each appended
      both to the list of generations and to the running list of numbers. */
  method Grow(root: int, d: nat) returns (tree: seq<int>, branches: seq<seq<int>>)
    ensures |branches| == d + 1
    ensures forall i :: 0 <= i < |branches| ==> branches[i] == Generation(root, i)
    ensures tree == Flatten(branches)
  {
    tree := [root];
    branches := [[root]];
    FlattenSingle(root);
    var step := 1;
    while step <= d
      invariant 1 <= step <= d + 1
      invariant |branches| == step
      invariant forall i :: 0 <= i < step ==> branches[i] == Generation(root, i)
      invariant tree == Flatten(branches)
    {
      var nextbranch := Expand(branches[step - 1]);
      FlattenAppend(branches, nextbranch);
      tree := tree + nextbranch;
      branches := branches + [nextbranch];
      step := step + 1;
    }
  }

  /** Tree.tree: the sorted numbers of the tree, duplicates kept, and the
      generations in production order. */
  method Build(t: Tree) returns (flat: seq<int>, branches: seq<seq<int>>)
    ensures |branches| == Depth(t) + 1 && branches[0] == [t.root]
    ensures forall i :: 0 < i < |branches| ==> branches[i] == NextGeneration(branches[i - 1])
    ensures forall i :: 0 < i < |branches| ==>
              |branches[i - 1]| <= |branches[i]| <= 2 * |branches[i - 1]|
    ensures forall i, x :: 0 <= i < |branches| ==> (x in branches[i] <==> Iterate(x, i) == t.root)
    ensures Sorted(flat) && multiset(flat) == multiset(Flatten(branches))
    ensures t.steps <= 0 ==> flat == [t.root] && branches == [[t.root]]
  {
    var tree;
    tree, branches := Grow(t.root, Depth(t));
    flat := Sort(tree);
    GenerationsShape(t.root, branches);
    if t.steps <= 0 {
      assert branches == [[t.root]];
      assert flat[0] in multiset(flat);
    }
  }

  /** uptree(4) == [8, 1] and uptree(5) == [10]. */
  lemma UpTreeExamples()
    ensures UpTree(4) == [8, 1]
    ensures UpTree(5) == [10]
  {
  }

  /** The tree of 5 one step up: generations [[5], [10]], numbers [5, 10],
      already in ascending order. */
  lemma TreeOfFiveExample()
    ensures Generation(5, 0) == [5] && Generation(5, 1) == [10]
    ensures Flatten([[5], [10]]) == [5, 10]
    ensures Sort([5, 10]) == [5, 10]
  {
    assert [5][..0] == [];
    assert NextGeneration([5]) == [10];
    FlattenSingle(5);
    FlattenAppend([[5]], [10]);
    SortFiveTen();
  }

  lemma SortFiveTen()
    ensures Sort([5, 10]) == [5, 10]
  {
    assert [5][..0] == [];
    assert Sort([5]) == Insert(5, []) == [5];
    assert [5, 10][..1] == [5];
    assert Insert(10, []) == [10];
    assert Insert(10, [5]) == [5] + Insert(10, [5][1..]) == [5, 10];
  }
}

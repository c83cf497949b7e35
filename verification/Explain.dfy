// The explain plan (sdk/printers/explain.printer.go): a preorder list of nodes with child counts is
// drained from a channel into a tree, and the tree is printed level by level.
module Explain {
  import Decimal

  datatype PlanNode = PlanNode(alias: string, childrenNum: nat, uql: string, infos: string)

  /** A tree as the Go code builds it: a channel that runs dry leaves nil children. */
  datatype Tree = Nil | Tree(plan: PlanNode, children: seq<Tree>)

  // ---- parsing ----

  /** buildTree: one tree from the front of the list, and what is left of the list. */
  function Build(list: seq<PlanNode>): (r: (Tree, seq<PlanNode>))
    ensures |r.1| <= |list|
    ensures list != [] ==> |r.1| < |list|
    decreases |list|, 1, 0
  {
    if list == [] then (Nil, [])
    else
      var (children, rest) := BuildForest(list[0].childrenNum, list[1..]);
      (Tree(list[0], children), rest)
  }

  /** The child loop of buildTree: `n` trees, one after the other. */
  function BuildForest(n: nat, list: seq<PlanNode>): (r: (seq<Tree>, seq<PlanNode>))
    ensures |r.0| == n && |r.1| <= |list|
    decreases |list|, 2, n
  {
    if n == 0 then ([], list)
    else
      var (front, middle) := BuildForest(n - 1, list);
      var (last, rest) := Build(middle);
      (front + [last], rest)
  }

  /** The closed channel the plan nodes are drained from. */
  class Channel {
    var items: seq<PlanNode>

    constructor (items: seq<PlanNode>)
      ensures this.items == items
    {
      this.items := items;
    }

    method Receive() returns (record: PlanNode)
      requires items != []
      modifies this
      ensures [record] + items == old(items)
    {
      record := items[0];
      items := items[1..];
    }
  }

  method BuildTree(graphs: Channel) returns (tree: Tree)
    modifies graphs
    ensures (tree, graphs.items) == Build(old(graphs.items))
    decreases |graphs.items|
  {
    if graphs.items == [] {
      return Nil;
    }
    ghost var list := graphs.items;
    var record := graphs.Receive();
    assert list[1..] == graphs.items;
    var childNodes: seq<Tree> := [];
    for i := 0 to record.childrenNum
      invariant |graphs.items| < |list|
      invariant (childNodes, graphs.items) == BuildForest(i, list[1..])
    {
      var node := BuildTree(graphs);
      childNodes := childNodes + [node];
    }
    tree := Tree(record, childNodes);
  }

  // ---- trees ----

  /** No child is nil. */
  predicate NoNil(t: Tree) {
    t.Tree? && forall c :: c in t.children ==> NoNil(c)
  }

  predicate NoNils(ts: seq<Tree>) {
    forall t :: t in ts ==> NoNil(t)
  }

  /** A plan tree: no nil, and every node announces the children it has. */
  predicate Plan(t: Tree) {
    t.Tree? && t.plan.childrenNum == |t.children| && forall c :: c in t.children ==> Plan(c)
  }

  predicate Plans(ts: seq<Tree>) {
    forall t :: t in ts ==> Plan(t)
  }

  function Preorder(t: Tree): (r: seq<PlanNode>)
    requires NoNil(t)
    decreases t, 0
  {
    [t.plan] + PreorderAll(t.children)
  }

  function PreorderAll(ts: seq<Tree>): seq<PlanNode>
    requires NoNils(ts)
    decreases ts, 1
  {
    if ts == [] then [] else PreorderAll(ts[..|ts| - 1]) + Preorder(ts[|ts| - 1])
  }

  lemma {:induction false} PlanHasNoNil(t: Tree)
    requires Plan(t)
    ensures NoNil(t)
    decreases t
  {
    forall c | c in t.children ensures NoNil(c) {
      PlanHasNoNil(c);
    }
  }

  lemma PlansHaveNoNil(ts: seq<Tree>)
    requires Plans(ts)
    ensures NoNils(ts)
  {
    forall t | t in ts ensures NoNil(t) {
      PlanHasNoNil(t);
    }
  }

  // ---- forests ----

  /** Building a and then b trees is building a + b of them. */
  lemma {:induction false} ForestSplits(a: nat, b: nat, list: seq<PlanNode>)
    ensures var (front, middle) := BuildForest(a, list);
      var (back, rest) := BuildForest(b, middle);
      BuildForest(a + b, list) == (front + back, rest)
    decreases b
  {
    var (front, middle) := BuildForest(a, list);
    if b == 0 {
      assert BuildForest(0, middle) == ([], middle) && front + [] == front;
    } else {
      ForestSplits(a, b - 1, list);
      var (back, rest) := BuildForest(b - 1, middle);
      var (last, end) := Build(rest);
      assert BuildForest(b, middle) == (back + [last], end);
      assert front + (back + [last]) == (front + back) + [last];
    }
  }

  lemma SingleForest(list: seq<PlanNode>)
    ensures BuildForest(1, list) == ([Build(list).0], Build(list).1)
  {
    assert BuildForest(0, list) == ([], list) && [] + [Build(list).0] == [Build(list).0];
  }

  /** Taking the first node off turns `n` wanted trees into its children and the other n - 1. */
  lemma ForestStep(n: nat, list: seq<PlanNode>)
    requires n > 0 && list != []
    ensures var c := list[0].childrenNum;
      var (flat, flatRest) := BuildForest(c + (n - 1), list[1..]);
      var (ts, rest) := BuildForest(n, list);
      && rest == flatRest && |flat| >= c
      && ts == [Tree(list[0], flat[..c])] + flat[c..]
  {
    var c := list[0].childrenNum;
    SingleForest(list);
    ForestSplits(1, n - 1, list);
    ForestSplits(c, n - 1, list[1..]);
    var (children, middle) := BuildForest(c, list[1..]);
    var (others, rest) := BuildForest(n - 1, middle);
    assert (children + others)[..c] == children && (children + others)[c..] == others;
  }

  lemma NoNilsStep(plan: PlanNode, flat: seq<Tree>, c: nat)
    requires c <= |flat|
    ensures NoNils([Tree(plan, flat[..c])] + flat[c..]) <==> NoNils(flat)
  {
    var ts := [Tree(plan, flat[..c])] + flat[c..];
    assert flat == flat[..c] + flat[c..];
    assert forall t :: t in ts <==> t == Tree(plan, flat[..c]) || t in flat[c..];
    assert forall t :: t in flat <==> t in flat[..c] || t in flat[c..];
    if NoNils(ts) {
      assert NoNil(Tree(plan, flat[..c]));
    }
  }

  // ---- exactly which lists parse ----

  function ChildSum(list: seq<PlanNode>): nat {
    if list == [] then 0 else list[0].childrenNum + ChildSum(list[1..])
  }

  /** How many subtrees are still wanted after the first `k` nodes, when `n` were wanted at first. */
  function Pending(n: nat, list: seq<PlanNode>, k: nat): int
    requires k <= |list|
  {
    n + ChildSum(list[..k]) - k
  }

  /** The pending count stays positive on every proper prefix and reaches zero at the end. */
  ghost predicate Balanced(n: nat, list: seq<PlanNode>) {
    && (forall k :: 0 <= k < |list| ==> Pending(n, list, k) > 0)
    && Pending(n, list, |list|) == 0
  }

  lemma PendingStep(n: nat, list: seq<PlanNode>, k: nat)
    requires list != [] && 1 <= k <= |list| && n > 0
    ensures Pending(n, list, k) == Pending(list[0].childrenNum + (n - 1), list[1..], k - 1)
  {
    assert list[..k][1..] == list[1..][..k - 1];
  }

  lemma BalancedStep(n: nat, list: seq<PlanNode>)
    requires list != []
    ensures Balanced(n, list) <==> n > 0 && Balanced(list[0].childrenNum + (n - 1), list[1..])
  {
    assert Pending(n, list, 0) == n;
    if n > 0 {
      forall k | 1 <= k <= |list|
        ensures Pending(n, list, k) == Pending(list[0].childrenNum + (n - 1), list[1..], k - 1)
      {
        PendingStep(n, list, k);
      }
      if Balanced(n, list) {
        var more, tail := list[0].childrenNum + (n - 1), list[1..];
        forall k | 0 <= k < |tail| ensures Pending(more, tail, k) > 0 {
          assert Pending(n, list, k + 1) > 0;
        }
      }
    }
  }

  lemma BalancedEmpty(n: nat)
    ensures Balanced(n, []) <==> n == 0
  {
    assert Pending(n, [], 0) == n;
  }

  /** `n` trees use the whole list and leave no nil exactly when the list is balanced. */
  lemma {:induction false} ForestExactly(n: nat, list: seq<PlanNode>)
    ensures NoNils(BuildForest(n, list).0) && BuildForest(n, list).1 == [] <==> Balanced(n, list)
    decreases |list|
  {
    if list == [] {
      BalancedEmpty(n);
      if n > 0 {
        EmptyForest(n);
      }
    } else {
      BalancedStep(n, list);
      if n > 0 {
        ForestExactly(list[0].childrenNum + (n - 1), list[1..]);
        ForestStep(n, list);
        NoNilsStep(list[0], BuildForest(list[0].childrenNum + (n - 1), list[1..]).0, list[0].childrenNum);
      }
    }
  }

  lemma {:induction false} EmptyForest(n: nat)
    requires n > 0
    ensures !NoNils(BuildForest(n, []).0)
  {
    var (front, rest) := BuildForest(n - 1, []);
    assert rest == [] && Build([]) == (Nil, []);
    assert BuildForest(n, []) == (front + [Nil], []);
    assert Nil in front + [Nil];
  }

  /** buildTree uses the whole list and leaves no nil child if and only if the pending-children count
      stays positive on every proper prefix and reaches zero at the end. */
  lemma BuildExactly(list: seq<PlanNode>)
    ensures NoNil(Build(list).0) && Build(list).1 == [] <==> Balanced(1, list)
  {
    ForestExactly(1, list);
    SingleForest(list);
    assert NoNils([Build(list).0]) <==> NoNil(Build(list).0);
  }

  // ---- round trips ----

  lemma Associate<T>(a: seq<T>, b: seq<T>, c: seq<T>)
    ensures (a + b) + c == a + (b + c)
  {
  }

  lemma {:induction false} PreorderAllAppend(a: seq<Tree>, b: seq<Tree>)
    requires NoNils(a) && NoNils(b)
    ensures NoNils(a + b) && PreorderAll(a + b) == PreorderAll(a) + PreorderAll(b)
    decreases |b|
  {
    if b == [] {
      assert a + b == a;
    } else {
      assert (a + b)[..|a + b| - 1] == a + b[..|b| - 1];
      PreorderAllAppend(a, b[..|b| - 1]);
      hide NoNil, Preorder;
      Associate(PreorderAll(a), PreorderAll(b[..|b| - 1]), Preorder(b[|b| - 1]));
    }
  }

  /** Parsing a tree's preorder list gives the tree back and touches nothing after it. */
  lemma {:induction false} BuildOfPreorder(t: Tree, extra: seq<PlanNode>)
    requires Plan(t)
    ensures NoNil(t) && Build(Preorder(t) + extra) == (t, extra)
    decreases t, 0
  {
    hide BuildForest, PreorderAll, NoNil;
    PlanHasNoNil(t);
    ForestOfPreorder(t.children, extra);
    var list := Preorder(t) + extra;
    assert list[0] == t.plan && list[1..] == PreorderAll(t.children) + extra;
  }

  lemma {:induction false} ForestOfPreorder(ts: seq<Tree>, extra: seq<PlanNode>)
    requires Plans(ts)
    ensures NoNils(ts) && BuildForest(|ts|, PreorderAll(ts) + extra) == (ts, extra)
    decreases ts, 1
  {
    PlansHaveNoNil(ts);
    if ts == [] {
      assert PreorderAll(ts) + extra == extra;
    } else {
      var front, last := ts[..|ts| - 1], ts[|ts| - 1];
      assert ts == front + [last] && last in ts;
      PlansSplit(front, [last]);
      hide Plan, Plans;
      ForestOfPreorder(front, Preorder(last) + extra);
      BuildOfPreorder(last, extra);
      assert PreorderAll(ts) == PreorderAll(front) + Preorder(last);
      hide PreorderAll, Preorder, Build, NoNil, NoNils;
      Associate(PreorderAll(front), Preorder(last), extra);
    }
  }

  lemma SingleTree(t: Tree)
    requires NoNil(t)
    ensures NoNils([t]) && PreorderAll([t]) == Preorder(t)
  {
    assert [t][..0] == [];
    assert PreorderAll([]) + Preorder(t) == Preorder(t);
  }

  lemma PlansSplit(a: seq<Tree>, b: seq<Tree>)
    requires Plans(a + b)
    ensures Plans(a) && Plans(b)
  {
    hide Plan;
    assert forall t :: t in a ==> t in a + b;
    assert forall t :: t in b ==> t in a + b;
  }

  /** A node above the first trees of a plan forest makes a plan forest. */
  lemma PlansAbove(plan: PlanNode, children: seq<Tree>, others: seq<Tree>)
    requires plan.childrenNum == |children| && Plans(children + others)
    ensures var tree := Tree(plan, children);
      && Plan(tree) && Plans([tree] + others)
      && NoNil(tree) && NoNils([tree]) && NoNils(children) && NoNils(others) && NoNils([tree] + others)
      && NoNils(children + others)
      && Preorder(tree) == [plan] + PreorderAll(children)
  {
    var tree := Tree(plan, children);
    PlansSplit(children, others);
    assert Plan(tree);
    assert Plans([tree] + others) by {
      hide Plan;
      assert forall t :: t in [tree] + others ==> t == tree || t in others;
    }
    PlansSplit([tree], others);
    hide Plan, Plans;
    PlanHasNoNil(tree);
    PlansHaveNoNil(children + others);
    PlansHaveNoNil(children);
    PlansHaveNoNil(others);
    PlansHaveNoNil([tree]);
    PlansHaveNoNil([tree] + others);
    hide NoNil, NoNils, PreorderAll;
  }

  /** Putting a node above the first `c` trees puts it first in the preorder list. */
  lemma PreorderStep(plan: PlanNode, flat: seq<Tree>)
    requires plan.childrenNum <= |flat| && Plans(flat)
    ensures var ts := [Tree(plan, flat[..plan.childrenNum])] + flat[plan.childrenNum..];
      NoNils(flat) && Plans(ts) && NoNils(ts) && PreorderAll(ts) == [plan] + PreorderAll(flat)
  {
    hide *;
    var children, others := flat[..plan.childrenNum], flat[plan.childrenNum..];
    var tree := Tree(plan, children);
    assert flat == children + others;
    PlansAbove(plan, children, others);
    PreorderAllAppend(children, others);
    SingleTree(tree);
    PreorderAllAppend([tree], others);
    Associate([plan], PreorderAll(children), PreorderAll(others));
  }

  /** What is parsed without a nil is a plan forest whose preorder list is the part of the list used. */
  lemma {:induction false} PreorderOfForest(n: nat, list: seq<PlanNode>)
    requires NoNils(BuildForest(n, list).0)
    ensures var (ts, rest) := BuildForest(n, list);
      && Plans(ts)
      && PreorderAll(ts) + rest == list
      && Balanced(n, list[..|list| - |rest|])
    decreases |list|
  {
    hide NoNils, Plans, PreorderAll, Balanced, Build;
    if n == 0 {
      EmptyList(list);
    } else if list == [] {
      EmptyForest(n);
    } else {
      hide BuildForest;
      var c := list[0].childrenNum;
      var (flat, flatRest) := BuildForest(c + (n - 1), list[1..]);
      var rest := BuildForest(n, list).1;
      ForestStep(n, list);
      NoNilsStep(list[0], flat, c);
      PreorderOfForest(c + (n - 1), list[1..]);
      PreorderStep(list[0], flat);
      UsedStep(n, list, PreorderAll(flat), rest);
    }
  }

  lemma UsedStep(n: nat, list: seq<PlanNode>, flat: seq<PlanNode>, rest: seq<PlanNode>)
    requires n > 0 && list != [] && flat + rest == list[1..]
    requires Balanced(list[0].childrenNum + (n - 1), list[1..][..|list[1..]| - |rest|])
    ensures ([list[0]] + flat) + rest == list && Balanced(n, list[..|list| - |rest|])
  {
    hide Balanced;
    var used := list[..|list| - |rest|];
    assert used[1..] == list[1..][..|list[1..]| - |rest|];
    BalancedStep(n, used);
    assert [list[0]] + list[1..] == list;
  }

  lemma EmptyList(list: seq<PlanNode>)
    ensures NoNils([]) && Plans([]) && PreorderAll([]) + list == list && Balanced(0, list[..0])
  {
    hide NoNil, Plan, Balanced;
    BalancedEmpty(0);
    assert list[..0] == [];
    assert PreorderAll([]) == [];
  }

  /** Parsing and listing in preorder undo each other on balanced lists. */
  lemma PreorderOfBuild(list: seq<PlanNode>)
    requires Balanced(1, list)
    ensures Plan(Build(list).0) && NoNil(Build(list).0) && Preorder(Build(list).0) == list
  {
    BuildExactly(list);
    SingleForest(list);
    var t := Build(list).0;
    assert NoNils([t]);
    PreorderOfForest(1, list);
    SingleTree(t);
    assert Plan(t) by { assert t in [t]; }
    assert PreorderAll([t]) + [] == list;
  }

  /** Parsing stops at the end of a balanced prefix. */
  lemma StopsAfterPrefix(list: seq<PlanNode>, k: nat)
    requires k <= |list| && Balanced(1, list[..k])
    ensures NoNil(Build(list).0) && Build(list) == (Build(list[..k]).0, list[k..])
  {
    hide NoNil, Build, Balanced, Preorder, PreorderAll, Plan;
    PreorderOfBuild(list[..k]);
    BuildOfPreorder(Build(list[..k]).0, list[k..]);
    assert list[..k] + list[k..] == list;
  }

  ghost predicate HasBalancedPrefix(list: seq<PlanNode>) {
    exists k :: 0 <= k <= |list| && Balanced(1, list[..k])
  }

  /** PrintExplain dereferences a nil child unless some prefix of the list is balanced; what follows
      that prefix is never looked at. */
  lemma NilFreeExactly(list: seq<PlanNode>)
    ensures NoNil(Build(list).0) <==> HasBalancedPrefix(list)
    ensures forall k :: 0 <= k <= |list| && Balanced(1, list[..k]) ==> Build(list) == (Build(list[..k]).0, list[k..])
  {
    hide NoNil, Build, Balanced, PreorderAll, Plan, BuildForest;
    if NoNil(Build(list).0) {
      SingleForest(list);
      assert NoNils([Build(list).0]);
      PreorderOfForest(1, list);
      assert Balanced(1, list[..|list| - |Build(list).1|]);
    }
    forall k | 0 <= k <= |list| && Balanced(1, list[..k])
      ensures NoNil(Build(list).0) && Build(list) == (Build(list[..k]).0, list[k..])
    {
      StopsAfterPrefix(list, k);
    }
  }

  /** One node that announces a child the list does not have: the child is nil. */
  lemma MissingChildIsNil(plan: PlanNode)
    requires plan.childrenNum == 1
    ensures Build([plan]) == (Tree(plan, [Nil]), []) && !NoNil(Build([plan]).0)
  {
    assert [plan][1..] == [] && Build([]) == (Nil, []);
    SingleForest([]);
    assert Nil in Tree(plan, [Nil]).children;
  }

  // ---- printing ----

  datatype Line = Line(level: nat, text: string)

  /** The four lines of a node. */
  function Lines(plan: PlanNode, level: nat): (r: seq<Line>)
    ensures |r| == 4
  {
    [Line(level, "Alias: " + plan.alias), Line(level, "ChildrenNum: " + Decimal.Itoa(plan.childrenNum)),
     Line(level, "Uql: " + plan.uql), Line(level, "Infos: " + plan.infos)]
  }

  /** The lines of a tree, up to its first nil. */
  function Entries(t: Tree, level: nat): seq<Line>
    decreases t, 0
  {
    if t.Nil? then [] else Lines(t.plan, level) + EntriesAll(t.children, level + 1)
  }

  function EntriesAll(ts: seq<Tree>, level: nat): seq<Line>
    decreases ts, 1
  {
    if ts == [] then []
    else
      var front := ts[..|ts| - 1];
      EntriesAll(front, level) + if NoNils(front) then Entries(ts[|ts| - 1], level) else []
  }

  lemma TreeLines(t: Tree, level: nat)
    requires t.Tree?
    ensures NoNil(t) <==> NoNils(t.children)
    ensures Entries(t, level) == Lines(t.plan, level) + EntriesAll(t.children, level + 1)
  {
  }

  lemma NoTrees(ts: seq<Tree>, level: nat)
    ensures NoNils(ts[..0]) && EntriesAll(ts[..0], level) == []
  {
  }

  lemma NextTree(ts: seq<Tree>, i: nat, level: nat)
    requires i < |ts| && NoNils(ts[..i])
    ensures ts[i] in ts
    ensures NoNils(ts[..i + 1]) <==> NoNil(ts[i])
    ensures EntriesAll(ts[..i + 1], level) == EntriesAll(ts[..i], level) + Entries(ts[i], level)
  {
    var next := ts[..i + 1];
    assert next[..i] == ts[..i] && next == ts[..i] + [ts[i]];
    hide NoNil, Entries;
  }

  /** After a nil among the first trees nothing more is printed. */
  lemma {:induction false} EntriesEnd(ts: seq<Tree>, n: nat, level: nat)
    requires n <= |ts| && !NoNils(ts[..n])
    ensures !NoNils(ts) && EntriesAll(ts, level) == EntriesAll(ts[..n], level)
  {
    hide NoNil, Entries;
    if n < |ts| {
      var front := ts[..|ts| - 1];
      assert front[..n] == ts[..n];
      EntriesEnd(front, n, level);
    } else {
      assert ts[..n] == ts;
    }
  }

  /** The texts of lines, whatever their levels. */
  function Texts(ls: seq<Line>): (r: seq<string>)
    ensures |r| == |ls|
  {
    seq(|ls|, i requires 0 <= i < |ls| => ls[i].text)
  }

  lemma TextsJoin(a: seq<Line>, b: seq<Line>)
    ensures Texts(a + b) == Texts(a) + Texts(b)
  {
  }

  /** What is printed of a node. */
  function NodeTexts(plan: PlanNode): (r: seq<string>)
    ensures |r| == 4
  {
    ["Alias: " + plan.alias, "ChildrenNum: " + Decimal.Itoa(plan.childrenNum), "Uql: " + plan.uql,
     "Infos: " + plan.infos]
  }

  lemma LineTexts(plan: PlanNode, level: nat)
    ensures Texts(Lines(plan, level)) == NodeTexts(plan)
  {
    hide Decimal.Itoa;
  }

  /** The four texts of every node of a list. */
  function ListTexts(list: seq<PlanNode>): seq<string> {
    if list == [] then [] else NodeTexts(list[0]) + ListTexts(list[1..])
  }

  /** For any list at all, what is printed and what is left over are the nodes of the list in order: a nil,
      where printing stops, comes after the last of them. */
  lemma {:induction false} PrintsTheListInOrder(list: seq<PlanNode>, level: nat)
    ensures Texts(Entries(Build(list).0, level)) + ListTexts(Build(list).1) == ListTexts(list)
    decreases |list|, 1, 0
  {
    if list == [] {
      assert Texts(Entries(Nil, level)) + ListTexts([]) == [];
    } else {
      var (children, rest) := BuildForest(list[0].childrenNum, list[1..]);
      TreeLines(Tree(list[0], children), level);
      assert ListTexts(list) == NodeTexts(list[0]) + ListTexts(list[1..]);
      LineTexts(list[0], level);
      assert Build(list) == (Tree(list[0], children), rest);
      hide *;
      ForestPrintsInOrder(list[0].childrenNum, list[1..], level + 1);
      TextsJoin(Lines(list[0], level), EntriesAll(children, level + 1));
      Associate(Texts(Lines(list[0], level)), Texts(EntriesAll(children, level + 1)), ListTexts(rest));
    }
  }

  lemma {:induction false} ForestPrintsInOrder(n: nat, list: seq<PlanNode>, level: nat)
    ensures Texts(EntriesAll(BuildForest(n, list).0, level)) + ListTexts(BuildForest(n, list).1) == ListTexts(list)
    decreases |list|, 2, n
  {
    if n == 0 {
      NoTrees([], level);
      assert BuildForest(n, list) == ([], list) && Texts([]) + ListTexts(list) == ListTexts(list);
      hide *;
    } else {
      var (front, middle) := BuildForest(n - 1, list);
      var (last, rest) := Build(middle);
      assert BuildForest(n, list) == (front + [last], rest);
      assert middle == [] ==> rest == [];
      hide *;
      ForestPrintsInOrder(n - 1, list, level);
      PrintsTheListInOrder(middle, level);
      NilAfterTheLast(n - 1, list);
      ForestPrintsOneMore(front, last, list, middle, rest, level);
    }
  }

  lemma ForestPrintsOneMore(front: seq<Tree>, last: Tree, list: seq<PlanNode>, middle: seq<PlanNode>,
                            rest: seq<PlanNode>, level: nat)
    requires Texts(EntriesAll(front, level)) + ListTexts(middle) == ListTexts(list)
    requires Texts(Entries(last, level)) + ListTexts(rest) == ListTexts(middle)
    requires NoNils(front) || middle == rest
    ensures Texts(EntriesAll(front + [last], level)) + ListTexts(rest) == ListTexts(list)
  {
    hide *;
    OneTreeMore(front, last, level);
    if NoNils(front) {
      TextsJoin(EntriesAll(front, level), Entries(last, level));
      Associate(Texts(EntriesAll(front, level)), Texts(Entries(last, level)), ListTexts(rest));
    }
  }

  /** A list that leaves something over was not parsed into a nil. */
  lemma {:induction false} NilAfterTheLast(n: nat, list: seq<PlanNode>)
    ensures BuildForest(n, list).1 != [] ==> NoNils(BuildForest(n, list).0)
    ensures Build(list).1 != [] ==> NoNil(Build(list).0)
    decreases |list|, n
  {
    hide NoNil, NoNils;
    if list != [] {
      NilAfterTheLast(list[0].childrenNum, list[1..]);
      NilAbove(list[0], BuildForest(list[0].childrenNum, list[1..]).0);
    }
    if n == 0 {
      NoneIsNil();
    } else if list != [] {
      NilAfterTheLast(n - 1, list);
      var (front, middle) := BuildForest(n - 1, list);
      if |middle| < |list| {
        NilAfterTheLast(0, middle);
      }
      NoNilsSnoc(front, Build(middle).0);
    } else {
      EmptyForest(n);
    }
  }

  lemma NoneIsNil()
    ensures NoNils([])
  {
  }

  lemma NilAbove(plan: PlanNode, children: seq<Tree>)
    ensures NoNil(Tree(plan, children)) <==> NoNils(children)
  {
  }

  lemma OneTreeMore(ts: seq<Tree>, t: Tree, level: nat)
    ensures NoNils(ts) ==> EntriesAll(ts + [t], level) == EntriesAll(ts, level) + Entries(t, level)
    ensures !NoNils(ts) ==> EntriesAll(ts + [t], level) == EntriesAll(ts, level)
  {
    hide NoNil, Entries;
    assert (ts + [t])[..|ts|] == ts;
  }

  lemma NoNilsSnoc(ts: seq<Tree>, t: Tree)
    ensures NoNils(ts + [t]) <==> NoNils(ts) && NoNil(t)
  {
    hide NoNil;
    assert t in ts + [t];
    assert forall u :: u in ts ==> u in ts + [t];
  }

  class Printer {
    var leveledList: seq<Line>

    /** `panicked`: a nil tree was dereferenced; the lines before it stay. */
    method Traverse(tree: Tree, index: nat) returns (panicked: bool)
      modifies this
      ensures panicked <==> !NoNil(tree)
      ensures leveledList == old(leveledList) + Entries(tree, index)
      decreases tree, 0
    {
      if tree == Nil {
        return true;
      }
      ghost var before := leveledList;
      TreeLines(tree, index);
      hide Entries, EntriesAll, NoNil, NoNils, Decimal.Itoa;
      var s := tree.plan;
      leveledList := leveledList + [Line(index, "Alias: " + s.alias)];
      leveledList := leveledList + [Line(index, "ChildrenNum: " + Decimal.Itoa(s.childrenNum))];
      leveledList := leveledList + [Line(index, "Uql: " + s.uql)];
      leveledList := leveledList + [Line(index, "Infos: " + s.infos)];
      assert leveledList == before + Lines(s, index);
      hide Lines;
      panicked := TraverseAll(tree.children, index + 1);
    }

    /** The loop over the child nodes. */
    method TraverseAll(ts: seq<Tree>, index: nat) returns (panicked: bool)
      modifies this
      ensures panicked <==> !NoNils(ts)
      ensures leveledList == old(leveledList) + EntriesAll(ts, index)
      decreases ts, 1
    {
      ghost var before := leveledList;
      NoTrees(ts, index);
      hide *;
      for i := 0 to |ts|
        invariant NoNils(ts[..i])
        invariant leveledList == before + EntriesAll(ts[..i], index)
      {
        NextTree(ts, i, index);
        panicked := Traverse(ts[i], index);
        assert leveledList == before + EntriesAll(ts[..i + 1], index);
        if panicked {
          EntriesEnd(ts, i + 1, index);
          return;
        }
      }
      assert ts[..|ts|] == ts;
      panicked := false;
    }

    /** PrintExplain: the list is kept for the next call, which appends to it. */
    method PrintExplain(graphs: seq<PlanNode>) returns (panicked: bool)
      modifies this
      ensures graphs == [] ==> leveledList == old(leveledList)
      ensures graphs != [] ==> leveledList == old(leveledList) + Entries(Build(graphs).0, 0)
      ensures panicked <==> graphs != [] && !HasBalancedPrefix(graphs)
    {
      if graphs == [] {
        return false;
      }
      var explainChan := new Channel(graphs);
      var tree := BuildTree(explainChan);
      NilFreeExactly(graphs);
      panicked := Traverse(tree, 0);
    }
  }

  // ---- where a line comes from ----

  /** A position in a tree: which child to take at each level. */
  type Path = seq<nat>

  predicate ValidPath(t: Tree, p: Path)
    requires NoNil(t)
    decreases |p|, 1
  {
    p == [] || ValidBelow(t.children, p)
  }

  predicate ValidBelow(ts: seq<Tree>, p: Path)
    requires NoNils(ts)
    decreases |p|, 0
  {
    p != [] && p[0] < |ts| && ValidPath(ts[p[0]], p[1..])
  }

  function NodeAt(t: Tree, p: Path): (r: Tree)
    requires NoNil(t) && ValidPath(t, p)
    ensures NoNil(r)
    decreases |p|, 1
  {
    if p == [] then t else NodeBelow(t.children, p)
  }

  function NodeBelow(ts: seq<Tree>, p: Path): (r: Tree)
    requires NoNils(ts) && ValidBelow(ts, p)
    ensures NoNil(r)
    decreases |p|, 0
  {
    NodeAt(ts[p[0]], p[1..])
  }

  /** All positions of a tree, a node before its children and children in order. */
  function Paths(t: Tree): seq<Path>
    requires NoNil(t)
    decreases t, 0
  {
    [[]] + PathsAll(t.children)
  }

  function PathsAll(ts: seq<Tree>): seq<Path>
    requires NoNils(ts)
    decreases ts, 1
  {
    if ts == [] then []
    else PathsAll(ts[..|ts| - 1]) + Under(|ts| - 1, Paths(ts[|ts| - 1]))
  }

  function Under(i: nat, ps: seq<Path>): (r: seq<Path>)
    ensures |r| == |ps| && forall k :: 0 <= k < |ps| ==> r[k] == [i] + ps[k]
  {
    seq(|ps|, k requires 0 <= k < |ps| => [i] + ps[k])
  }

  /** Document order: a node before its descendants, an earlier child's tree before a later one's. */
  predicate Before(p: Path, q: Path) {
    q != [] && (p == [] || p[0] < q[0] || (p[0] == q[0] && Before(p[1..], q[1..])))
  }

  ghost predicate InOrder(ps: seq<Path>) {
    forall i, j :: 0 <= i < j < |ps| ==> Before(ps[i], ps[j])
  }

  /** Paths lists the positions of a tree in document order, hence each at most once. */
  lemma {:induction false} PathsInOrder(t: Tree)
    requires NoNil(t)
    ensures InOrder(Paths(t))
    decreases t, 0
  {
    PathsAllInOrder(t.children);
  }

  lemma {:induction false} PathsAllInOrder(ts: seq<Tree>)
    requires NoNils(ts)
    ensures InOrder(PathsAll(ts))
    ensures forall p :: p in PathsAll(ts) ==> p != [] && p[0] < |ts|
    decreases ts, 1
  {
    if ts != [] {
      var n := |ts| - 1;
      PathsAllInOrder(ts[..n]);
      PathsInOrder(ts[n]);
      var front, last := PathsAll(ts[..n]), Under(n, Paths(ts[n]));
      hide NoNil, Paths, PathsAll;
      forall i, j | 0 <= i < j < |front + last| ensures Before((front + last)[i], (front + last)[j]) {
        if j < |front| {
        } else if i < |front| {
          assert front[i] in front;
        } else {
          UnderKeepsOrder(n, Paths(ts[n]), i - |front|, j - |front|);
        }
      }
    }
  }

  lemma UnderKeepsOrder(n: nat, ps: seq<Path>, i: nat, j: nat)
    requires i < j < |ps| && InOrder(ps)
    ensures Before(Under(n, ps)[i], Under(n, ps)[j])
  {
    assert ([n] + ps[i])[1..] == ps[i] && ([n] + ps[j])[1..] == ps[j];
  }

  /** Paths misses no position of the tree and invents none. */
  lemma {:induction false} PathsExactly(t: Tree, p: Path)
    requires NoNil(t)
    ensures p in Paths(t) <==> ValidPath(t, p)
    decreases t, 0
  {
    PathsAllExactly(t.children, p);
  }

  lemma {:induction false} PathsAllExactly(ts: seq<Tree>, p: Path)
    requires NoNils(ts)
    ensures p in PathsAll(ts) <==> ValidBelow(ts, p)
    decreases ts, 1
  {
    if ts != [] {
      var n := |ts| - 1;
      assert PathsAll(ts) == PathsAll(ts[..n]) + Under(n, Paths(ts[n]));
      PathsAllExactly(ts[..n], p);
      hide NoNil, PathsAll, Paths, ValidPath, Under;
      if p != [] {
        PathsExactly(ts[n], p[1..]);
        UnderExactly(n, Paths(ts[n]), p);
      }
    }
  }

  lemma UnderExactly(n: nat, ps: seq<Path>, p: Path)
    requires p != []
    ensures p in Under(n, ps) <==> p[0] == n && p[1..] in ps
  {
    assert p == [p[0]] + p[1..];
    if p in Under(n, ps) {
      var k :| 0 <= k < |ps| && Under(n, ps)[k] == p;
      assert ([n] + ps[k])[1..] == ps[k];
    }
    if p[0] == n && p[1..] in ps {
      var k :| 0 <= k < |ps| && ps[k] == p[1..];
      assert Under(n, ps)[k] == p;
    }
  }

  /** Groups of four lines survive concatenation. */
  lemma GroupOfConcat(a: seq<Line>, b: seq<Line>, n: nat, k: nat)
    requires |a| == 4 * n && 4 * k + 4 <= |a + b|
    ensures k < n ==> (a + b)[4 * k..4 * k + 4] == a[4 * k..4 * k + 4]
    ensures k >= n ==> (a + b)[4 * k..4 * k + 4] == b[4 * (k - n)..4 * (k - n) + 4]
  {
  }

  /** Line group `k` shows the node at position `k`, at that position's depth. */
  ghost predicate GroupAt(t: Tree, level: nat, k: nat)
    requires NoNil(t)
  {
    && k < |Paths(t)| && ValidPath(t, Paths(t)[k])
    && k < |Preorder(t)| && Preorder(t)[k] == NodeAt(t, Paths(t)[k]).plan
    && 4 * k + 4 <= |Entries(t, level)|
    && Entries(t, level)[4 * k..4 * k + 4] == Lines(Preorder(t)[k], level + |Paths(t)[k]|)
  }

  ghost predicate ForestGroupAt(ts: seq<Tree>, level: nat, k: nat)
    requires NoNils(ts)
  {
    && k < |PathsAll(ts)| && ValidBelow(ts, PathsAll(ts)[k])
    && k < |PreorderAll(ts)| && PreorderAll(ts)[k] == NodeBelow(ts, PathsAll(ts)[k]).plan
    && 4 * k + 4 <= |EntriesAll(ts, level)|
    && EntriesAll(ts, level)[4 * k..4 * k + 4] == Lines(PreorderAll(ts)[k], level + |PathsAll(ts)[k]| - 1)
  }

  /** traverse emits four lines per node, in preorder, with the node's depth as their level. */
  lemma {:induction false} TraverseByDepth(t: Tree, level: nat)
    requires NoNil(t)
    ensures |Entries(t, level)| == 4 * |Preorder(t)| && |Paths(t)| == |Preorder(t)|
    ensures forall k :: 0 <= k < |Preorder(t)| ==> GroupAt(t, level, k)
    decreases t, 0
  {
    hide EntriesAll, PathsAll, PreorderAll, NodeBelow;
    var ts := t.children;
    TraverseAllByDepth(ts, level + 1);
    forall k | 0 <= k < |Preorder(t)| ensures GroupAt(t, level, k) {
      if k == 0 {
        GroupOfConcat(Lines(t.plan, level), EntriesAll(ts, level + 1), 1, 0);
        assert Lines(t.plan, level)[0..4] == Lines(t.plan, level);
      } else {
        assert ForestGroupAt(ts, level + 1, k - 1);
        assert Paths(t)[k] == PathsAll(ts)[k - 1];
        GroupOfConcat(Lines(t.plan, level), EntriesAll(ts, level + 1), 1, k);
      }
    }
  }

  lemma {:induction false} TraverseAllByDepth(ts: seq<Tree>, level: nat)
    requires NoNils(ts)
    ensures |EntriesAll(ts, level)| == 4 * |PreorderAll(ts)| && |PathsAll(ts)| == |PreorderAll(ts)|
    ensures forall k :: 0 <= k < |PreorderAll(ts)| ==> ForestGroupAt(ts, level, k)
    decreases ts, 1
  {
    hide GroupAt, ForestGroupAt, NoNil, Preorder, Entries, Paths;
    if ts != [] {
      var n := |ts| - 1;
      var front, last := ts[..n], ts[n];
      TraverseAllByDepth(front, level);
      TraverseByDepth(last, level);
      assert PreorderAll(ts) == PreorderAll(front) + Preorder(last);
      assert EntriesAll(ts, level) == EntriesAll(front, level) + Entries(last, level);
      assert PathsAll(ts) == PathsAll(front) + Under(n, Paths(last));
      hide PreorderAll, EntriesAll, PathsAll, Under;
      forall k | 0 <= k < |PreorderAll(ts)| ensures ForestGroupAt(ts, level, k) {
        if k < |PreorderAll(front)| {
          EarlierGroup(ts, level, k);
        } else {
          LastGroup(ts, level, k - |PreorderAll(front)|);
        }
      }
    }
  }

  /** A group of the earlier trees stays where it is. */
  lemma EarlierGroup(ts: seq<Tree>, level: nat, k: nat)
    requires NoNils(ts) && ts != []
    requires |EntriesAll(ts[..|ts| - 1], level)| == 4 * |PreorderAll(ts[..|ts| - 1])|
    requires k < |PreorderAll(ts[..|ts| - 1])| && ForestGroupAt(ts[..|ts| - 1], level, k)
    ensures ForestGroupAt(ts, level, k)
  {
    hide NoNil, Entries, Paths, Preorder, ValidPath, NodeAt, Lines, Under;
    var n := |ts| - 1;
    var front, last := ts[..n], ts[n];
    assert EntriesAll(ts, level) == EntriesAll(front, level) + Entries(last, level);
    assert PathsAll(ts) == PathsAll(front) + Under(n, Paths(last));
    assert PreorderAll(ts) == PreorderAll(front) + Preorder(last);
    hide EntriesAll, PathsAll, PreorderAll;
    GroupOfConcat(EntriesAll(front, level), Entries(last, level), |PreorderAll(front)|, k);
  }

  /** The groups of the last tree follow, one level deeper in the paths. */
  lemma LastGroup(ts: seq<Tree>, level: nat, j: nat)
    requires NoNils(ts) && ts != [] && GroupAt(ts[|ts| - 1], level, j)
    requires |EntriesAll(ts[..|ts| - 1], level)| == 4 * |PreorderAll(ts[..|ts| - 1])|
    requires |PathsAll(ts[..|ts| - 1])| == |PreorderAll(ts[..|ts| - 1])|
    ensures ForestGroupAt(ts, level, |PreorderAll(ts[..|ts| - 1])| + j)
  {
    hide NoNil, Entries, Paths, Preorder, ValidPath, NodeAt, Lines;
    var n := |ts| - 1;
    var front, last := ts[..n], ts[n];
    assert EntriesAll(ts, level) == EntriesAll(front, level) + Entries(last, level);
    assert PathsAll(ts) == PathsAll(front) + Under(n, Paths(last));
    assert PreorderAll(ts) == PreorderAll(front) + Preorder(last);
    hide EntriesAll, PathsAll, PreorderAll;
    var k := |PreorderAll(front)| + j;
    GroupOfConcat(EntriesAll(front, level), Entries(last, level), |PreorderAll(front)|, k);
    assert PathsAll(ts)[k] == [n] + Paths(last)[j];
    assert ([n] + Paths(last)[j])[1..] == Paths(last)[j];
  }

  /** Line 4k + j is line j of the k-th node in preorder, at the depth of that node. */
  lemma LineByDepth(t: Tree, level: nat, k: nat, j: nat)
    requires NoNil(t) && k < |Preorder(t)| && j < 4
    ensures k < |Paths(t)| && ValidPath(t, Paths(t)[k]) && 4 * k + j < |Entries(t, level)|
    ensures Entries(t, level)[4 * k + j].level == level + |Paths(t)[k]|
    ensures var plan := NodeAt(t, Paths(t)[k]).plan;
      Entries(t, level)[4 * k + j].text == if j == 0 then "Alias: " + plan.alias
                                           else if j == 1 then "ChildrenNum: " + Decimal.Itoa(plan.childrenNum)
                                           else if j == 2 then "Uql: " + plan.uql
                                           else "Infos: " + plan.infos
  {
    hide Preorder, Entries, Paths, NodeAt, ValidPath, NoNil, Decimal.Itoa;
    TraverseByDepth(t, level);
    assert GroupAt(t, level, k);
    var group := Entries(t, level)[4 * k..4 * k + 4];
    assert group[j] == Entries(t, level)[4 * k + j];
  }
}

/**
  The numbering of the parts of a message in MCAbstractPart.cpp, breadth first, and the search for a
  part by its number in MCAbstractMultipart.cpp and MCAbstractMessagePart.cpp, depth first.
 */
module PartNumbering {
  import opened Basics

  datatype PartType = Single | Message | Multipart

  /** A part, with the parts below it, which stay as they are while they are numbered and searched. */
  class AbstractPart {
    const mPartType: PartType
    const mMainPart: AbstractPart?
    const mParts: seq<AbstractPart>
    var mUniqueID: Option<string>

    constructor (partType: PartType, mainPart: AbstractPart?, parts: seq<AbstractPart>)
      ensures mPartType == partType && mMainPart == mainPart && mParts == parts && mUniqueID == None
    {
      mPartType, mMainPart, mParts, mUniqueID := partType, mainPart, parts, None;
    }
  }

  // ----- trees

  /** The finite tree of the parts below a part. */
  datatype Tree = Tree(node: AbstractPart, children: seq<Tree>)

  ghost predicate IsTree(t: Tree) {
    && (t.node.mPartType.Single? ==> t.children == [])
    && (t.node.mPartType.Message? ==> |t.children| == 1 && t.node.mMainPart == t.children[0].node)
    && (t.node.mPartType.Multipart? ==>
          |t.children| == |t.node.mParts| &&
          forall i :: 0 <= i < |t.children| ==> t.children[i].node == t.node.mParts[i])
    && IsForest(t.children)
  }

  ghost predicate IsForest(f: seq<Tree>) {
    forall i :: 0 <= i < |f| ==> IsTree(f[i])
  }

  ghost function Roots(f: seq<Tree>): (ps: seq<AbstractPart>)
    ensures |ps| == |f|
  {
    seq(|f|, i requires 0 <= i < |f| => f[i].node)
  }

  /** The parts of a tree, each before those below it. */
  ghost function Nodes(t: Tree): (ps: seq<AbstractPart>)
    decreases t, 1
  {
    [t.node] + NodesOf(t.children)
  }

  ghost function NodesOf(f: seq<Tree>): seq<AbstractPart>
    decreases f, 0
  {
    if |f| == 0 then [] else Nodes(f[0]) + NodesOf(f[1..])
  }

  ghost function ChildrenOf(f: seq<Tree>): seq<Tree> {
    if |f| == 0 then [] else f[0].children + ChildrenOf(f[1..])
  }

  ghost function Size(f: seq<Tree>): nat {
    |NodesOf(f)|
  }

  lemma {:induction false} NodesOfJoined(a: seq<Tree>, b: seq<Tree>)
    ensures NodesOf(a + b) == NodesOf(a) + NodesOf(b)
  {
    if |a| == 0 {
      assert a + b == b;
    } else {
      assert (a + b)[1..] == a[1..] + b;
      NodesOfJoined(a[1..], b);
    }
  }

  lemma {:induction false} ChildrenOfJoined(a: seq<Tree>, b: seq<Tree>)
    ensures ChildrenOf(a + b) == ChildrenOf(a) + ChildrenOf(b)
  {
    if |a| == 0 {
      assert a + b == b;
    } else {
      assert (a + b)[1..] == a[1..] + b;
      ChildrenOfJoined(a[1..], b);
    }
  }

  lemma Regroup<T>(n: T, a: seq<T>, b: seq<T>, r: seq<T>, c: seq<T>)
    requires multiset(b) == multiset(r) + multiset(c)
    ensures multiset([n] + a + b) == multiset([n] + r) + multiset(a + c)
    ensures |b| == |r| + |c|
  {
    assert |multiset(b)| == |multiset(r)| + |multiset(c)|;
  }

  /** A forest has its roots, and the parts below them. */
  lemma {:induction false} NodesSplit(f: seq<Tree>)
    ensures multiset(NodesOf(f)) == multiset(Roots(f)) + multiset(NodesOf(ChildrenOf(f)))
    ensures Size(f) == |f| + Size(ChildrenOf(f))
  {
    if |f| == 0 {
    } else {
      NodesSplit(f[1..]);
      RootsFirst(f);
      FirstApart(f);
      NodesOfJoined(f[0].children, ChildrenOf(f[1..]));
      hide Nodes, NodesOf, Roots;
      Regroup(f[0].node, NodesOf(f[0].children), NodesOf(f[1..]), Roots(f[1..]), NodesOf(ChildrenOf(f[1..])));
    }
  }

  lemma RootsFirst(f: seq<Tree>)
    requires |f| > 0
    ensures Roots(f) == [f[0].node] + Roots(f[1..])
  {
  }

  lemma FirstApart(f: seq<Tree>)
    requires |f| > 0
    ensures NodesOf(f) == [f[0].node] + NodesOf(f[0].children) + NodesOf(f[1..])
  {
  }

  /** The parts of a forest level by level, each level from left to right. */
  ghost function LevelOrder(f: seq<Tree>): seq<AbstractPart>
    decreases Size(f)
  {
    NodesSplit(f);
    if |f| == 0 then [] else Roots(f) + LevelOrder(ChildrenOf(f))
  }

  /** The parts of a forest in the order in which a queue passes them that puts the children of each at its end. */
  ghost function QueueOrder(f: seq<Tree>): seq<AbstractPart>
    decreases Size(f)
  {
    if |f| == 0 then []
    else
      NodesOfJoined(f[1..], f[0].children);
      FirstApart(f);
      [f[0].node] + QueueOrder(f[1..] + f[0].children)
  }

  /** A queue that starts with `f` passes the roots of `f` first, and then what it held besides and their children. */
  lemma {:induction false} QueuePasses(f: seq<Tree>, g: seq<Tree>)
    ensures QueueOrder(f + g) == Roots(f) + QueueOrder(g + ChildrenOf(f))
    decreases |f|
  {
    if |f| == 0 {
      assert f + g == g == g + ChildrenOf(f);
    } else {
      var x, xs := f[0], f[1..];
      assert (f + g)[1..] + x.children == xs + (g + x.children);
      QueuePasses(xs, g + x.children);
      assert g + x.children + ChildrenOf(xs) == g + (x.children + ChildrenOf(xs));
      RootsFirst(f);
    }
  }

  /** The queue passes level by level. */
  lemma {:induction false} QueueIsLevelOrder(f: seq<Tree>)
    ensures QueueOrder(f) == LevelOrder(f)
    decreases Size(f)
  {
    if |f| == 0 {
    } else {
      NodesSplit(f);
      QueueIsLevelOrder(ChildrenOf(f));
      assert f + [] == f && [] + ChildrenOf(f) == ChildrenOf(f);
      QueuePasses(f, []);
    }
  }

  lemma {:induction false} LevelsHoldAll(f: seq<Tree>)
    ensures multiset(LevelOrder(f)) == multiset(NodesOf(f))
    decreases Size(f)
  {
    NodesSplit(f);
    if |f| == 0 {
    } else {
      LevelsHoldAll(ChildrenOf(f));
    }
  }

  lemma {:induction false} OnceEach<T>(s: seq<T>)
    requires NoDuplicates(s)
    ensures forall x :: x in s ==> multiset(s)[x] == 1
  {
    if |s| == 0 {
    } else {
      var n := |s| - 1;
      OnceEach(s[..n]);
      assert s == s[..n] + [s[n]];
    }
  }

  lemma {:induction false} OnceMeansNoDuplicates<T>(s: seq<T>)
    requires forall x :: x in s ==> multiset(s)[x] == 1
    ensures NoDuplicates(s)
  {
    if |s| == 0 {
    } else {
      var n := |s| - 1;
      var rest := s[..n];
      assert s == rest + [s[n]];
      assert multiset(s)[s[n]] == multiset(rest)[s[n]] + 1;
      assert s[n] !in rest;
      forall x | x in rest
        ensures multiset(rest)[x] == 1
      {
        assert multiset(s)[x] == multiset(rest)[x];
      }
      OnceMeansNoDuplicates(rest);
    }
  }

  /** Level by level, every part of a tree comes once. */
  lemma LevelsOnce(t: Tree)
    requires NoDuplicates(Nodes(t))
    ensures NoDuplicates(LevelOrder([t]))
    ensures forall p :: p in LevelOrder([t]) <==> p in Nodes(t)
  {
    hide NoDuplicates, LevelOrder, Nodes;
    LevelsHoldAll([t]);
    OnceEach(Nodes(t));
    OneTree(t);
    assert forall p :: p in LevelOrder([t]) <==> p in multiset(LevelOrder([t]));
    assert forall p :: p in Nodes(t) <==> p in multiset(Nodes(t));
    OnceMeansNoDuplicates(LevelOrder([t]));
  }

  lemma OneTree(t: Tree)
    ensures NodesOf([t]) == Nodes(t)
  {
  }

  /** The parts that hold a body of their own, in the order of `ps`. */
  ghost function Singles(ps: seq<AbstractPart>): (r: seq<AbstractPart>)
    ensures forall i :: 0 <= i < |r| ==> r[i] in ps && r[i].mPartType.Single?
    ensures forall i :: 0 <= i < |ps| && ps[i].mPartType.Single? ==> ps[i] in r
  {
    if |ps| == 0 then []
    else
      var before, last := Singles(ps[..|ps| - 1]), ps[|ps| - 1];
      assert ps == ps[..|ps| - 1] + [last];
      if last.mPartType.Single? then before + [last] else before
  }

  lemma {:induction false} SinglesOnce(ps: seq<AbstractPart>)
    requires NoDuplicates(ps)
    ensures NoDuplicates(Singles(ps))
  {
    if |ps| == 0 {
    } else {
      SinglesOnce(ps[..|ps| - 1]);
    }
  }

  function Decimal(n: nat): (s: string)
    ensures |s| > 0
  {
    (if n < 10 then [] else Decimal(n / 10)) + [('0' as int + n % 10) as char]
  }

  lemma DecimalEnds(n: nat)
    ensures var s := Decimal(n);
            && s[|s| - 1] == ('0' as int + n % 10) as char
            && s[..|s| - 1] == (if n < 10 then [] else Decimal(n / 10))
  {
  }

  /** The number that decimal digits spell. */
  function Spelled(s: string): int {
    if |s| == 0 then 0 else Spelled(s[..|s| - 1]) * 10 + (s[|s| - 1] as int - '0' as int)
  }

  /** Decimal digits without leading zeros that spell the number. */
  lemma {:induction false} DecimalMeans(n: nat)
    ensures var s := Decimal(n);
            && Spelled(s) == n && (forall k :: 0 <= k < |s| ==> '0' <= s[k] <= '9')
            && (n > 0 ==> s[0] != '0') && (n == 0 ==> s == "0")
  {
    hide Decimal;
    var s, t := Decimal(n), Decimal(n / 10);
    DecimalEnds(n);
    LastDigit(n % 10);
    if n < 10 {
      assert s == [s[0]];
      assert Spelled([]) == 0 && s[..0] == [];
    } else {
      DecimalMeans(n / 10);
      assert s == t + [s[|s| - 1]] && s[0] == t[0];
      assert forall k :: 0 <= k < |t| ==> s[k] == t[k];
    }
  }

  lemma LastDigit(d: nat)
    requires d < 10
    ensures var ch := ('0' as int + d) as char; '0' <= ch <= '9' && ch as int - '0' as int == d && (d > 0 ==> ch != '0')
  {
  }

  lemma {:induction false} DecimalsDiffer(m: nat, n: nat)
    requires Decimal(m) == Decimal(n)
    ensures m == n
  {
    DecimalEnds(m);
    DecimalEnds(n);
    hide Decimal;
    if m < 10 || n < 10 {
    } else {
      DecimalsDiffer(m / 10, n / 10);
    }
  }

  /** The single parts of a tree are numbered from 0, level by level. */
  ghost predicate Numbered(ps: seq<AbstractPart>)
    reads ps
  {
    forall k :: 0 <= k < |ps| ==> ps[k].mUniqueID == Some(Decimal(k))
  }

  /** The single parts among the first `n` of the queue are numbered. */
  ghost predicate NumberedTo(queue: seq<AbstractPart>, n: nat, identifier: nat)
    requires n <= |queue|
    reads queue
  {
    identifier == |Singles(queue[..n])| && Numbered(Singles(queue[..n]))
  }

  /** Numbers a part if it is a single one. */
  method NumberOne(part: AbstractPart, identifier: nat, ghost queue: seq<AbstractPart>, ghost n: nat)
    returns (next: nat)
    requires n < |queue| && queue[n] == part && part !in queue[..n] && NumberedTo(queue, n, identifier)
    modifies part
    ensures NumberedTo(queue, n + 1, next)
    ensures !part.mPartType.Single? ==> part.mUniqueID == old(part.mUniqueID)
  {
    next := identifier;
    assert queue[..n + 1] == queue[..n] + [part];
    if part.mPartType.Single? {
      part.mUniqueID := Some(Decimal(identifier));
      next := identifier + 1;
    }
  }

  /** Numbers the single parts of the tree below a part, breadth first. */
  method ApplyUniquePartID(root: AbstractPart, ghost t: Tree, ghost parts: seq<AbstractPart>)
    requires IsTree(t) && t.node == root && parts == Nodes(t) && NoDuplicates(parts)
    modifies parts
    ensures Numbered(Singles(LevelOrder([t])))
    ensures forall p :: p in parts && !p.mPartType.Single? ==> p.mUniqueID == old(p.mUniqueID)
  {
    hide IsTree, IsForest, Passing, LevelOrder, QueueOrder, Nodes, Numbered, Singles, NoDuplicates, Size;
    var queue: seq<AbstractPart> := [root];
    var queueIndex := 0;
    var identifier := 0;
    ghost var waiting := [t];
    Starts(t);
    while queueIndex < |queue|
      invariant queueIndex <= |queue| && Passing(t, queue, queueIndex, waiting)
      invariant NumberedTo(queue, queueIndex, identifier)
      invariant forall p :: p in parts && !p.mPartType.Single? ==> p.mUniqueID == old(p.mUniqueID)
      decreases Size(waiting)
    {
      var part := queue[queueIndex];
      PassesOne(t, queue, queueIndex, waiting);
      IsNew(t, queue, queueIndex, waiting);
      ghost var grown := Grown(queue, queueIndex);
      identifier := NumberOne(part, identifier, queue, queueIndex);
      assert grown[..queueIndex + 1] == queue[..queueIndex + 1];
      match part.mPartType {
        case Single =>
        case Message =>
          var mainPart: AbstractPart := part.mMainPart;
          queue := queue + [mainPart];
        case Multipart =>
          queue := queue + part.mParts;
      }
      waiting := waiting[1..] + waiting[0].children;
      queueIndex := queueIndex + 1;
      assert queue[..queueIndex] == grown[..queueIndex];
    }
    Ends(t, queue, queueIndex, waiting);
  }

  /** The queue has passed its first `n` parts, and holds the roots of `waiting` after them. */
  ghost predicate Passing(t: Tree, queue: seq<AbstractPart>, n: nat, waiting: seq<Tree>) {
    && n <= |queue| && IsForest(waiting) && Roots(waiting) == queue[n..]
    && queue[..n] + QueueOrder(waiting) == LevelOrder([t])
  }

  lemma Starts(t: Tree)
    requires IsTree(t)
    ensures Passing(t, [t.node], 0, [t]) && NumberedTo([t.node], 0, 0)
  {
    QueueIsLevelOrder([t]);
  }

  lemma Ends(t: Tree, queue: seq<AbstractPart>, n: nat, waiting: seq<Tree>)
    requires Passing(t, queue, n, waiting) && n == |queue|
    ensures queue == LevelOrder([t]) && queue[..n] == queue
  {
    assert |Roots(waiting)| == 0;
  }

  /** What the queue holds after it passed one part. */
  ghost function Grown(queue: seq<AbstractPart>, n: nat): seq<AbstractPart>
    requires n < |queue|
  {
    var part := queue[n];
    if part.mPartType.Multipart? then queue + part.mParts
    else if part.mPartType.Message? && part.mMainPart != null then queue + [part.mMainPart]
    else queue
  }

  lemma FirstWaits(t: Tree, queue: seq<AbstractPart>, n: nat, waiting: seq<Tree>)
    requires Passing(t, queue, n, waiting) && n < |queue|
    ensures |waiting| > 0 && waiting[0].node == queue[n] && IsTree(waiting[0])
    ensures IsForest(waiting[1..]) && Roots(waiting[1..]) == queue[n + 1..]
    ensures Grown(queue, n) == queue + Roots(waiting[0].children)
    ensures queue[n].mPartType.Message? ==> queue[n].mMainPart != null
  {
    hide LevelOrder, QueueOrder;
    assert Roots(waiting)[0] == queue[n];
    assert IsTree(waiting[0]);
    assert Roots(waiting)[1..] == Roots(waiting[1..]);
  }

  lemma PassesOne(t: Tree, queue: seq<AbstractPart>, n: nat, waiting: seq<Tree>)
    requires Passing(t, queue, n, waiting) && n < |queue|
    ensures |waiting| > 0
    ensures queue[n].mPartType.Message? ==> queue[n].mMainPart != null
    ensures var next := waiting[1..] + waiting[0].children;
            Passing(t, Grown(queue, n), n + 1, next) && Size(next) < Size(waiting)
  {
    hide LevelOrder, Nodes, NodesOf, Grown, Size;
    FirstWaits(t, queue, n, waiting);
    var first, rest := waiting[0], waiting[1..];
    var grown, next := Grown(queue, n), rest + first.children;
    assert Roots(next) == Roots(rest) + Roots(first.children);
    assert grown[n + 1..] == queue[n + 1..] + Roots(first.children);
    assert grown[..n + 1] == queue[..n] + [queue[n]];
    Shrinks(waiting);
  }

  /** The part that is passed next is one of the tree, and was not passed before. */
  lemma IsNew(t: Tree, queue: seq<AbstractPart>, n: nat, waiting: seq<Tree>)
    requires Passing(t, queue, n, waiting) && n < |queue| && NoDuplicates(Nodes(t))
    ensures queue[n] in Nodes(t) && queue[n] !in queue[..n]
  {
    hide LevelOrder, Nodes;
    LevelsOnce(t);
    var all := LevelOrder([t]);
    assert QueueOrder(waiting)[0] == waiting[0].node == queue[n];
    assert all[n] == queue[n];
    assert all[..n] == queue[..n];
  }

  lemma Shrinks(f: seq<Tree>)
    requires |f| > 0
    ensures Size(f[1..] + f[0].children) < Size(f)
  {
    FirstApart(f);
    NodesOfJoined(f[1..], f[0].children);
  }

  // ----- the search

  ghost predicate Among(ps: seq<AbstractPart>, all: set<AbstractPart>) {
    forall i :: 0 <= i < |ps| ==> ps[i] in all
  }

  /** The first single part with a number. */
  ghost function FirstWith(ps: seq<AbstractPart>, uniqueID: string, all: set<AbstractPart>): AbstractPart?
    requires Among(ps, all)
    reads all
  {
    if |ps| == 0 then null
    else if ps[0].mPartType.Single? && ps[0].mUniqueID == Some(uniqueID) then ps[0]
    else FirstWith(ps[1..], uniqueID, all)
  }

  lemma {:induction false} FirstWithJoined(a: seq<AbstractPart>, b: seq<AbstractPart>, uniqueID: string,
                                           all: set<AbstractPart>)
    requires Among(a, all) && Among(b, all)
    ensures Among(a + b, all)
    ensures FirstWith(a + b, uniqueID, all) ==
      if FirstWith(a, uniqueID, all) != null then FirstWith(a, uniqueID, all) else FirstWith(b, uniqueID, all)
  {
    if |a| == 0 {
      assert a + b == b;
    } else {
      assert (a + b)[1..] == a[1..] + b;
      FirstWithJoined(a[1..], b, uniqueID, all);
    }
  }

  lemma OneMoreTree(f: seq<Tree>, i: nat)
    requires i < |f|
    ensures NodesOf(f[..i + 1]) == NodesOf(f[..i]) + Nodes(f[i])
  {
    hide *;
    OneTree(f[i]);
    NodesOfJoined(f[..i], [f[i]]);
    assert f[..i + 1] == f[..i] + [f[i]];
  }

  lemma TreesAfter(f: seq<Tree>, i: nat)
    requires i <= |f|
    ensures NodesOf(f) == NodesOf(f[..i]) + NodesOf(f[i..])
  {
    hide *;
    NodesOfJoined(f[..i], f[i..]);
    assert f == f[..i] + f[i..];
  }

  lemma AmongParts(a: seq<AbstractPart>, b: seq<AbstractPart>, all: set<AbstractPart>)
    requires Among(a + b, all)
    ensures Among(a, all) && Among(b, all)
  {
    assert forall i :: 0 <= i < |a| ==> a[i] == (a + b)[i];
    assert forall i :: 0 <= i < |b| ==> b[i] == (a + b)[|a| + i];
  }

  lemma FirstBelow(t: Tree, uniqueID: string, all: set<AbstractPart>)
    requires Among(Nodes(t), all)
    ensures Among(NodesOf(t.children), all) && t.node in all
    ensures FirstWith(Nodes(t), uniqueID, all) ==
      if t.node.mPartType.Single? && t.node.mUniqueID == Some(uniqueID) then t.node
      else FirstWith(NodesOf(t.children), uniqueID, all)
  {
    assert Nodes(t)[1..] == NodesOf(t.children);
    assert Nodes(t) == [t.node] + NodesOf(t.children);
    hide Nodes, NodesOf;
    AmongParts([t.node], NodesOf(t.children), all);
    assert Nodes(t)[0] == t.node;
  }

  lemma NothingBelow(all: set<AbstractPart>)
    ensures NodesOf([]) == [] && Among([], all)
  {
  }

  /** The part with a number at or below a part, depth first. */
  method PartForUniqueID(part: AbstractPart, uniqueID: string, ghost t: Tree, ghost all: set<AbstractPart>)
    returns (r: AbstractPart?)
    requires IsTree(t) && t.node == part && Among(Nodes(t), all)
    ensures r == FirstWith(Nodes(t), uniqueID, all)
    decreases t, 1
  {
    hide Nodes, NodesOf, Among;
    FirstBelow(t, uniqueID, all);
    NothingBelow(all);
    match part.mPartType {
      case Single =>
        r := if part.mUniqueID == Some(uniqueID) then part else null;
      case Message =>
        OneTree(t.children[0]);
        assert t.children == [t.children[0]];
        var mainPart: AbstractPart := part.mMainPart;
        r := PartForUniqueID(mainPart, uniqueID, t.children[0], all);
      case Multipart =>
        r := PartAmong(part.mParts, uniqueID, t.children, all);
    }
  }

  /** The part with a number at or below the parts of a multipart, from the first of them that has it. */
  method PartAmong(parts: seq<AbstractPart>, uniqueID: string, ghost f: seq<Tree>, ghost all: set<AbstractPart>)
    returns (r: AbstractPart?)
    requires IsForest(f) && parts == Roots(f) && Among(NodesOf(f), all)
    ensures r == FirstWith(NodesOf(f), uniqueID, all)
    decreases f, 0
  {
    hide Nodes, NodesOf, Among, IsTree;
    assert f[..0] == [];
    NothingBelow(all);
    ghost var before: seq<AbstractPart> := [];
    for i := 0 to |parts|
      invariant before == NodesOf(f[..i]) && Among(before, all) && FirstWith(before, uniqueID, all) == null
    {
      ghost var these, after := Nodes(f[i]), NodesOf(f[i + 1..]);
      OneMoreTree(f, i);
      TreesAfter(f, i + 1);
      AmongParts(before + these, after, all);
      AmongParts(before, these, all);
      FirstWithJoined(before, these, uniqueID, all);
      FirstWithJoined(before + these, after, uniqueID, all);
      r := PartForUniqueID(parts[i], uniqueID, f[i], all);
      if r != null {
        return;
      }
      before := before + these;
    }
    assert f[..|parts|] == f;
    r := null;
  }

  lemma {:induction false} FirstWithIs(ps: seq<AbstractPart>, uniqueID: string, all: set<AbstractPart>)
    requires Among(ps, all)
    ensures FirstWith(ps, uniqueID, all) != null ==>
      var p := FirstWith(ps, uniqueID, all); p in ps && p.mPartType.Single? && p.mUniqueID == Some(uniqueID)
    ensures FirstWith(ps, uniqueID, all) == null ==>
      forall p :: p in ps && p.mPartType.Single? ==> p.mUniqueID != Some(uniqueID)
  {
    if |ps| == 0 {
    } else {
      FirstWithIs(ps[1..], uniqueID, all);
    }
  }

  /** After the numbering, the search finds for each number the part that has it. */
  lemma EachIsFound(t: Tree, all: set<AbstractPart>, k: nat)
    requires NoDuplicates(Nodes(t)) && Among(Nodes(t), all) && k < |Singles(LevelOrder([t]))|
    requires Numbered(Singles(LevelOrder([t])))
    ensures FirstWith(Nodes(t), Decimal(k), all) == Singles(LevelOrder([t]))[k]
  {
    hide LevelOrder, Nodes, FirstWith, Decimal, NoDuplicates;
    LevelsOnce(t);
    FirstWithIs(Nodes(t), Decimal(k), all);
    var singles := Singles(LevelOrder([t]));
    assert singles[k] in LevelOrder([t]);
    var found := FirstWith(Nodes(t), Decimal(k), all);
    assert found in singles;
    var j :| 0 <= j < |singles| && singles[j] == found;
    DecimalsDiffer(j, k);
  }

  /** And it finds nothing for any other name. */
  lemma NoOtherIsFound(t: Tree, all: set<AbstractPart>, uniqueID: string)
    requires NoDuplicates(Nodes(t)) && Among(Nodes(t), all) && Numbered(Singles(LevelOrder([t])))
    requires forall k :: 0 <= k < |Singles(LevelOrder([t]))| ==> uniqueID != Decimal(k)
    ensures FirstWith(Nodes(t), uniqueID, all) == null
  {
    hide LevelOrder, Nodes, FirstWith, Decimal, NoDuplicates;
    LevelsOnce(t);
    FirstWithIs(Nodes(t), uniqueID, all);
  }
}

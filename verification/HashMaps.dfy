/**
  The chained hash table of MCHashMap.cpp. Keys are equal when `id` takes them to the same identity,
  which is any equivalence, and the hash is any function of the identity, so equal keys hash equally.
 */
module HashMaps {
  import opened Basics

  class Cell<K, V> {
    const func: nat
    const key: K
    var value: V
    var next: Cell?<K, V>

    constructor (func: nat, key: K, value: V, next: Cell?<K, V>)
      ensures this.func == func && this.key == key && this.value == value && this.next == next
    {
      this.func := func;
      this.key := key;
      this.value := value;
      this.next := next;
    }
  }

  // ----- chains

  function At<K, V>(cs: seq<Cell<K, V>>, j: nat): Cell?<K, V> {
    if j < |cs| then cs[j] else null
  }

  /** Following `next` from `head` visits the cells of `cs` and ends. */
  ghost predicate Linked<K, V>(head: Cell?<K, V>, cs: seq<Cell<K, V>>)
    reads cs
  {
    head == At(cs, 0) && forall j :: 0 <= j < |cs| ==> cs[j].next == At(cs, j + 1)
  }

  /** The chains hold the cells of `s`, each once, in the bucket of its hash. */
  ghost predicate Placed<K, V>(chains: seq<seq<Cell<K, V>>>, s: set<Cell<K, V>>) {
    && |chains| > 0
    && (forall i :: 0 <= i < |chains| ==> NoDuplicates(chains[i]))
    && (forall i :: 0 <= i < |chains| ==> forall c :: c in chains[i] ==> c in s && c.func % |chains| == i)
    && (forall c :: c in s ==> c in chains[c.func % |chains|])
  }

  /** Every bucket of the array starts its chain. */
  ghost predicate Hung<K, V>(cells: array<Cell?<K, V>>, chains: seq<seq<Cell<K, V>>>, s: set<Cell<K, V>>)
    requires Placed(chains, s)
    reads cells, s
  {
    cells.Length == |chains| && forall i :: 0 <= i < |chains| ==> Linked(cells[i], chains[i])
  }

  /** The chains with `c` in front of its bucket. */
  ghost function Pushed<K, V>(chains: seq<seq<Cell<K, V>>>, c: Cell<K, V>): seq<seq<Cell<K, V>>>
    requires |chains| > 0
  {
    var b := c.func % |chains|;
    chains[b := [c] + chains[b]]
  }

  lemma PushedIsPlaced<K, V>(chains: seq<seq<Cell<K, V>>>, s: set<Cell<K, V>>, c: Cell<K, V>)
    requires Placed(chains, s) && c !in s
    ensures Placed(Pushed(chains, c), s + {c})
  {
    var b := c.func % |chains|;
    var t := Pushed(chains, c);
    assert NoDuplicates(t[b]);
    forall d | d in s + {c}
      ensures d in t[d.func % |t|]
    {
      if d == c {
        assert t[b][0] == c;
      } else {
        assert d in chains[d.func % |chains|];
      }
    }
  }

  lemma EmptyIsPlaced<K, V>(chains: seq<seq<Cell<K, V>>>)
    requires |chains| > 0 && forall i :: 0 <= i < |chains| ==> chains[i] == []
    ensures Placed(chains, {})
  {
  }

  lemma StaysHung<K, V>(head: Cell?<K, V>, cs: seq<Cell<K, V>>, c: Cell<K, V>)
    requires Linked(head, cs) && c !in cs && c.next == head
    ensures Linked(c, [c] + cs)
  {
    var ds := [c] + cs;
    forall j | 0 <= j < |ds|
      ensures ds[j].next == At(ds, j + 1)
    {
      if j > 0 {
        assert ds[j] == cs[j - 1];
      }
    }
  }

  /** The array is a table of the cells in `s`, chained as `chains` says. */
  ghost predicate Table<K, V>(cells: array<Cell?<K, V>>, chains: seq<seq<Cell<K, V>>>, s: set<Cell<K, V>>)
    reads cells, s
  {
    Placed(chains, s) && Hung(cells, chains, s)
  }

  /** Puts a cell in front of its bucket. */
  method Push<K, V>(cells: array<Cell?<K, V>>, c: Cell<K, V>, ghost chains: seq<seq<Cell<K, V>>>,
                    ghost s: set<Cell<K, V>>)
    requires Table(cells, chains, s) && c !in s
    modifies cells, c`next
    ensures Table(cells, Pushed(chains, c), s + {c})
  {
    PushedIsPlaced(chains, s, c);
    var b := c.func % cells.Length;
    c.next := cells[b];
    cells[b] := c;
    StaysHung(c.next, chains[b], c);
  }

  /** The cells from `j` on are still chained, and in no table. */
  ghost predicate Remain<K, V>(iter: Cell?<K, V>, cs: seq<Cell<K, V>>, j: nat, s: set<Cell<K, V>>)
    reads cs
  {
    && j <= |cs| && NoDuplicates(cs) && iter == At(cs, j)
    && forall k :: j <= k < |cs| ==> cs[k].next == At(cs, k + 1) && cs[k] !in s
  }

  /** Moves one cell of a chain, and tells the next. */
  method MoveCell<K, V>(iter: Cell<K, V>, cells: array<Cell?<K, V>>, ghost cs: seq<Cell<K, V>>, ghost j: nat,
                        ghost chains: seq<seq<Cell<K, V>>>, ghost s: set<Cell<K, V>>)
    returns (next: Cell?<K, V>)
    requires Remain(iter, cs, j, s) && Table(cells, chains, s)
    modifies cells, iter`next
    ensures j < |cs| && iter == cs[j] && |chains| > 0
    ensures Remain(next, cs, j + 1, s + {iter}) && Table(cells, Pushed(chains, iter), s + {iter})
  {
    hide Placed, Hung, Pushed;
    next := iter.next;
    assert |chains| > 0 by { PlacedSomewhere(chains, s); }
    Push(cells, iter, chains, s);
  }

  lemma TableSize<K, V>(cells: array<Cell?<K, V>>, chains: seq<seq<Cell<K, V>>>, s: set<Cell<K, V>>)
    requires Table(cells, chains, s)
    ensures |chains| == cells.Length > 0
  {
  }

  lemma PlacedSomewhere<K, V>(chains: seq<seq<Cell<K, V>>>, s: set<Cell<K, V>>)
    requires Placed(chains, s)
    ensures |chains| > 0
  {
  }

  /** Moves the cells of one chain, first to last, in front of their new buckets. */
  method MoveChain<K, V>(head: Cell?<K, V>, cells: array<Cell?<K, V>>, ghost cs: seq<Cell<K, V>>,
                         ghost chains0: seq<seq<Cell<K, V>>>, ghost s0: set<Cell<K, V>>)
    returns (ghost chains: seq<seq<Cell<K, V>>>, ghost s: set<Cell<K, V>>)
    requires Remain(head, cs, 0, s0) && Table(cells, chains0, s0)
    modifies cells, cs
    ensures forall c :: c in cs ==> c.value == old(c.value)
    ensures Table(cells, chains, s) && s == s0 + set c | c in cs
  {
    hide *;
    chains, s := chains0, s0;
    var iter := head;
    ghost var j := 0;
    while iter != null
      invariant j <= |cs| && Remain(iter, cs, j, s) && Table(cells, chains, s)
      invariant forall c :: c in cs ==> c.value == old(c.value)
      invariant s == s0 + set c | c in cs[..j]
      decreases |cs| - j
    {
      RemainSome(iter, cs, j, s);
      ghost var done := iter;
      iter := MoveCell(iter, cells, cs, j, chains, s);
      chains, s := Pushed(chains, done), s + {done};
      assert cs[..j + 1] == cs[..j] + [done];
      j := j + 1;
    }
    RemainNone(cs, j, s);
    assert cs[..j] == cs;
  }

  lemma RemainNone<K, V>(cs: seq<Cell<K, V>>, j: nat, s: set<Cell<K, V>>)
    requires Remain(null, cs, j, s)
    ensures j == |cs|
  {
  }

  lemma RemainSome<K, V>(iter: Cell<K, V>, cs: seq<Cell<K, V>>, j: nat, s: set<Cell<K, V>>)
    requires Remain(iter, cs, j, s)
    ensures j < |cs| && iter in cs
  {
  }

  // ----- the table

  const DEFAULT_SIZE := 13
  const MAX_DEPTH := 3

  /** The cells of `s` whose bucket comes before `b` of `n`. */
  ghost function Before<K, V>(s: set<Cell<K, V>>, n: nat, b: nat): set<Cell<K, V>>
    requires n > 0
  {
    set c | c in s && c.func % n < b
  }

  /** The chains from bucket `b` on are still as they were. */
  ghost predicate Pending<K, V>(cells: array<Cell?<K, V>>, chains: seq<seq<Cell<K, V>>>, s: set<Cell<K, V>>, b: nat)
    requires Placed(chains, s)
    reads cells, s
  {
    cells.Length == |chains| && forall i :: b <= i < |chains| ==> Linked(cells[i], chains[i])
  }

  lemma ChainRemains<K, V>(cells: array<Cell?<K, V>>, chains: seq<seq<Cell<K, V>>>, s: set<Cell<K, V>>, b: nat)
    requires Placed(chains, s) && Pending(cells, chains, s, b) && b < |chains|
    ensures Remain(cells[b], chains[b], 0, Before(s, |chains|, b))
    ensures Before(s, |chains|, b) + (set c | c in chains[b]) == Before(s, |chains|, b + 1)
    ensures forall c :: c in chains[b] ==> c in s
  {
    assert Linked(cells[b], chains[b]);
    forall c | c in Before(s, |chains|, b + 1)
      ensures c in Before(s, |chains|, b) || c in chains[b]
    {
      assert c in chains[c.func % |chains|];
    }
  }

  lemma ChainsAreApart<K, V>(chains: seq<seq<Cell<K, V>>>, s: set<Cell<K, V>>, i: nat, j: nat, c: Cell<K, V>)
    requires Placed(chains, s) && i < |chains| && j < |chains| && c in chains[i]
    ensures c in chains[j] ==> i == j
  {
  }

  /** Moves the chain of one bucket; those after it stay as they were. */
  method MoveBucket<K, V>(cells: array<Cell?<K, V>>, b: nat, ncells: array<Cell?<K, V>>,
                          ghost chains: seq<seq<Cell<K, V>>>, ghost s: set<Cell<K, V>>,
                          ghost nchains0: seq<seq<Cell<K, V>>>)
    returns (ghost nchains: seq<seq<Cell<K, V>>>)
    requires Placed(chains, s) && Pending(cells, chains, s, b) && b < |chains|
    requires cells != ncells && Table(ncells, nchains0, Before(s, |chains|, b))
    modifies ncells, s
    ensures Pending(cells, chains, s, b + 1)
    ensures Table(ncells, nchains, Before(s, |chains|, b + 1))
    ensures forall c :: c in s ==> c.value == old(c.value)
  {
    hide Table, Hung, Remain, Before, NoDuplicates;
    ChainRemains(cells, chains, s, b);
    ghost var moved;
    nchains, moved := MoveChain(cells[b], ncells, chains[b], nchains0, Before(s, |chains|, b));
    forall i, c | b < i < |chains| && c in chains[i]
      ensures c !in chains[b]
    {
      ChainsAreApart(chains, s, i, b, c);
    }
  }

  lemma RehashStarts<K, V>(cells: array<Cell?<K, V>>, ncells: array<Cell?<K, V>>, chains: seq<seq<Cell<K, V>>>,
                           s: set<Cell<K, V>>, nchains: seq<seq<Cell<K, V>>>)
    requires Table(cells, chains, s)
    requires |nchains| == ncells.Length > 0
    requires forall i :: 0 <= i < ncells.Length ==> ncells[i] == null && nchains[i] == []
    ensures Placed(chains, s) && |chains| == cells.Length > 0 && Pending(cells, chains, s, 0)
    ensures Table(ncells, nchains, Before(s, |chains|, 0))
    ensures Before(s, |chains|, |chains|) == s
  {
    EmptyIsPlaced(nchains);
    assert Before(s, |chains|, 0) == {};
  }

  /** Buckets without cells. */
  method NoCells<K, V>(size: nat) returns (ncells: array<Cell?<K, V>>, ghost nchains: seq<seq<Cell<K, V>>>)
    ensures fresh(ncells) && ncells.Length == |nchains| == size
    ensures forall i :: 0 <= i < size ==> ncells[i] == null && nchains[i] == []
  {
    ncells := new Cell?<K, V>[size](_ => null);
    nchains := seq(size, i => []);
  }

  /** A table of `size` buckets with the cells of another, which it takes apart. */
  method Rehash<K, V>(cells: array<Cell?<K, V>>, size: nat, ghost chains: seq<seq<Cell<K, V>>>,
                      ghost s: set<Cell<K, V>>)
    returns (ncells: array<Cell?<K, V>>, ghost nchains: seq<seq<Cell<K, V>>>)
    requires size > 0 && Table(cells, chains, s)
    modifies s
    ensures fresh(ncells) && ncells.Length == size
    ensures Table(ncells, nchains, s)
    ensures forall c :: c in s ==> c.value == old(c.value)
  {
    hide *;
    ncells, nchains := NoCells(size);
    RehashStarts(cells, ncells, chains, s, nchains);
    for indx := 0 to cells.Length
      invariant Pending(cells, chains, s, indx) && Table(ncells, nchains, Before(s, |chains|, indx))
      invariant forall c :: c in s ==> c.value == old(c.value)
    {
      nchains := MoveBucket(cells, indx, ncells, chains, s, nchains);
    }
  }

  /** The cells of `s` are those of the index, each with the identity it is indexed by and its hash. */
  ghost predicate Indexed<K, I, V>(index: map<I, Cell<K, V>>, s: set<Cell<K, V>>, id: K -> I, hash: I -> nat) {
    && (forall x :: x in index ==> index[x] in s && id(index[x].key) == x)
    && (forall c :: c in s ==> id(c.key) in index && index[id(c.key)] == c && c.func == hash(id(c.key)))
  }

  lemma NotIndexed<K, I, V>(chains: seq<seq<Cell<K, V>>>, index: map<I, Cell<K, V>>, s: set<Cell<K, V>>,
                            id: K -> I, hash: I -> nat, x: I)
    requires Placed(chains, s) && Indexed(index, s, id, hash)
    requires forall c :: c in chains[hash(x) % |chains|] ==> id(c.key) != x
    ensures x !in index
  {
    forall y | y in index
      ensures y != x
    {
      assert index[y] in chains[index[y].func % |chains|];
    }
  }

  /** What the cells of the index say: each identity with the key and the value of its cell. */
  ghost function View<K, I, V>(index: map<I, Cell<K, V>>, s: set<Cell<K, V>>): map<I, (K, V)>
    requires forall x :: x in index ==> index[x] in s
    reads s
  {
    map x | x in index :: (index[x].key, index[x].value)
  }

  lemma OneMoreKey<I, T>(m: map<I, T>, x: I, c: T)
    requires x !in m
    ensures |m[x := c]| == |m| + 1
  {
    assert m[x := c].Keys == m.Keys + {x};
  }

  lemma IndexedGrows<K, I, V>(index: map<I, Cell<K, V>>, s: set<Cell<K, V>>, id: K -> I, hash: I -> nat, c: Cell<K, V>,
                              grown: map<I, Cell<K, V>>)
    requires Indexed(index, s, id, hash) && id(c.key) !in index && c.func == hash(id(c.key))
    requires grown == index[id(c.key) := c]
    ensures Indexed(grown, s + {c}, id, hash)
  {
  }

  lemma IndexGrows<K, I, V>(index: map<I, Cell<K, V>>, s: set<Cell<K, V>>, id: K -> I, hash: I -> nat, c: Cell<K, V>)
    requires Indexed(index, s, id, hash) && id(c.key) !in index && c.func == hash(id(c.key))
    ensures var grown := index[id(c.key) := c];
            && Indexed(grown, s + {c}, id, hash) && |grown| == |index| + 1
            && View(grown, s + {c}) == View(index, s)[id(c.key) := (c.key, c.value)]
  {
    hide View;
    var grown := index[id(c.key) := c];
    OneMoreKey(index, id(c.key), c);
    IndexedGrows(index, s, id, hash, c, grown);
    IndexInside(index, s, id, hash);
    hide Indexed;
    ViewGrows(index, s, id(c.key), c, grown);
  }

  lemma ViewGrows<K, I, V>(index: map<I, Cell<K, V>>, s: set<Cell<K, V>>, x: I, c: Cell<K, V>,
                           grown: map<I, Cell<K, V>>)
    requires grown == index[x := c] && forall y :: y in index ==> index[y] in s
    ensures forall y :: y in grown ==> grown[y] in s + {c}
    ensures View(grown, s + {c}) == View(index, s)[x := (c.key, c.value)]
  {
  }

  lemma IndexInside<K, I, V>(index: map<I, Cell<K, V>>, s: set<Cell<K, V>>, id: K -> I, hash: I -> nat)
    requires Indexed(index, s, id, hash)
    ensures forall x :: x in index ==> index[x] in s
  {
  }

  lemma ViewWithout<K, I, V>(index: map<I, Cell<K, V>>, s: set<Cell<K, V>>, id: K -> I, hash: I -> nat, x: I)
    requires Indexed(index, s, id, hash) && x !in index
    ensures View(index, s) - {x} == View(index, s)
  {
  }

  lemma IndexShrinks<K, I, V>(index: map<I, Cell<K, V>>, s: set<Cell<K, V>>, id: K -> I, hash: I -> nat, c: Cell<K, V>)
    requires Indexed(index, s, id, hash) && c in s
    ensures var shrunk := index - {id(c.key)};
            && Indexed(shrunk, s - {c}, id, hash) && |shrunk| == |index| - 1
            && View(shrunk, s - {c}) == View(index, s) - {id(c.key)}
  {
    assert (index - {id(c.key)}).Keys == index.Keys - {id(c.key)};
  }

  /** The chains without the cell at `j` of bucket `b`. */
  ghost function Cut<K, V>(chains: seq<seq<Cell<K, V>>>, b: nat, j: nat): seq<seq<Cell<K, V>>>
    requires b < |chains| && j < |chains[b]|
  {
    chains[b := chains[b][..j] + chains[b][j + 1..]]
  }

  lemma CutIsPlaced<K, V>(chains: seq<seq<Cell<K, V>>>, s: set<Cell<K, V>>, b: nat, j: nat)
    requires Placed(chains, s) && b < |chains| && j < |chains[b]|
    ensures Placed(Cut(chains, b, j), s - {chains[b][j]})
  {
    var c, t := chains[b][j], Cut(chains, b, j);
    assert NoDuplicates(t[b]);
    forall i, d | 0 <= i < |t| && d in t[i]
      ensures d in s - {c} && d.func % |t| == i
    {
      assert c in chains[b] && d in chains[i];
    }
    forall d | d in s - {c}
      ensures d in t[d.func % |t|]
    {
      var chain := chains[d.func % |chains|];
      assert d in chain;
      var k :| 0 <= k < |chain| && chain[k] == d;
      if d.func % |chains| == b {
        assert t[b][if k < j then k else k - 1] == d;
      }
    }
  }

  /** The chain passes over the cell at `j`. */
  ghost predicate CutLinks<K, V>(head: Cell?<K, V>, cs: seq<Cell<K, V>>, j: nat)
    requires j < |cs|
    reads cs
  {
    && head == (if j == 0 then At(cs, 1) else cs[0])
    && forall k :: 0 <= k < |cs| && k != j ==> cs[k].next == At(cs, if k == j - 1 then j + 1 else k + 1)
  }

  lemma CutIsLinked<K, V>(head: Cell?<K, V>, cs: seq<Cell<K, V>>, j: nat)
    requires j < |cs| && NoDuplicates(cs) && CutLinks(head, cs, j)
    ensures Linked(head, cs[..j] + cs[j + 1..])
  {
    var ds := cs[..j] + cs[j + 1..];
    forall k | 0 <= k < |ds|
      ensures ds[k].next == At(ds, k + 1)
    {
      assert ds[k] == cs[if k < j then k else k + 1];
    }
  }

  lemma OnlyInOneChain<K, V>(chains: seq<seq<Cell<K, V>>>, s: set<Cell<K, V>>, b: nat)
    requires Placed(chains, s) && b < |chains|
    ensures forall i, c :: 0 <= i < |chains| && i != b && c in chains[i] ==> c !in chains[b]
  {
  }

  lemma CutIsTable<K, V>(cells: array<Cell?<K, V>>, chains: seq<seq<Cell<K, V>>>, s: set<Cell<K, V>>, b: nat, j: nat)
    requires Placed(chains, s) && cells.Length == |chains| && b < |chains| && j < |chains[b]|
    requires CutLinks(cells[b], chains[b], j)
    requires forall i :: 0 <= i < |chains| && i != b ==> Linked(cells[i], chains[i])
    ensures Table(cells, Cut(chains, b, j), s - {chains[b][j]})
  {
    CutIsPlaced(chains, s, b, j);
    hide CutLinks, Linked, NoDuplicates;
    CutIsLinked(cells[b], chains[b], j);
  }

  lemma NothingInTable<K, V>(cells: array<Cell?<K, V>>, chains: seq<seq<Cell<K, V>>>)
    requires |chains| == cells.Length > 0
    requires forall i :: 0 <= i < |chains| ==> chains[i] == [] && cells[i] == null
    ensures Table(cells, chains, {})
  {
    EmptyIsPlaced(chains);
  }

  /** The cells of the chains from the bucket `b` on, one chain after another. */
  ghost function From<K, V>(chains: seq<seq<Cell<K, V>>>, b: nat): seq<Cell<K, V>>
    decreases |chains| - b
  {
    if b >= |chains| then [] else chains[b] + From(chains, b + 1)
  }

  /** The cells from the one at `j` of bucket `b` on. */
  ghost function Left<K, V>(chains: seq<seq<Cell<K, V>>>, b: nat, j: nat): seq<Cell<K, V>>
    requires b < |chains| && j <= |chains[b]|
  {
    chains[b][j..] + From(chains, b + 1)
  }

  lemma NextBucket<K, V>(chains: seq<seq<Cell<K, V>>>, b: nat)
    requires b < |chains|
    ensures Left(chains, b, |chains[b]|) == if b + 1 < |chains| then Left(chains, b + 1, 0) else []
  {
  }

  lemma LeftOfStart<K, V>(chains: seq<seq<Cell<K, V>>>, b: nat)
    requires b < |chains|
    ensures Left(chains, b, 0) == From(chains, b)
  {
  }

  lemma LeftStep<K, V>(chains: seq<seq<Cell<K, V>>>, b: nat, j: nat)
    requires b < |chains| && j < |chains[b]|
    ensures Left(chains, b, j) == [chains[b][j]] + Left(chains, b, j + 1)
  {
  }

  lemma BucketStarts<K, V>(cells: array<Cell?<K, V>>, chains: seq<seq<Cell<K, V>>>, s: set<Cell<K, V>>, b: nat)
    requires Table(cells, chains, s) && b < |chains|
    ensures cells.Length == |chains| && cells[b] == At(chains[b], 0)
  {
    assert Linked(cells[b], chains[b]);
  }

  lemma CellIsLinked<K, V>(cells: array<Cell?<K, V>>, chains: seq<seq<Cell<K, V>>>, s: set<Cell<K, V>>, b: nat, j: nat)
    requires Table(cells, chains, s) && b < |chains| && j < |chains[b]|
    ensures chains[b][j] in s && chains[b][j].func % |chains| == b
    ensures chains[b][j].next == At(chains[b], j + 1)
  {
    assert Linked(cells[b], chains[b]);
    assert chains[b][j] in chains[b];
  }

  ghost function Keys<K, V>(cs: seq<Cell<K, V>>): (ks: seq<K>)
    ensures |ks| == |cs|
  {
    seq(|cs|, i requires 0 <= i < |cs| => cs[i].key)
  }

  ghost function Values<K, V>(cs: seq<Cell<K, V>>): (vs: seq<V>)
    reads cs
    ensures |vs| == |cs|
  {
    seq(|cs|, i requires 0 <= i < |cs| reads cs => cs[i].value)
  }

  class HashMap<K, I(==), V> {
    const id: K -> I
    const hash: I -> nat
    var mAllocated: nat
    var mCount: nat
    var mCells: array<Cell?<K, V>>
    ghost var chains: seq<seq<Cell<K, V>>>
    ghost var cells: set<Cell<K, V>>
    ghost var index: map<I, Cell<K, V>>

    ghost predicate Valid()
      reads this, mCells, cells
    {
      && Table(mCells, chains, cells)
      && Indexed(index, cells, id, hash)
      && mAllocated == mCells.Length && mCount == |index|
      && mCount <= MAX_DEPTH * mAllocated + 1
    }

    /** The finite map that the table stands for: each identity with the key stored first and the value set last. */
    ghost function Contents(): map<I, (K, V)>
      requires Valid()
      reads this, mCells, cells
    {
      View(index, cells)
    }

    constructor (id: K -> I, hash: I -> nat)
      ensures Valid() && Contents() == map[] && this.id == id && this.hash == hash
      ensures fresh(mCells) && cells == {}
    {
      this.id := id;
      this.hash := hash;
      mCount := 0;
      mCells := new Cell?<K, V>[DEFAULT_SIZE](_ => null);
      mAllocated := DEFAULT_SIZE;
      chains := seq(DEFAULT_SIZE, i => []);
      cells, index := {}, map[];
      new;
      EmptyIsPlaced(chains);
    }

    /** Moves every cell to a table of another size. */
    method Allocate(size: nat)
      requires Valid() && size > 0 && mCount <= MAX_DEPTH * size + 1
      modifies this, cells
      ensures Valid() && mAllocated == size && (mCells == old(mCells) || fresh(mCells))
      ensures cells == old(cells) && Contents() == old(Contents()) && mCount == old(mCount)
    {
      hide Table;
      if mAllocated == size {
        return;
      }
      mCells, chains := Rehash(mCells, size, chains, cells);
      mAllocated := size;
    }

    /** The cell of a key, if there is one, with the cell before it in its bucket. */
    method Find(key: K) returns (prev: Cell?<K, V>, iter: Cell?<K, V>, ghost j: nat)
      requires Valid()
      ensures iter == null <==> id(key) !in index
      ensures iter != null ==>
        var b := hash(id(key)) % mAllocated;
        && iter in cells && index[id(key)] == iter && id(iter.key) == id(key)
        && |chains| == mAllocated && j < |chains[b]| && chains[b][j] == iter
        && prev == (if j == 0 then null else chains[b][j - 1])
    {
      var func := hash(id(key));
      var indx := func % mAllocated;
      ghost var chain := chains[indx];
      prev, iter, j := null, mCells[indx], 0;
      while iter != null
        invariant j <= |chain| && iter == At(chain, j)
        invariant prev == if j == 0 then null else chain[j - 1]
        invariant forall k :: 0 <= k < j ==> id(chain[k].key) != id(key)
        decreases |chain| - j
      {
        assert chain[j] in chain;
        if iter.func == func && id(iter.key) == id(key) {
          return;
        }
        prev := iter;
        iter := iter.next;
        j := j + 1;
      }
      NotIndexed(chains, index, cells, id, hash, id(key));
    }

    method ObjectForKey(key: Option<K>) returns (r: Option<V>)
      requires Valid()
      ensures r == if key.Some? && id(key.value) in Contents() then Some(Contents()[id(key.value)].1) else None
    {
      if key.None? {
        return None;
      }
      var prev, iter;
      ghost var j;
      prev, iter, j := Find(key.value);
      r := if iter != null then Some(iter.value) else None;
    }

    /** Gives a cell another value. */
    method Replace(iter: Cell<K, V>, value: V)
      requires Valid() && iter in cells
      modifies iter`value
      ensures Valid() && Contents() == old(Contents())[id(iter.key) := (iter.key, value)]
    {
      hide Placed;
      iter.value := value;
    }

    /** Puts a cell for a key that has none in front of its bucket. */
    method Insert(cell: Cell<K, V>)
      requires Valid() && cell !in cells && id(cell.key) !in index && cell.func == hash(id(cell.key))
      requires mCount <= MAX_DEPTH * mAllocated
      modifies this, mCells, cell`next
      ensures Valid() && mCells == old(mCells) && cells == old(cells) + {cell}
      ensures Contents() == old(Contents())[id(cell.key) := (cell.key, cell.value)]
    {
      hide Placed, Hung, Pushed, Indexed, Table, View;
      TableSize(mCells, chains, cells);
      Push(mCells, cell, chains, cells);
      IndexGrows(index, cells, id, hash, cell);
      chains, cells, index, mCount := Pushed(chains, cell), cells + {cell}, index[id(cell.key) := cell], mCount + 1;
    }

    /** Sets the value of a key; a key that is there already stays, and only its value changes. */
    method SetObjectForKey(key: K, value: V)
      requires Valid()
      modifies this, mCells, cells
      ensures Valid() && (mCells == old(mCells) || fresh(mCells)) && fresh(cells - old(cells))
      ensures var was := old(Contents());
              Contents() == was[id(key) := (if id(key) in was then was[id(key)].0 else key, value)]
    {
      hide Table, Indexed;
      if mCount > mAllocated * MAX_DEPTH {
        Allocate(mCount / MAX_DEPTH * 2 + 1);
      }
      var prev, iter;
      ghost var j;
      prev, iter, j := Find(key);
      if iter != null {
        Replace(iter, value);
        return;
      }
      var cell := new Cell(hash(id(key)), key, value, null);
      Insert(cell);
    }

    /** Takes the cell at `j` of bucket `indx` out of its chain. */
    method Unlink(prev: Cell?<K, V>, iter: Cell<K, V>, indx: nat, ghost j: nat)
      requires Table(mCells, chains, cells)
      requires indx < |chains| && j < |chains[indx]| && chains[indx][j] == iter
      requires prev == if j == 0 then null else chains[indx][j - 1]
      modifies mCells, cells
      ensures Table(mCells, Cut(chains, indx, j), cells - {iter})
      ensures forall c :: c in cells ==> c.value == old(c.value)
    {
      hide Cut, Indexed;
      OnlyInOneChain(chains, cells, indx);
      assert Linked(mCells[indx], chains[indx]) && NoDuplicates(chains[indx]);
      if prev != null {
        prev.next := iter.next;
      } else {
        mCells[indx] := iter.next;
      }
      CutIsTable(mCells, chains, cells, indx, j);
    }

    /** The same, seen from the map, whose values stay. */
    method Detach(prev: Cell?<K, V>, iter: Cell<K, V>, indx: nat, ghost j: nat)
      requires Table(mCells, chains, cells) && forall x :: x in index ==> index[x] in cells
      requires indx < |chains| && j < |chains[indx]| && chains[indx][j] == iter
      requires prev == if j == 0 then null else chains[indx][j - 1]
      modifies mCells, cells
      ensures Table(mCells, Cut(chains, indx, j), cells - {iter})
      ensures View(index, cells) == old(View(index, cells))
    {
      hide Table, Cut;
      Unlink(prev, iter, indx, j);
    }

    /** Removes the cell at `j` of bucket `indx`. */
    method Remove(prev: Cell?<K, V>, iter: Cell<K, V>, indx: nat, ghost j: nat)
      requires Valid() && iter in cells
      requires indx < |chains| && j < |chains[indx]| && chains[indx][j] == iter
      requires prev == if j == 0 then null else chains[indx][j - 1]
      modifies this, mCells, cells
      ensures Valid() && mCells == old(mCells) && cells == old(cells) - {iter} && mAllocated == old(mAllocated)
      ensures Contents() == old(Contents()) - {id(iter.key)}
    {
      hide Table, Indexed, Placed, Hung, Cut, View;
      IndexInside(index, cells, id, hash);
      Detach(prev, iter, indx, j);
      IndexShrinks(index, cells, id, hash, iter);
      chains, cells, index, mCount := Cut(chains, indx, j), cells - {iter}, index - {id(iter.key)}, mCount - 1;
    }

    method RemoveObjectForKey(key: Option<K>)
      requires Valid()
      modifies this, mCells, cells
      ensures Valid() && mCells == old(mCells) && cells <= old(cells) && mAllocated == old(mAllocated)
      ensures Contents() == if key.Some? then old(Contents()) - {id(key.value)} else old(Contents())
    {
      hide Table, Indexed, Placed, Hung, View;
      if key.None? {
        return;
      }
      TableSize(mCells, chains, cells);
      var indx := hash(id(key.value)) % mAllocated;
      var prev, iter;
      ghost var j;
      prev, iter, j := Find(key.value);
      if iter == null {
        ViewWithout(index, cells, id, hash, id(key.value));
      } else {
        Remove(prev, iter, indx, j);
      }
    }

    /** Empties every bucket. */
    method ClearBuckets()
      modifies mCells
      ensures forall i :: 0 <= i < mCells.Length ==> mCells[i] == null
    {
      for indx := 0 to mCells.Length
        invariant forall i :: 0 <= i < indx ==> mCells[i] == null
      {
        mCells[indx] := null;
      }
    }

    method RemoveAllObjects()
      requires Valid()
      modifies this, mCells
      ensures Valid() && Contents() == map[] && mCells == old(mCells) && cells == {}
    {
      hide Placed, Hung;
      TableSize(mCells, chains, cells);
      ClearBuckets();
      mCount := 0;
      chains, cells, index := seq(mAllocated, i => []), {}, map[];
      NothingInTable(mCells, chains);
    }

    // ----- iteration

    /** The position of a cell in the chains. */
    ghost predicate IsAt(iter: Cell<K, V>, b: nat, j: nat)
      reads this
    {
      b < |chains| && j < |chains[b]| && chains[b][j] == iter
    }

    /** `iter` itself, or else the first cell of the next bucket that is not empty. */
    method Skip(start: Cell?<K, V>, from: nat, ghost j0: nat)
      returns (iter: Cell?<K, V>, ghost b: nat, ghost j: nat)
      requires Valid() && from < mAllocated == |chains| && j0 <= |chains[from]| && start == At(chains[from], j0)
      ensures iter == null ==> Left(chains, from, j0) == []
      ensures iter != null ==> IsAt(iter, b, j) && Left(chains, from, j0) == Left(chains, b, j)
    {
      hide Placed, Hung, Table, Indexed, From, Left, Linked;
      var indx := from;
      iter, j := start, j0;
      while iter == null
        invariant from <= indx < mAllocated && j <= |chains[indx]| && iter == At(chains[indx], j)
        invariant Left(chains, from, j0) == Left(chains, indx, j)
        decreases mAllocated - indx
      {
        NextBucket(chains, indx);
        indx := indx + 1;
        if indx >= mAllocated {
          return null, indx, j;
        }
        iter, j := mCells[indx], 0;
        BucketStarts(mCells, chains, cells, indx);
      }
      b := indx;
    }

    method IteratorBegin() returns (iter: Cell?<K, V>, ghost b: nat, ghost j: nat)
      requires Valid()
      ensures iter == null ==> From(chains, 0) == []
      ensures iter != null ==> IsAt(iter, b, j) && From(chains, 0) == Left(chains, b, j)
    {
      hide Placed, Hung, Indexed, From;
      TableSize(mCells, chains, cells);
      BucketStarts(mCells, chains, cells, 0);
      LeftOfStart(chains, 0);
      iter, b, j := Skip(mCells[0], 0, 0);
    }

    /** The cell after `iter`, which is at `j` of bucket `b`. */
    method IteratorNext(iter: Cell<K, V>, ghost b: nat, ghost j: nat)
      returns (next: Cell?<K, V>, ghost nb: nat, ghost nj: nat)
      requires Valid() && IsAt(iter, b, j)
      ensures next == null ==> Left(chains, b, j) == [iter]
      ensures next != null ==> IsAt(next, nb, nj) && Left(chains, b, j) == [iter] + Left(chains, nb, nj)
    {
      hide Placed, Hung, Indexed, From;
      TableSize(mCells, chains, cells);
      CellIsLinked(mCells, chains, cells, b, j);
      LeftStep(chains, b, j);
      next, nb, nj := Skip(iter.next, iter.func % mAllocated, j + 1);
    }

    /** Iteration has passed `done` and stands at `iter`. */
    ghost predicate Passed(done: seq<Cell<K, V>>, iter: Cell?<K, V>, b: nat, j: nat)
      reads this
    {
      && (iter == null ==> From(chains, 0) == done)
      && (iter != null ==> IsAt(iter, b, j) && From(chains, 0) == done + Left(chains, b, j))
    }

    lemma PassesNext(done: seq<Cell<K, V>>, iter: Cell<K, V>, b: nat, j: nat, next: Cell?<K, V>, nb: nat, nj: nat)
      requires Passed(done, iter, b, j)
      requires next == null ==> Left(chains, b, j) == [iter]
      requires next != null ==> IsAt(next, nb, nj) && Left(chains, b, j) == [iter] + Left(chains, nb, nj)
      ensures Passed(done + [iter], next, nb, nj) && |done| < |From(chains, 0)|
    {
      hide From, Left;
    }

    method AllKeys() returns (keys: seq<K>)
      requires Valid()
      ensures keys == Keys(From(chains, 0))
    {
      hide From, Left, Table, Indexed;
      keys := [];
      ghost var done: seq<Cell<K, V>> := [];
      var iter: Cell?<K, V>;
      ghost var b: nat, j: nat;
      iter, b, j := IteratorBegin();
      while iter != null
        invariant keys == Keys(done) && Passed(done, iter, b, j)
        decreases |From(chains, 0)| - |done|
      {
        assert Keys(done + [iter]) == Keys(done) + [iter.key];
        keys := keys + [iter.key];
        var next;
        ghost var nb, nj;
        next, nb, nj := IteratorNext(iter, b, j);
        PassesNext(done, iter, b, j, next, nb, nj);
        done := done + [iter];
        iter, b, j := next, nb, nj;
      }
    }

    method AllValues() returns (values: seq<V>)
      requires Valid()
      ensures values == Values(From(chains, 0))
    {
      hide From, Left, Table, Indexed;
      values := [];
      ghost var done: seq<Cell<K, V>> := [];
      var iter: Cell?<K, V>;
      ghost var b: nat, j: nat;
      iter, b, j := IteratorBegin();
      while iter != null
        invariant values == Values(done) && Passed(done, iter, b, j)
        decreases |From(chains, 0)| - |done|
      {
        assert Values(done + [iter]) == Values(done) + [iter.value];
        values := values + [iter.value];
        var next;
        ghost var nb, nj;
        next, nb, nj := IteratorNext(iter, b, j);
        PassesNext(done, iter, b, j, next, nb, nj);
        done := done + [iter];
        iter, b, j := next, nb, nj;
      }
    }
  }

  // ----- what iteration lists

  lemma NoDuplicatesJoined<T>(a: seq<T>, b: seq<T>)
    requires NoDuplicates(a) && NoDuplicates(b) && forall x :: x in a ==> x !in b
    ensures NoDuplicates(a + b)
  {
    var c := a + b;
    forall i, j | 0 <= i < j < |c|
      ensures c[i] != c[j]
    {
      assert i < |a| ==> c[i] in a;
      assert j >= |a| ==> c[j] == b[j - |a|];
      assert i >= |a| ==> c[i] == b[i - |a|];
    }
  }

  lemma {:induction false} FromHolds<K, V>(chains: seq<seq<Cell<K, V>>>, s: set<Cell<K, V>>, b: nat)
    requires Placed(chains, s) && b <= |chains|
    ensures NoDuplicates(From(chains, b))
    ensures forall c :: c in From(chains, b) <==> c in s && c.func % |chains| >= b
    decreases |chains| - b
  {
    if b >= |chains| {
    } else {
      FromHolds(chains, s, b + 1);
      assert NoDuplicates(chains[b]);
      assert forall c :: c in chains[b] <==> c in s && c.func % |chains| == b;
      hide NoDuplicates;
      NoDuplicatesJoined(chains[b], From(chains, b + 1));
    }
  }

  lemma {:induction false} AsManyAs<T>(cs: seq<T>, s: set<T>)
    requires NoDuplicates(cs) && forall c :: c in cs <==> c in s
    ensures |cs| == |s|
  {
    if |cs| == 0 {
      assert s == {};
    } else {
      AsManyAs(cs[1..], s - {cs[0]});
    }
  }

  lemma {:induction false} AsManyIndexed<K, I, V>(index: map<I, Cell<K, V>>, s: set<Cell<K, V>>, id: K -> I,
                                                  hash: I -> nat)
    requires Indexed(index, s, id, hash)
    ensures |index| == |s|
    decreases s
  {
    if s == {} {
      assert index.Keys == {};
    } else {
      var c :| c in s;
      IndexShrinks(index, s, id, hash, c);
      AsManyIndexed(index - {id(c.key)}, s - {c}, id, hash);
    }
  }

  /** The cells that iteration passes are those of the table, each once. */
  lemma IterationIsComplete<K, I, V>(m: HashMap<K, I, V>)
    requires m.Valid()
    ensures NoDuplicates(From(m.chains, 0)) && |From(m.chains, 0)| == m.mCount
    ensures forall c :: c in From(m.chains, 0) <==> c in m.cells
  {
    FromHolds(m.chains, m.cells, 0);
    AsManyAs(From(m.chains, 0), m.cells);
    AsManyIndexed(m.index, m.cells, m.id, m.hash);
    hide From, Placed, Hung, Indexed, NoDuplicates;
  }

  /**
    `keys` and `values` list the entries of a map, each once, in matching order: keys of distinct
    identities, each with its value, and no entry left out.
   */
  ghost predicate Lists<K, I, V>(keys: seq<K>, values: seq<V>, contents: map<I, (K, V)>, id: K -> I) {
    && |keys| == |values| == |contents|
    && (forall i, j :: 0 <= i < j < |keys| ==> id(keys[i]) != id(keys[j]))
    && (forall i :: 0 <= i < |keys| ==> id(keys[i]) in contents && contents[id(keys[i])] == (keys[i], values[i]))
    && (forall x :: x in contents ==> exists i :: 0 <= i < |keys| && id(keys[i]) == x)
  }

  lemma DistinctIdentities<K, I, V>(index: map<I, Cell<K, V>>, s: set<Cell<K, V>>, id: K -> I, hash: I -> nat,
                                    cs: seq<Cell<K, V>>)
    requires Indexed(index, s, id, hash) && NoDuplicates(cs) && forall c :: c in cs ==> c in s
    ensures forall i, j :: 0 <= i < j < |cs| ==> id(Keys(cs)[i]) != id(Keys(cs)[j])
  {
  }

  lemma ViewAt<K, I, V>(index: map<I, Cell<K, V>>, s: set<Cell<K, V>>, id: K -> I, hash: I -> nat, c: Cell<K, V>)
    requires Indexed(index, s, id, hash) && c in s
    ensures id(c.key) in View(index, s) && View(index, s)[id(c.key)] == (c.key, c.value)
  {
  }

  lemma ViewIsListed<K, I, V>(index: map<I, Cell<K, V>>, s: set<Cell<K, V>>, id: K -> I, hash: I -> nat,
                              cs: seq<Cell<K, V>>)
    requires Indexed(index, s, id, hash) && NoDuplicates(cs) && |cs| == |index|
    requires forall c :: c in cs <==> c in s
    ensures Lists(Keys(cs), Values(cs), View(index, s), id)
  {
    assert forall x :: x in index ==> index[x] in s;
    hide NoDuplicates, View, Indexed, Keys, Values;
    ViewHasIndex(index, s, id, hash);
    DistinctIdentities(index, s, id, hash, cs);
    forall i | 0 <= i < |cs|
      ensures id(Keys(cs)[i]) in View(index, s) && View(index, s)[id(Keys(cs)[i])] == (Keys(cs)[i], Values(cs)[i])
    {
      ViewAt(index, s, id, hash, cs[i]);
      ListedAt(cs, i);
    }
    forall x | x in View(index, s)
      ensures exists i :: 0 <= i < |Keys(cs)| && id(Keys(cs)[i]) == x
    {
      IndexedIsAmong(index, s, id, hash, cs, x);
    }
  }

  lemma ListedAt<K, V>(cs: seq<Cell<K, V>>, i: nat)
    requires i < |cs|
    ensures Keys(cs)[i] == cs[i].key && Values(cs)[i] == cs[i].value
  {
  }

  lemma IndexedIsAmong<K, I, V>(index: map<I, Cell<K, V>>, s: set<Cell<K, V>>, id: K -> I, hash: I -> nat,
                                cs: seq<Cell<K, V>>, x: I)
    requires Indexed(index, s, id, hash) && x in index
    requires forall c :: c in cs <==> c in s
    ensures exists i :: 0 <= i < |Keys(cs)| && id(Keys(cs)[i]) == x
  {
    assert index[x] in cs;
    var i :| 0 <= i < |cs| && cs[i] == index[x];
    assert id(Keys(cs)[i]) == x;
  }

  lemma ViewHasIndex<K, I, V>(index: map<I, Cell<K, V>>, s: set<Cell<K, V>>, id: K -> I, hash: I -> nat)
    requires Indexed(index, s, id, hash)
    ensures View(index, s).Keys == index.Keys && |View(index, s)| == |index|
  {
    assert View(index, s).Keys == index.Keys;
  }

  /** What `AllKeys` and `AllValues` return lists the map. */
  lemma IterationLists<K, I, V>(m: HashMap<K, I, V>)
    requires m.Valid()
    ensures Lists(Keys(From(m.chains, 0)), Values(From(m.chains, 0)), m.Contents(), m.id)
  {
    hide Lists, From, Indexed, View, Placed, Hung, NoDuplicates;
    IterationIsComplete(m);
    ViewIsListed(m.index, m.cells, m.id, m.hash, From(m.chains, 0));
  }
}
